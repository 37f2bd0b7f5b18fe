/** GeDoubleScalarMultVartime of vrf/edwards25519/edwards25519.go: a A + b B by two interleaved recodings. */
module DoubleScalar {
  import opened Words
  import opened BitOps
  import opened ByteStrings
  import opened FieldElement
  import opened CurvePoints
  import opened CurveOps
  import opened Groups
  import opened PointArithmetic
  import opened Recoding

  // ---------- combinations a A + b B ----------

  lemma AddFirst(g: Group<Point>, a: int, b: int, d: int, A: Point, B: Point)
    requires Abelian(g) && A in g.carrier && B in g.carrier
    ensures Combination(g, a + d, A, b, B) == g.add(Combination(g, a, A, b, B), Times(g, d, A))
  {
    hide Commutes, Associates, HasInverses;
    CombinationSum(g, a, b, d, 0, A, B);
    Neutral(g, Times(g, d, A));
  }

  lemma AddSecond(g: Group<Point>, a: int, b: int, d: int, A: Point, B: Point)
    requires Abelian(g) && A in g.carrier && B in g.carrier
    ensures Combination(g, a, A, b + d, B) == g.add(Combination(g, a, A, b, B), Times(g, d, B))
  {
    hide Commutes, Associates, HasInverses;
    CombinationSum(g, a, b, 0, d, A, B);
    Neutral(g, Times(g, d, B));
  }

  // ---------- tables of odd multiples ----------

  /** Entry k of the table stands for (2k+1) A; all coordinates are in S. */
  ghost predicate CachedTable(ai: seq<Cached>, S: set<object>, g: Group<Point>, A: Point)
    requires Closed(g) && A in g.carrier
    reads S
  {
    forall k :: 0 <= k < |ai| ==> ai[k].Repr() <= S && IsCached(ai[k], Times(g, 2 * k + 1, A))
  }

  lemma ExtendTable(ai: seq<Cached>, S: set<object>, g: Group<Point>, A: Point, next: Cached)
    requires Closed(g) && A in g.carrier
    requires CachedTable(ai, S, g, A) && IsCached(next, Times(g, 2 * |ai| + 1, A))
    ensures CachedTable(ai + [next], S + next.Repr(), g, A)
  {
    hide Closed, IsCached, Times;
  }

  lemma EmptyTable(g: Group<Point>, A: Point)
    requires Closed(g) && A in g.carrier
    ensures CachedTable([], {}, g, A)
  {
  }

  lemma TableEntry(ai: seq<Cached>, S: set<object>, g: Group<Point>, A: Point, k: nat)
    requires Closed(g) && A in g.carrier
    requires CachedTable(ai, S, g, A) && k < |ai|
    ensures ai[k].Repr() <= S && IsCached(ai[k], Times(g, 2 * k + 1, A))
  {
  }

  ghost predicate PreComputedTable(bi: seq<PreComputed>, S: set<object>, g: Group<Point>, B: Point)
    requires Closed(g) && B in g.carrier
    reads S
  {
    forall k :: 0 <= k < |bi| ==> bi[k].Repr() <= S && IsPreComputed(bi[k], Times(g, 2 * k + 1, B))
  }

  /** t += d A, for an odd or zero digit d. */
  method AddDigitOfA(t: Completed, u: Extended, ai: seq<Cached>, d: int8, ghost S: set<object>,
                     ghost g: Group<Point>, ghost a: int, ghost b: int, ghost A: Point, ghost B: Point)
    requires EdwardsGroup(g) && A in g.carrier && B in g.carrier
    requires t.Valid() && u.Valid() && t.Repr() !! u.Repr() && S !! t.Repr() && S !! u.Repr()
    requires IsCompleted(t, Combination(g, a, A, b, B))
    requires |ai| == 8 && CachedTable(ai, S, g, A)
    requires d == 0 || (d as int % 2 == 1 && -15 <= d <= 15)
    modifies t.X, t.Y, t.Z, t.T, u.X, u.Y, u.Z, u.T
    ensures IsCompleted(t, Combination(g, a + d as int, A, b, B))
  {
    hide EdwardsGroup, Abelian, Closed, Is, IsCached, IsCompleted, Times, Combination;
    GroupOf(g);
    ghost var c := Combination(g, a, A, b, B);
    AddFirst(g, a, b, d as int, A, B);
    if d > 0 {
      Extend(t, u, c);
      assert IsCached(ai[d / 2], Times(g, 2 * (d / 2) as int + 1, A));
      AddCached(t, u, ai[d / 2], g, c, Times(g, d as int, A));
    } else if d < 0 {
      Extend(t, u, c);
      TimesNegates(g, -(d as int), A);
      assert IsCached(ai[(-d) / 2], Times(g, 2 * ((-d) / 2) as int + 1, A));
      SubCached(t, u, ai[(-d) / 2], g, c, Times(g, -(d as int), A));
    }
  }

  lemma GroupOf(g: Group<Point>)
    requires EdwardsGroup(g)
    ensures Abelian(g) && Closed(g)
  {
  }

  /** t += d B, for an odd or zero digit d. */
  method AddDigitOfB(t: Completed, u: Extended, bi: seq<PreComputed>, d: int8, ghost S: set<object>,
                     ghost g: Group<Point>, ghost a: int, ghost b: int, ghost A: Point, ghost B: Point)
    requires EdwardsGroup(g) && A in g.carrier && B in g.carrier
    requires t.Valid() && u.Valid() && t.Repr() !! u.Repr() && S !! t.Repr() && S !! u.Repr()
    requires IsCompleted(t, Combination(g, a, A, b, B))
    requires |bi| == 8 && PreComputedTable(bi, S, g, B)
    requires d == 0 || (d as int % 2 == 1 && -15 <= d <= 15)
    modifies t.X, t.Y, t.Z, t.T, u.X, u.Y, u.Z, u.T
    ensures IsCompleted(t, Combination(g, a, A, b + d as int, B))
  {
    hide EdwardsGroup, Abelian, Closed, Is, IsPreComputed, IsCompleted, Times, Combination;
    GroupOf(g);
    ghost var c := Combination(g, a, A, b, B);
    AddSecond(g, a, b, d as int, A, B);
    if d > 0 {
      Extend(t, u, c);
      assert IsPreComputed(bi[d / 2], Times(g, 2 * (d / 2) as int + 1, B));
      AddMixed(t, u, bi[d / 2], g, c, Times(g, d as int, B));
    } else if d < 0 {
      Extend(t, u, c);
      TimesNegates(g, -(d as int), B);
      assert IsPreComputed(bi[(-d) / 2], Times(g, 2 * ((-d) / 2) as int + 1, B));
      SubMixed(t, u, bi[(-d) / 2], g, c, Times(g, -(d as int), B));
    }
  }

  /** One entry of the table: the entry before plus 2A. */
  method NextEntry(a2: Extended, c: Cached, d2: array<int32>, ghost g: Group<Point>, ghost A: Point, ghost k: nat)
    returns (next: Cached)
    requires EdwardsGroup(g) && Closed(g) && A in g.carrier
    requires Is(a2, Times(g, 2, A)) && IsCached(c, Times(g, k, A))
    requires IsElement(d2) && Limbs(d2) == D2_LIMBS
    ensures IsCached(next, Times(g, k + 2, A)) && fresh(next.Repr())
  {
    hide EdwardsGroup, Abelian, Closed, Is, IsCached, IsCompleted, Times;
    GroupOf(g);
    TimesSum(g, 2, k, A);
    var t := new Completed();
    var u := new Extended();
    AddCached(t, a2, c, g, Times(g, 2, A), Times(g, k, A));
    Extend(t, u, Times(g, k + 2, A));
    next := new Cached();
    CachePoint(u, next, d2, Times(g, k + 2, A));
  }

  method TwiceExtended(e: Extended, ghost g: Group<Point>, ghost A: Point) returns (a2: Extended)
    requires EdwardsGroup(g) && Closed(g) && A in g.carrier && Is(e, A)
    ensures Is(a2, Times(g, 2, A)) && fresh(a2.Repr())
  {
    hide EdwardsGroup, Abelian, Closed, Is, IsProjective, IsCompleted, Times;
    GroupOf(g);
    var q := new Projective();
    CopyToProjective(e, q, A);
    var t := new Completed();
    DoublePoint(q, t, g, A);
    TimesOne(g, A);
    TimesSum(g, 1, 1, A);
    a2 := new Extended();
    Extend(t, a2, Times(g, 2, A));
  }

  /** The table A, 3A, ..., 15A, each entry from the one before by adding 2A. */
  method OddMultiples(e: Extended, d2: array<int32>, ghost g: Group<Point>, ghost A: Point)
    returns (ai: seq<Cached>, ghost S: set<object>)
    requires EdwardsGroup(g) && Closed(g) && A in g.carrier && Is(e, A)
    requires IsElement(d2) && Limbs(d2) == D2_LIMBS
    ensures |ai| == 8 && CachedTable(ai, S, g, A) && fresh(S)
  {
    hide EdwardsGroup, Abelian, Closed, Is, IsCached, Times, CachedTable;
    GroupOf(g);
    TimesOne(g, A);
    var c := new Cached();
    CachePoint(e, c, d2, A);
    ai, S := [], {};
    EmptyTable(g, A);
    ExtendTable(ai, S, g, A, c);
    ai, S := [] + [c], {} + c.Repr();
    var a2 := TwiceExtended(e, g, A);
    for i := 0 to 7
      invariant |ai| == i + 1 && CachedTable(ai, S, g, A) && fresh(S)
      invariant Is(a2, Times(g, 2, A))
    {
      TableEntry(ai, S, g, A, i);
      var next := NextEntry(a2, ai[i], d2, g, A, 2 * i + 1);
      ExtendTable(ai, S, g, A, next);
      ai, S := ai + [next], S + next.Repr();
    }
  }

  /** The body of the main loop: r = 2 r + da A + db B. */
  method Round(r: Projective, t: Completed, u: Extended, ai: seq<Cached>, bi: seq<PreComputed>, da: int8, db: int8,
               ghost SA: set<object>, ghost SB: set<object>, ghost g: Group<Point>,
               ghost a: int, ghost b: int, ghost A: Point, ghost B: Point)
    requires EdwardsGroup(g) && Closed(g) && A in g.carrier && B in g.carrier
    requires t.Valid() && u.Valid() && t.Repr() !! u.Repr() && t.Repr() !! {r.X, r.Y, r.Z} && u.Repr() !! {r.X, r.Y,
             r.Z}
    requires SA !! t.Repr() && SA !! u.Repr() && SB !! t.Repr() && SB !! u.Repr()
    requires |ai| == 8 && CachedTable(ai, SA, g, A) && |bi| == 8 && PreComputedTable(bi, SB, g, B)
    requires da == 0 || (da as int % 2 == 1 && -15 <= da <= 15)
    requires db == 0 || (db as int % 2 == 1 && -15 <= db <= 15)
    requires IsProjective(r, Combination(g, a, A, b, B))
    modifies t.X, t.Y, t.Z, t.T, u.X, u.Y, u.Z, u.T, r.X, r.Y, r.Z
    ensures IsProjective(r, Combination(g, da as int + 2 * a, A, db as int + 2 * b, B))
  {
    hide EdwardsGroup, Abelian, Closed, IsProjective, IsCompleted, Times, Combination, CachedTable, PreComputedTable;
    GroupOf(g);
    assert r.Valid() by {
      ProjectiveIsValid(r, Combination(g, a, A, b, B));
    }
    DoublePoint(r, t, g, Combination(g, a, A, b, B));
    CombinationSum(g, a, b, a, b, A, B);
    AddDigitOfA(t, u, ai, da, SA, g, a + a, b + b, A, B);
    AddDigitOfB(t, u, bi, db, SB, g, a + a + da as int, b + b, A, B);
    Project(t, r, Combination(g, a + a + da as int, A, b + b + db as int, B));
    assert a + a + da as int == da as int + 2 * a && b + b + db as int == db as int + 2 * b;
  }

  lemma ProjectiveIsValid(r: Projective, p: Point)
    requires IsProjective(r, p)
    ensures r.Valid()
  {
  }

  /** A digit string of the kind slide writes. */
  ghost predicate Sparse(r: seq<int8>) {
    forall k :: 0 <= k < |r| ==> r[k] == 0 || (r[k] as int % 2 == 1 && -15 <= r[k] <= 15)
  }

  /** Horner's rule over two digit strings at once, skipping the leading zeros. */
  method Interleave(r: Projective, aSlide: array<int8>, bSlide: array<int8>, ai: seq<Cached>, bi: seq<PreComputed>,
                    ghost SA: set<object>, ghost SB: set<object>, ghost g: Group<Point>, ghost A: Point, ghost B: Point)
    requires EdwardsGroup(g) && Closed(g) && A in g.carrier && B in g.carrier
    requires aSlide.Length == 256 && bSlide.Length == 256 && Sparse(aSlide[..]) && Sparse(bSlide[..])
    requires |ai| == 8 && CachedTable(ai, SA, g, A) && |bi| == 8 && PreComputedTable(bi, SB, g, B)
    requires r.Valid() && SA !! {r.X, r.Y, r.Z} && SB !! {r.X, r.Y, r.Z}
    modifies r.X, r.Y, r.Z
    ensures IsProjective(r, Combination(g, Digits(aSlide[..], 0), A, Digits(bSlide[..], 0), B))
  {
    hide EdwardsGroup, Abelian, Closed, IsProjective, Times, Combination, CachedTable, PreComputedTable, Digits;
    var x, y := aSlide[..], bSlide[..];
    GroupOf(g);
    ZeroProjective(r);
    var i := 255;
    while i >= 0
      invariant -1 <= i <= 255
      invariant forall k :: i < k < 256 ==> x[k] == 0 && y[k] == 0
    {
      if x[i] != 0 || y[i] != 0 {
        break;
      }
      i := i - 1;
    }
    DigitsZero(x, i + 1);
    DigitsZero(y, i + 1);
    NoCombination(g, A, B);
    var t := new Completed();
    var u := new Extended();
    while i >= 0
      invariant -1 <= i <= 255
      invariant IsProjective(r, Combination(g, Digits(x, i + 1), A, Digits(y, i + 1), B))
    {
      Round(r, t, u, ai, bi, x[i], y[i], SA, SB, g, Digits(x, i + 1), Digits(y, i + 1), A, B);
      DigitsStep(x, i);
      DigitsStep(y, i);
      i := i - 1;
    }
  }

  lemma DigitsStep(r: seq<int8>, i: nat)
    requires i < |r|
    ensures Digits(r, i) == r[i] as int + 2 * Digits(r, i + 1)
  {
  }

  lemma NoCombination(g: Group<Point>, A: Point, B: Point)
    requires EdwardsGroup(g) && Closed(g) && A in g.carrier && B in g.carrier
    ensures Combination(g, 0, A, 0, B) == Point(0, 1)
  {
    hide Commutes, Associates, HasInverses;
    Neutral(g, g.zero);
  }

  /**
   r = a A + b B for every a, b below 2^255 (and, for larger ones, a and b less 2^256 where slide loses a
   carry). bi is the package table of odd multiples of B, d2 the package constant 2d.
   */
  method GeDoubleScalarMultVartime(r: Projective, a: array<byte>, e: Extended, b: array<byte>, bi: seq<PreComputed>,
                                   d2: array<int32>, ghost SB: set<object>,
                                   ghost g: Group<Point>, ghost A: Point, ghost B: Point)
    requires EdwardsGroup(g) && Closed(g) && A in g.carrier && B in g.carrier
    requires a.Length == 32 && b.Length == 32
    requires Is(e, A) && IsElement(d2) && Limbs(d2) == D2_LIMBS
    requires |bi| == 8 && PreComputedTable(bi, SB, g, B)
    requires r.Valid() && SB !! {r.X, r.Y, r.Z}
    modifies r.X, r.Y, r.Z
    ensures var m, n := LeAt(a[..], 0, 32), LeAt(b[..], 0, 32);
            && IsProjective(r, Combination(g, Recoded(m), A, Recoded(n), B))
            && (m < Pow2(255) && n < Pow2(255) ==> IsProjective(r, Combination(g, m, A, n, B)))
  {
    hide EdwardsGroup, Abelian, Closed, Is, IsProjective, Times, Combination, CachedTable, PreComputedTable;
    hide Digits, LeAt, Pow2, NafRest, NafDigit;
    var aSlide, bSlide := new int8[256], new int8[256];
    slide(aSlide, a);
    slide(bSlide, b);
    SlideIsSparse(aSlide[..], LeAt(a[..], 0, 32));
    SlideIsSparse(bSlide[..], LeAt(b[..], 0, 32));
    var ai, SA := OddMultiples(e, d2, g, A);
    Interleave(r, aSlide, bSlide, ai, bi, SA, SB, g, A, B);
    ExactBelow(a[..]);
    ExactBelow(b[..]);
  }

  /** What the digits of slide stand for. */
  ghost function Recoded(n: int): int {
    n - Pow2(256) * NafRest(n, 256)
  }

  lemma SlideIsSparse(r: seq<int8>, n: int)
    requires |r| == 256 && forall i :: 0 <= i < 256 ==> r[i] as int == NafDigit(NafRest(n, i))
    ensures Sparse(r)
  {
    hide NafRest;
  }

  lemma ExactBelow(s: seq<byte>)
    requires |s| == 32
    ensures LeAt(s, 0, 32) < Pow2(255) ==> Recoded(LeAt(s, 0, 32)) == LeAt(s, 0, 32)
  {
    hide LeAt, NafRest, Pow2;
    var n := LeAt(s, 0, 32);
    if n < Pow2(255) {
      LeAtRange(s, 0, 32);
      Pow2Adds(1, 255);
      SmallPowers();
      SlideIsExact(n);
    }
  }
}
