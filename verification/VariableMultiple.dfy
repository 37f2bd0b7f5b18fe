/** GeAdd, GeDouble and GeScalarMult of vrf/vrf_ed25519.go: double-and-add from the lowest bit, with a masked move. */
module VariableMultiple {
  import opened Words
  import opened BitOps
  import opened ByteStrings
  import opened Division
  import opened FieldElement
  import opened CurvePoints
  import opened CurveOps
  import opened Groups
  import opened PointArithmetic
  import opened Recoding
  import opened DoubleScalar

  method GeAdd(p: Extended, qe: Extended, d2: array<int32>, ghost g: Group<Point>, ghost a: Point, ghost b: Point)
    returns (re: Extended)
    requires EdwardsGroup(g) && Closed(g) && a in g.carrier && b in g.carrier
    requires Is(p, a) && Is(qe, b) && IsElement(d2) && Limbs(d2) == D2_LIMBS
    ensures Is(re, g.add(a, b)) && fresh(re.Repr())
  {
    hide EdwardsGroup, Abelian, Closed, Is, IsCached, IsCompleted;
    var q := new Cached();
    CachePoint(qe, q, d2, b);
    var r := new Completed();
    AddCached(r, p, q, g, a, b);
    re := new Extended();
    Extend(r, re, g.add(a, b));
  }

  method GeDouble(p: Extended, ghost g: Group<Point>, ghost a: Point) returns (r: Extended)
    requires EdwardsGroup(g) && Closed(g) && a in g.carrier && Is(p, a)
    ensures Is(r, g.add(a, a)) && fresh(r.Repr())
  {
    hide EdwardsGroup, Abelian, Closed, Is, IsProjective, IsCompleted;
    var q := new Projective();
    CopyToProjective(p, q, a);
    var rc := new Completed();
    DoublePoint(q, rc, g, a);
    r := new Extended();
    Extend(rc, r, g.add(a, a));
  }

  method ExtendedGroupElementCMove(t: Extended, u: Extended, b: int32, ghost p: Point, ghost q: Point)
    requires Is(t, p) && Is(u, q) && t.Repr() !! u.Repr() && (b == 0 || b == 1)
    modifies t.X, t.Y, t.Z, t.T
    ensures Is(t, if b == 1 then q else p)
  {
    hide Limbs, Eval, Within, Unit;
    FeCMove(t.X, u.X, b);
    FeCMove(t.Y, u.Y, b);
    FeCMove(t.Z, u.Z, b);
    FeCMove(t.T, u.T, b);
  }

  /** The bits of a from the lowest, as digits. */
  ghost function BitString(a: seq<byte>): seq<int8>
    requires |a| == 32
  {
    seq(256, (i: nat) requires i < 256 => BitOf(a, i))
  }

  lemma BitStringValue(a: seq<byte>)
    requires |a| == 32
    ensures Digits(BitString(a), 0) == LeAt(a, 0, 32)
  {
    hide Digits, LeAt;
    BitsValue(BitString(a), a, 0);
  }

  /** One round on the multiples of H: q takes 2^i H if the bit is set, p goes from 2^i H to 2^(i+1) H. */
  method LadderStep(q: Extended, p: Extended, bit: int32, d2: array<int32>, ghost g: Group<Point>, ghost H: Point,
                    ghost c: int, ghost m: int) returns (p': Extended)
    requires EdwardsGroup(g) && Closed(g) && H in g.carrier && (bit == 0 || bit == 1)
    requires Is(q, Times(g, c, H)) && Is(p, Times(g, m, H))
    requires q.Repr() !! p.Repr() && IsElement(d2) && d2 !in q.Repr() && Limbs(d2) == D2_LIMBS
    modifies q.X, q.Y, q.Z, q.T
    ensures Is(q, Times(g, c + bit as int * m, H)) && Is(p', Times(g, m + m, H)) && fresh(p'.Repr())
  {
    hide EdwardsGroup, Abelian, Closed, Is, Times;
    GroupOf(g);
    TimesSum(g, c, m, H);
    TimesSum(g, m, m, H);
    var t := GeAdd(q, p, d2, g, Times(g, c, H), Times(g, m, H));
    ExtendedGroupElementCMove(q, t, bit, Times(g, c, H), Times(g, c + m, H));
    p' := GeDouble(p, g, Times(g, m, H));
  }

  /** a h, for every 256-bit a. */
  method GeScalarMult(h: Extended, a: array<byte>, d2: array<int32>, ghost g: Group<Point>, ghost H: Point)
    returns (q: Extended)
    requires EdwardsGroup(g) && Closed(g) && H in g.carrier && Is(h, H)
    requires a.Length == 32 && IsElement(d2) && Limbs(d2) == D2_LIMBS
    ensures Is(q, Times(g, LeAt(a[..], 0, 32), H)) && fresh(q.Repr())
  {
    hide EdwardsGroup, Abelian, Closed, Is, Times, Digits, LeAt, Pow2, BitOf;
    GroupOf(g);
    q := new Extended();
    ZeroExtended(q);
    LadderStart(g, H);
    var p := h;
    ghost var bits, c := BitString(a[..]), 0;
    BitStringValue(a[..]);
    for i := 0 to 256
      invariant Is(q, Times(g, c, H)) && Is(p, Times(g, Pow2(i), H))
      invariant fresh(q.Repr()) && q.Repr() !! p.Repr()
      invariant c + Pow2(i) * Digits(bits, i) == Digits(bits, 0)
    {
      var bit := BitOf(a[..], i) as int32;
      p := LadderStep(q, p, bit, d2, g, H, c, Pow2(i));
      LadderCount(bits, i);
      c := c + bit as int * Pow2(i);
    }
    DigitsZero(bits, 256);
  }

  lemma LadderStart(g: Group<Point>, H: Point)
    requires EdwardsGroup(g) && Closed(g) && H in g.carrier
    ensures Times(g, 0, H) == Point(0, 1) && Times(g, Pow2(0), H) == H
    ensures Pow2(0) == 1
  {
    TimesOne(g, H);
  }

  lemma LadderCount(r: seq<int8>, i: nat)
    requires i < |r|
    ensures Pow2(i) * Digits(r, i) == r[i] as int * Pow2(i) + Pow2(i + 1) * Digits(r, i + 1)
    ensures Pow2(i + 1) == Pow2(i) + Pow2(i)
  {
    var m, d, x := Pow2(i), r[i] as int, Digits(r, i + 1);
    assert Digits(r, i) == d + 2 * x && Pow2(i + 1) == 2 * m;
    hide Digits, Pow2;
    PositionalStep(m, d, 2, x);
  }
}
