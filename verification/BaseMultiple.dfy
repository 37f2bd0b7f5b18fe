/** GeScalarMultBase of vrf/edwards25519/edwards25519.go: a B from signed radix-16 digits and a table of multiples. */
module BaseMultiple {
  import opened Words
  import opened BitOps
  import opened ByteStrings
  import opened Division
  import opened Congruence
  import opened FieldElement
  import opened CurvePoints
  import opened CurveOps
  import opened Groups
  import opened PointArithmetic
  import opened DoubleScalar

  // ---------- radix 16 ----------

  /** The value of the digits from index i up, in units of 16^i. */
  ghost function Hex(e: seq<int8>, i: nat): int
    requires i <= |e|
    decreases |e| - i
  {
    if i == |e| then 0 else e[i] as int + 16 * Hex(e, i + 1)
  }

  function Pow16(n: nat): (r: int)
    ensures r >= 1
  {
    if n == 0 then 1 else 16 * Pow16(n - 1)
  }

  lemma {:induction false} HexUpdate(e: seq<int8>, j: nat, i: nat, x: int8)
    requires j <= i < |e|
    ensures Hex(e[i := x], j) == Hex(e, j) + Pow16(i - j) * (x as int - e[i] as int)
    decreases i - j
  {
    if j == i {
      HexSame(e[i := x], e, i + 1);
    } else {
      HexUpdate(e, j + 1, i, x);
      var d := x as int - e[i] as int;
      assert 16 * (Pow16(i - j - 1) * d) == Pow16(i - j) * d;
    }
  }

  lemma {:induction false} HexSame(e: seq<int8>, f: seq<int8>, i: nat)
    requires |e| == |f| && i <= |e| && forall k :: i <= k < |e| ==> e[k] == f[k]
    ensures Hex(e, i) == Hex(f, i)
    decreases |e| - i
  {
    if i < |e| {
      HexSame(e, f, i + 1);
    }
  }

  lemma {:induction false} NibblesValue(e: seq<int8>, a: seq<byte>, j: nat)
    requires |e| == 2 * |a| && j <= |a|
    requires forall k :: 0 <= k < |a| ==> e[2 * k] as int + 16 * e[2 * k + 1] as int == a[k] as int
    ensures Hex(e, 2 * j) == LeAt(a, j, |a| - j)
    decreases |a| - j
  {
    if j < |a| {
      NibblesValue(e, a, j + 1);
      assert Hex(e, 2 * j) == e[2 * j] as int + 16 * (e[2 * j + 1] as int + 16 * Hex(e, 2 * j + 2));
    }
  }

  /** Sixty-four digits between -8 and 8 that stand for a. */
  method Radix16(a: array<byte>) returns (e: array<int8>)
    requires a.Length == 32 && a[31] <= 127
    ensures fresh(e) && e.Length == 64
    ensures forall i :: 0 <= i < 64 ==> -8 <= e[i] <= 8
    ensures Hex(e[..], 0) == LeAt(a[..], 0, 32)
  {
    hide Hex, LeAt, Pow16;
    e := new int8[64];
    for i := 0 to 32
      invariant forall k :: 0 <= k < i ==> 0 <= e[2 * k] < 16 && 0 <= e[2 * k + 1] < 16
      invariant forall k :: 0 <= k < i ==> e[2 * k] as int + 16 * e[2 * k + 1] as int == a[k] as int
    {
      e[2 * i] := (a[i] % 16) as int8;
      e[2 * i + 1] := (a[i] / 16) as int8;
    }
    NibblesValue(e[..], a[..], 0);
    assert e[63] == e[2 * 31 + 1] && e[63] <= 7;
    assert forall i :: 0 <= i < 64 ==> 0 <= e[i] < 16 by {
      forall i | 0 <= i < 64 ensures 0 <= e[i] < 16 {
        assert i == 2 * (i / 2) || i == 2 * (i / 2) + 1;
      }
    }
    ghost var v := Hex(e[..], 0);
    var carry: int8 := 0;
    for i := 0 to 63
      invariant 0 <= carry <= 1
      invariant forall k :: 0 <= k < i ==> -8 <= e[k] <= 8
      invariant forall k :: i <= k < 63 ==> 0 <= e[k] < 16
      invariant 0 <= e[63] <= 7
      invariant Hex(e[..], 0) + Pow16(i) * carry as int == v
    {
      ghost var before, c := e[..], carry as int;
      var x := e[i] + carry;
      carry := (x + 8) / 16;
      e[i] := x - carry * 16;
      assert e[..] == before[i := e[i]];
      HexUpdate(before, 0, i, e[i]);
      CarryStep(Pow16(i), before[i] as int, c, carry as int);
      Pow16Step(i);
    }
    ghost var before := e[..];
    e[63] := e[63] + carry;
    assert e[..] == before[63 := e[63]];
    HexUpdate(before, 0, 63, e[63]);
  }

  lemma Pow16Step(i: nat)
    ensures Pow16(i + 1) == 16 * Pow16(i)
  {
  }

  lemma CarryStep(m: int, d: int, c: int, c': int)
    ensures m * ((d + c - 16 * c') - d) + (16 * m) * c' == m * c
  {
    assert m * (c - 16 * c') == m * c - m * (16 * c');
    assert m * (16 * c') == (16 * m) * c';
  }

  // ---------- branch-free selection ----------

  /** int32((uint32(b ^ c) - 1) >> 31), with the 32-bit wrap-around written out: 1 if b == c and 0 otherwise. */
  function Equal(b: int32, c: int32): (r: int32)
    requires b >= 0 && c >= 0
    ensures r == if b == c then 1 else 0
  {
    Pow2Of32();
    XorDistinguishes(31, b as int, c as int);
    (((Xor(31, b as int, c as int) - 1) % 0x1_0000_0000) / 0x8000_0000) as int32
  }

  /** (b >> 31) & 1: 1 if b < 0 and 0 otherwise. */
  function Negative(b: int32): (r: int32)
    ensures r == if b < 0 then 1 else 0
  {
    Pow2Of32();
    AndMask(31, 1);
    var sign := b as int / 0x8000_0000;
    assert sign == if b < 0 then -1 else 0;
    And(31, sign, 1) as int32
  }

  /** b - (((-negative(b)) & b) << 1), the absolute value of a small b. */
  function Absolute(b: int32): (r: int32)
    requires -0x100 <= b <= 0x100
    ensures r == if b < 0 then -b else b
  {
    Pow2Of32();
    AndMask(31, b as int);
    (b as int - 2 * And(31, -(Negative(b) as int), b as int)) as int32
  }

  method PreComputedGroupElementCMove(t: PreComputed, u: PreComputed, b: int32)
    requires t.Valid() && u.Valid() && t.Repr() !! u.Repr() && (b == 0 || b == 1)
    modifies t.yPlusX, t.yMinusX, t.xy2d
    ensures Limbs(t.yPlusX) == if b == 1 then Limbs(u.yPlusX) else old(Limbs(t.yPlusX))
    ensures Limbs(t.yMinusX) == if b == 1 then Limbs(u.yMinusX) else old(Limbs(t.yMinusX))
    ensures Limbs(t.xy2d) == if b == 1 then Limbs(u.xy2d) else old(Limbs(t.xy2d))
  {
    hide Limbs;
    FeCMove(t.yPlusX, u.yPlusX, b);
    FeCMove(t.yMinusX, u.yMinusX, b);
    FeCMove(t.xy2d, u.xy2d, b);
  }

  /** t stands for p, or for q if b is 1. */
  method Choose(t: PreComputed, u: PreComputed, b: int32, ghost p: Point, ghost q: Point)
    requires t.Repr() !! u.Repr() && (b == 0 || b == 1)
    requires IsPreComputed(t, p) && IsPreComputed(u, q)
    modifies t.yPlusX, t.yMinusX, t.xy2d
    ensures IsPreComputed(t, if b == 1 then q else p)
  {
    hide Limbs, Eval, Cong, Within;
    PreComputedGroupElementCMove(t, u, b);
  }

  function Mirror(p: Point): Point {
    Point(-p.x, p.y)
  }

  lemma MirrorLaw(plus: int, minus: int, xy2d: int, x: int, y: int)
    requires Cong(plus, y + x) && Cong(minus, y - x) && Cong(xy2d, 2 * D * (x * y))
    ensures Cong(minus, y + -x) && Cong(plus, y - -x) && Cong(-xy2d, 2 * D * (-x * y))
  {
    hide Cong;
    CongNeg(xy2d, 2 * D * (x * y));
    var m := x * y;
    assert -x * y == -m;
    assert -(2 * D * m) == 2 * D * -m;
  }

  /** Swapping y+x with y-x and negating 2dxy turns (x, y) into (-x, y). */
  method MirrorOf(t: PreComputed, ghost p: Point) returns (u: PreComputed)
    requires IsPreComputed(t, p)
    ensures IsPreComputed(u, Mirror(p)) && fresh(u.Repr())
  {
    hide Cong, Value, Small;
    u := new PreComputed();
    Copy(u.yPlusX, t.yMinusX, 3);
    Copy(u.yMinusX, t.yPlusX, 3);
    FeNeg(u.xy2d, t.xy2d, 1);
    MirrorLaw(Value(t.yPlusX), Value(t.yMinusX), Value(t.xy2d), p.x, p.y);
  }

  method ZeroPreComputed(t: PreComputed)
    requires t.Valid()
    modifies t.yPlusX, t.yMinusX, t.xy2d
    ensures IsPreComputed(t, Point(0, 1))
  {
    hide Limbs, Eval;
    FeOne(t.yPlusX);
    FeOne(t.yMinusX);
    FeZero(t.xy2d);
  }

  /** Row pos of the table: entry i stands for (i+1) Q, where Q = 256^pos B. */
  ghost predicate Row(row: seq<PreComputed>, S: set<object>, g: Group<Point>, Q: Point)
    requires Closed(g) && Q in g.carrier
    reads S
  {
    |row| == 8 && forall i :: 0 <= i < 8 ==> row[i].Repr() <= S && IsPreComputed(row[i], Times(g, i + 1, Q))
  }

  lemma RowEntry(row: seq<PreComputed>, S: set<object>, g: Group<Point>, Q: Point, i: nat)
    requires Closed(g) && Q in g.carrier && Row(row, S, g, Q) && i < 8
    ensures row[i].Repr() <= S && IsPreComputed(row[i], Times(g, i + 1, Q))
  {
  }

  /** t = m Q, looking at every entry of the row whatever m is. */
  method SelectMultiple(t: PreComputed, row: seq<PreComputed>, m: int32, ghost S: set<object>, ghost g: Group<Point>,
                        ghost Q: Point)
    requires EdwardsGroup(g) && Closed(g) && Q in g.carrier
    requires 0 <= m <= 8 && |row| == 8 && Row(row, S, g, Q)
    requires t.Valid() && t.Repr() !! S
    modifies t.yPlusX, t.yMinusX, t.xy2d
    ensures IsPreComputed(t, Times(g, m as int, Q))
  {
    hide EdwardsGroup, Closed, IsPreComputed, Row, Times;
    ZeroPreComputed(t);
    NothingSelected(g, Q);
    ghost var p := Times(g, 0, Q);
    for i := 0 to 8
      invariant p == Times(g, if 0 < m as int <= i then m as int else 0, Q)
      invariant IsPreComputed(t, p)
    {
      RowEntry(row, S, g, Q, i);
      Choose(t, row[i], Equal(m, i as int32 + 1), p, Times(g, i + 1, Q));
      p := Times(g, if 0 < m as int <= i + 1 then m as int else 0, Q);
    }
  }

  /** t = b Q, without branching on b. */
  method selectPoint(t: PreComputed, row: seq<PreComputed>, b: int32, ghost S: set<object>, ghost g: Group<Point>,
                     ghost Q: Point)
    requires EdwardsGroup(g) && Closed(g) && Q in g.carrier
    requires -8 <= b <= 8 && |row| == 8 && Row(row, S, g, Q)
    requires t.Valid() && t.Repr() !! S
    modifies t.yPlusX, t.yMinusX, t.xy2d
    ensures b >= 0 ==> IsPreComputed(t, Times(g, b as int, Q))
    ensures b < 0 ==> IsPreComputed(t, Mirror(Times(g, -(b as int), Q)))
  {
    hide EdwardsGroup, Closed, IsPreComputed, Row, Times;
    var bNegative := Negative(b);
    var bAbs := Absolute(b);
    SelectMultiple(t, row, bAbs, S, g, Q);
    ghost var p := Times(g, bAbs as int, Q);
    var minusT := MirrorOf(t, p);
    Choose(t, minusT, bNegative, p, Mirror(p));
  }

  lemma NothingSelected(g: Group<Point>, Q: Point)
    requires EdwardsGroup(g) && Closed(g) && Q in g.carrier
    ensures Times(g, 0, Q) == Point(0, 1)
  {
  }

  // ---------- the two passes ----------

  /** The digits of one parity from pair k up, in units of 256^k. */
  ghost function Strand(e: seq<int8>, parity: nat, k: nat): int
    requires |e| == 64 && parity < 2 && k <= 32
    decreases 32 - k
  {
    if k == 32 then 0 else e[2 * k + parity] as int + 0x100 * Strand(e, parity, k + 1)
  }

  lemma {:induction false} Braid(e: seq<int8>, k: nat)
    requires |e| == 64 && k <= 32
    ensures Hex(e, 2 * k) == Strand(e, 0, k) + 16 * Strand(e, 1, k)
    decreases 32 - k
  {
    if k < 32 {
      Braid(e, k + 1);
      assert Hex(e, 2 * k) == e[2 * k] as int + 16 * (e[2 * k + 1] as int + 16 * Hex(e, 2 * k + 2));
    }
  }

  /** The package table: row pos holds the first eight multiples of 256^pos B. */
  ghost predicate BaseTable(base: seq<seq<PreComputed>>, S: set<object>, g: Group<Point>, B: Point)
    requires Closed(g) && B in g.carrier
    reads S
  {
    |base| == 32 && forall k :: 0 <= k < 32 ==> Row(base[k], S, g, Times(g, Pow256(k), B))
  }

  lemma BaseRow(base: seq<seq<PreComputed>>, S: set<object>, g: Group<Point>, B: Point, k: nat)
    requires Closed(g) && B in g.carrier && BaseTable(base, S, g, B) && k < 32
    ensures |base[k]| == 8 && Row(base[k], S, g, Times(g, Pow256(k), B))
  {
  }

  /** d (m B) = (d m) B, for a digit of either sign. */
  lemma DigitTimes(g: Group<Point>, d: int, m: nat, B: Point)
    requires Abelian(g) && B in g.carrier
    ensures d >= 0 ==> Times(g, d * m, B) == Times(g, d, Times(g, m, B))
    ensures d < 0 ==> Times(g, d * m, B) == g.neg(Times(g, -d, Times(g, m, B)))
  {
    hide Commutes, Associates, HasInverses, Times;
    if d >= 0 {
      TimesTimes(g, d, m, B);
    } else {
      TimesTimes(g, -d, m, B);
      TimesNegates(g, -d * m, B);
      assert -(-d * m) == d * m;
    }
  }

  /** h += d Q, where Q = m B. */
  method AddSelected(h: Extended, t: PreComputed, r: Completed, row: seq<PreComputed>, d: int8, ghost S: set<object>,
                     ghost g: Group<Point>, ghost B: Point, ghost c: int, ghost m: nat)
    requires EdwardsGroup(g) && Closed(g) && B in g.carrier
    requires -8 <= d <= 8 && |row| == 8 && Row(row, S, g, Times(g, m, B))
    requires h.Valid() && t.Valid() && r.Valid() && t.Repr() !! S && h.Repr() !! S && r.Repr() !! S
    requires h.Repr() !! t.Repr() && h.Repr() !! r.Repr() && r.Repr() !! t.Repr()
    requires Is(h, Times(g, c, B))
    modifies t.yPlusX, t.yMinusX, t.xy2d, r.X, r.Y, r.Z, r.T, h.X, h.Y, h.Z, h.T
    ensures Is(h, Times(g, c + d as int * m, B))
  {
    hide EdwardsGroup, Abelian, Closed, Is, IsPreComputed, IsCompleted, Row, Times;
    GroupOf(g);
    ghost var Q := Times(g, m, B);
    selectPoint(t, row, d as int32, S, g, Q);
    DigitTimes(g, d as int, m, B);
    TimesSum(g, c, d as int * m, B);
    if d >= 0 {
      AddMixed(r, h, t, g, Times(g, c, B), Times(g, d as int, Q));
    } else {
      AddMixedNegated(r, h, t, g, Times(g, c, B), Times(g, -(d as int), Q));
    }
    Extend(r, h, Times(g, c + d as int * m, B));
  }

  /** h += sum of the digits of one parity, digit 2k+parity taking row k. */
  method Pass(h: Extended, e: array<int8>, parity: nat, base: seq<seq<PreComputed>>, ghost S: set<object>,
              ghost g: Group<Point>, ghost B: Point, ghost c: int)
    requires EdwardsGroup(g) && Closed(g) && B in g.carrier
    requires e.Length == 64 && parity < 2 && forall i :: 0 <= i < 64 ==> -8 <= e[i] <= 8
    requires |base| == 32 && BaseTable(base, S, g, B)
    requires h.Valid() && h.Repr() !! S && Is(h, Times(g, c, B))
    modifies h.X, h.Y, h.Z, h.T
    ensures Is(h, Times(g, c + Strand(e[..], parity, 0), B))
  {
    hide EdwardsGroup, Abelian, Closed, Is, Row, BaseTable, Times, Strand, Pow256;
    var t := new PreComputed();
    var r := new Completed();
    ghost var w, sum, total := e[..], 0, Strand(e[..], parity, 0);
    PassStart(w, parity);
    for k := 0 to 32
      invariant e[..] == w
      invariant sum + Pow256(k) * Strand(w, parity, k) == total
      invariant Is(h, Times(g, c + sum, B))
    {
      BaseRow(base, S, g, B, k);
      AddSelected(h, t, r, base[k], e[2 * k + parity], S, g, B, c + sum, Pow256(k));
      PassStep(w, parity, k);
      sum := sum + w[2 * k + parity] as int * Pow256(k);
    }
    PassEnd(w, parity);
  }

  lemma PassStart(e: seq<int8>, parity: nat)
    requires |e| == 64 && parity < 2
    ensures Pow256(0) * Strand(e, parity, 0) == Strand(e, parity, 0)
  {
  }

  lemma PassStep(e: seq<int8>, parity: nat, k: nat)
    requires |e| == 64 && parity < 2 && k < 32
    ensures Pow256(k) * Strand(e, parity, k) == e[2 * k + parity] as int * Pow256(k) + Pow256(k + 1) * Strand(e,
            parity, k + 1)
  {
    var m, d, x := Pow256(k), e[2 * k + parity] as int, Strand(e, parity, k + 1);
    assert Strand(e, parity, k) == d + 0x100 * x && Pow256(k + 1) == 0x100 * m;
    hide Strand, Pow256;
    PositionalStep(m, d, 0x100, x);
  }

  lemma PassEnd(e: seq<int8>, parity: nat)
    requires |e| == 64 && parity < 2
    ensures Pow256(32) * Strand(e, parity, 32) == 0
  {
    hide Pow256;
  }

  /** Four doublings of h: one from extended, two through projective and the last back to extended. */
  method SixteenTimes(h: Extended, ghost g: Group<Point>, ghost B: Point, ghost c: int)
    requires EdwardsGroup(g) && Closed(g) && B in g.carrier
    requires h.Valid() && Is(h, Times(g, c, B))
    modifies h.X, h.Y, h.Z, h.T
    ensures Is(h, Times(g, 16 * c, B))
  {
    hide EdwardsGroup, Abelian, Closed, Is, IsProjective, IsCompleted, Times;
    GroupOf(g);
    var r := new Completed();
    var s := new Projective();
    CopyToProjective(h, s, Times(g, c, B));
    TwiceInPlace(s, r, g, B, c);
    TwiceInPlace(s, r, g, B, 2 * c);
    TwiceInPlace(s, r, g, B, 4 * c);
    Twice(s, r, g, B, 8 * c);
    Extend(r, h, Times(g, 16 * c, B));
  }

  /** A doubling, brought back to projective. */
  method TwiceInPlace(s: Projective, r: Completed, ghost g: Group<Point>, ghost B: Point, ghost c: int)
    requires EdwardsGroup(g) && Closed(g) && B in g.carrier
    requires s.Valid() && r.Valid() && {s.X, s.Y, s.Z} !! r.Repr() && IsProjective(s, Times(g, c, B))
    modifies r.X, r.Y, r.Z, r.T, s.X, s.Y, s.Z
    ensures IsProjective(s, Times(g, 2 * c, B))
  {
    hide EdwardsGroup, Abelian, Closed, IsProjective, IsCompleted, Times;
    Twice(s, r, g, B, c);
    Project(r, s, Times(g, 2 * c, B));
  }

  method Twice(s: Projective, r: Completed, ghost g: Group<Point>, ghost B: Point, ghost c: int)
    requires EdwardsGroup(g) && Closed(g) && B in g.carrier
    requires s.Valid() && r.Valid() && {s.X, s.Y, s.Z} !! r.Repr() && IsProjective(s, Times(g, c, B))
    modifies r.X, r.Y, r.Z, r.T
    ensures IsCompleted(r, Times(g, 2 * c, B))
  {
    hide EdwardsGroup, Abelian, Closed, IsProjective, IsCompleted, Times;
    GroupOf(g);
    DoublePoint(s, r, g, Times(g, c, B));
    TimesSum(g, c, c, B);
    assert c + c == 2 * c;
  }

  /** h = a B, for every a below 2^255. */
  method GeScalarMultBase(h: Extended, a: array<byte>, base: seq<seq<PreComputed>>, ghost S: set<object>,
                          ghost g: Group<Point>, ghost B: Point)
    requires EdwardsGroup(g) && Closed(g) && B in g.carrier
    requires a.Length == 32 && a[31] <= 127
    requires |base| == 32 && BaseTable(base, S, g, B)
    requires h.Valid() && h.Repr() !! S
    modifies h.X, h.Y, h.Z, h.T
    ensures Is(h, Times(g, LeAt(a[..], 0, 32), B))
  {
    hide EdwardsGroup, Abelian, Closed, Is, BaseTable, Times, Strand, Hex, LeAt;
    var e := Radix16(a);
    ZeroExtended(h);
    NothingSelected(g, B);
    ghost var odd, even := Strand(e[..], 1, 0), Strand(e[..], 0, 0);
    Pass(h, e, 1, base, S, g, B, 0);
    SixteenTimes(h, g, B, odd);
    Pass(h, e, 0, base, S, g, B, 16 * odd);
    Braid(e[..], 0);
  }
}
