/** The Ed25519 group as the VRF uses it: points as 32-byte strings, and the package's constants and tables. */
module VrfGroup {
  import opened Options
  import opened Words
  import opened ByteStrings
  import opened Congruence
  import opened Division
  import opened FieldElement
  import opened FieldBytes
  import opened CurvePoints
  import opened CurveOps
  import opened Groups
  import opened PointArithmetic
  import opened PointEncoding
  import opened PointDecoding
  import opened DoubleScalar
  import opened BaseMultiple
  import opened ScalarField
  import opened Octets

  ghost predicate Canonical(p: Point) {
    0 <= p.x < P && 0 <= p.y < P && OnCurve(p.x, p.y)
  }

  /**
   What is taken for granted of the curve: p is prime, the curve's points form a group under the Edwards law,
   its exponent divides 8 l, and l B = 0 for the generator B.
   */
  ghost predicate Ed25519(g: Group<Point>, B: Point) {
    && EdwardsGroup(g) && Closed(g) && PrimeField()
    && (forall p {:trigger Canonical(p)} :: p in g.carrier <==> Canonical(p))
    && (forall p {:trigger Annihilated(g, p)} :: p in g.carrier ==> Annihilated(g, p))
    && B in g.carrier && Times(g, L, B) == g.zero
  }

  ghost predicate Annihilated(g: Group<Point>, p: Point)
    requires Closed(g) && p in g.carrier
  {
    Times(g, 8 * L, p) == g.zero
  }

  // ---------- points as strings ----------

  /** y, with the parity of x in the top bit. */
  function Encode(p: Point): (s: seq<byte>)
    ensures |s| == 32
  {
    LeBytes(p.y % P + TWO255 * (p.x % P % 2), 32)
  }

  ghost predicate Decodes(s: seq<byte>, p: Point) {
    && |s| == 32 && Canonical(p)
    && p.y == LeAt(s, 0, 32) % TWO255 % P
    && (p.x != 0 ==> p.x % 2 == s[31] as int / 128)
  }

  ghost function Decode(s: seq<byte>): Option<Point> {
    if exists p :: Decodes(s, p) then
      var p :| Decodes(s, p);
      Some(p)
    else None
  }

  lemma SmallResidue(x: int)
    requires 0 <= x < P
    ensures x % P == x
  {
  }

  /** The string determines the point: y, and of the two opposite x the one with the parity, or zero. */
  lemma SamePoint(s: seq<byte>, p: Point, q: Point)
    requires PrimeField() && Decodes(s, p) && Decodes(s, q)
    ensures p == q
  {
    var y, b := LeAt(s, 0, 32) % TWO255 % P, s[31] as int / 128;
    assert p.y == y && q.y == y;
    var x, x' := p.x, q.x;
    assert OnCurve(x, y) && OnCurve(x', y) && 0 <= x < P && 0 <= x' < P;
    assert (x != 0 ==> x % 2 == b) && (x' != 0 ==> x' % 2 == b);
    hide PrimeField, OnCurve, LeAt, Cong, Num, Den, Decodes;
    DenominatorNonZero(x, y);
    RootIsOnCurve(x, y);
    RootIsOnCurve(x', y);
    CongSym(Den(y) * (x' * x'), Num(y));
    CongTrans(Den(y) * (x * x), Num(y), Den(y) * (x' * x'));
    CancelFactor(Den(y), x * x, x' * x');
    EqualSquares(x, x');
    SmallResidue(x);
    SmallResidue(x');
    SameFromResidue(x, x');
    if Cong(x, -x') {
      Opposites(x, x', b);
    }
  }

  lemma DecodeIs(s: seq<byte>, p: Point)
    requires PrimeField() && Decodes(s, p)
    ensures Decode(s) == Some(p)
  {
    hide PrimeField, Decodes;
    var q := Decode(s).value;
    SamePoint(s, p, q);
  }

  lemma SplitTop(a: int, b: int, m: int)
    requires 0 <= a < m && 0 <= b
    ensures (a + m * b) / (128 * m) == b / 128
  {
    var h, r := b / 128, b % 128;
    assert b == 128 * h + r;
    assert m * b == (128 * m) * h + m * r;
    MulMono(m, r, 127);
    DivUnique(a + m * b, 128 * m, h, a + m * r);
  }

  lemma TopBit(s: seq<byte>)
    requires |s| == 32
    ensures s[31] as int / 128 == LeAt(s, 0, 32) / TWO255
  {
    hide LeAt, Pow256;
    LastByte(s);
    LeAtRange(s, 0, 31);
    Pow256Of31();
    SplitTop(LeAt(s, 0, 31), s[31] as int, TWO255 / 128);
  }

  lemma EncodeValue(p: Point)
    requires Canonical(p)
    ensures LeAt(Encode(p), 0, 32) == p.y + TWO255 * (p.x % 2)
    ensures Encode(p)[31] as int / 128 == p.x % 2
    ensures LeAt(Encode(p), 0, 32) % TWO255 == p.y
  {
    hide LeAt, Pow256, OnCurve, LeBytes;
    var b := p.x % 2;
    assert p.y % P == p.y && p.x % P % 2 == b;
    Pow256Of32();
    LeBytesValue(p.y + TWO255 * b, 32);
    TopBit(Encode(p));
    DivUnique(p.y + TWO255 * b, TWO255, b, p.y);
  }

  lemma Pow256Of32()
    ensures Pow256(32) == 2 * TWO255
  {
    hide Pow256;
    Pow256Of31();
    Pow256Up(31);
  }

  lemma Pow256Up(n: nat)
    ensures Pow256(n + 1) == 0x100 * Pow256(n)
  {
  }

  /** Decompression undoes compression. */
  lemma DecodeEncode(p: Point)
    requires PrimeField() && Canonical(p)
    ensures Decode(Encode(p)) == Some(p)
  {
    hide PrimeField, LeAt, OnCurve, Encode;
    EncodeValue(p);
    assert Decodes(Encode(p), p);
    hide Decodes;
    DecodeIs(Encode(p), p);
  }

  lemma EncodeIs(s: seq<byte>, p: Point)
    requires |s| == 32 && LeAt(s, 0, 32) == p.y % P + TWO255 * (p.x % P % 2)
    ensures s == Encode(p)
  {
    hide LeAt;
    LeBytesUnique(LeAt(s, 0, 32), s);
  }

  // ---------- representations ----------

  lemma UnitIsFermat(z: int)
    requires PrimeField() && Unit(z)
    ensures Fermat(z)
  {
    hide Cong;
    if Cong(z, 0) {
      var w :| IsInverse(z, w);
      ZeroFactor(z, w);
      CongSym(z * w, 1);
      CongTrans(1, z * w, 0);
      OneIsNotZero();
    }
  }

  lemma OneIsNotZero()
    ensures !Cong(1, 0)
  {
    hide Cong;
    CongDivides(1, 0);
  }

  /** Coordinates stand for every point congruent to one they stand for. */
  lemma StandsCong(X: int, Y: int, Z: int, T: int, x: int, y: int, x': int, y': int)
    requires Affine(X, Y, Z, x, y) && Cong(T, (x * y) * Z) && Cong(x, x') && Cong(y, y')
    ensures Affine(X, Y, Z, x', y') && Cong(T, (x' * y') * Z)
  {
    hide Cong;
    CongRefl(Z);
    CongMul(x, x', Z, Z);
    CongMul(y, y', Z, Z);
    CongTrans(X, x * Z, x' * Z);
    CongTrans(Y, y * Z, y' * Z);
    CongMul(x, x', y, y');
    CongMul(x * y, x' * y', Z, Z);
    CongTrans(T, (x * y) * Z, (x' * y') * Z);
  }

  // ---------- the package's constants and tables ----------

  class Package {
    const d: array<int32>
    const d2: array<int32>
    const sqrtM1: array<int32>
    const bi: seq<PreComputed>
    const base: seq<seq<PreComputed>>
    ghost const oddMultiples: set<array<int32>>
    ghost const multiples: set<array<int32>>

    ghost predicate Ready(g: Group<Point>, B: Point)
      requires Closed(g) && B in g.carrier
      reads d, d2, sqrtM1, oddMultiples, multiples
    {
      && IsElement(d) && Limbs(d) == D_LIMBS
      && IsElement(d2) && Limbs(d2) == D2_LIMBS
      && IsElement(sqrtM1) && Limbs(sqrtM1) == SQRTM1_LIMBS
      && |bi| == 8 && PreComputedTable(bi, oddMultiples, g, B)
      && |base| == 32 && BaseTable(base, multiples, g, B)
    }

    constructor (d: array<int32>, d2: array<int32>, sqrtM1: array<int32>, bi: seq<PreComputed>,
                 base: seq<seq<PreComputed>>, ghost oddMultiples: set<array<int32>>, ghost multiples: set<array<int32>>)
      ensures this.d == d && this.d2 == d2 && this.sqrtM1 == sqrtM1 && this.bi == bi && this.base == base
      ensures this.oddMultiples == oddMultiples && this.multiples == multiples
    {
      this.d, this.d2, this.sqrtM1, this.bi, this.base := d, d2, sqrtM1, bi, base;
      this.oddMultiples, this.multiples := oddMultiples, multiples;
    }
  }
}
