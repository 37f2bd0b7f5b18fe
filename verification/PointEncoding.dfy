/** Compressed points: FromBytes and ToBytes of vrf/edwards25519/edwards25519.go. */
module PointEncoding {
  import opened Words
  import opened BitOps
  import opened ByteStrings
  import opened Congruence
  import opened Division
  import opened FieldElement
  import opened FieldMultiply
  import opened FieldBytes
  import opened FieldChains
  import opened CurvePoints
  import opened CurveOps
  import opened PointArithmetic

  const SQRTM1_LIMBS: Ten :=
    Ten(-32595792, -7943725, 9377950, 3500415, 12389472, -272473, -25146209, -2005654, 326686, 11406482)

  const SQRTM1: int := Eval(SQRTM1_LIMBS)

  lemma SqrtM1Squares()
    ensures Cong(SQRTM1 * SQRTM1, -1) && Within(SQRTM1_LIMBS, 1)
  {
    hide Cong;
    CongDivides(SQRTM1 * SQRTM1, -1);
  }

  // ---------- the equation of decompression ----------

  /** y^2 - 1 and d y^2 + 1: x is a coordinate for y exactly when v x^2 = u. */
  ghost function Num(y: int): int {
    y * y - 1
  }

  ghost function Den(y: int): int {
    D * (y * y) + 1
  }

  lemma RootIsOnCurve(x: int, y: int)
    ensures Cong(Den(y) * (x * x), Num(y)) <==> OnCurve(x, y)
  {
    hide Cong;
    var s, t := x * x, y * y;
    CurveIdentity(D, s, t);
    NegatedDifference(Den(y) * s, Num(y), t - s, 1 + D * (s * t));
  }

  lemma NegatedDifference(a: int, b: int, c: int, e: int)
    requires a - b == -(c - e)
    ensures Cong(a, b) <==> Cong(c, e)
  {
    hide Cong;
    CongDivides(a, b);
    CongDivides(c, e);
    Opposite(c - e);
  }

  lemma CurveIdentity(d: int, s: int, t: int)
    ensures (d * t + 1) * s - (t - 1) == -((t - s) - (1 + d * (s * t)))
  {
    var u := d * t;
    assert (u + 1) * s == u * s + s;
    assert (d * t) * s == d * (s * t);
  }

  lemma Opposite(a: int)
    ensures a % P == 0 <==> -a % P == 0
  {
    var q := a / P;
    if a % P == 0 {
      assert -a == P * -q;
    }
    if -a % P == 0 {
      assert a == P * -(-a / P);
    }
  }

  lemma {:induction false} PowCong(a: int, b: int, e: nat)
    requires Cong(a, b)
    ensures Cong(Pow(a, e), Pow(b, e))
    decreases e
  {
    hide Cong;
    if e == 0 {
      CongRefl(1);
    } else {
      PowCong(a, b, e - 1);
      CongMul(a, b, Pow(a, e - 1), Pow(b, e - 1));
    }
  }

  /** u v^3 (u v^7)^((p-5)/8) */
  ghost function Candidate(u: int, v: int): int {
    var v3 := v * v * v;
    Pow(v3 * v3 * v * u, POW22523) * v3 * u
  }

  /** Replaces both factors of a product. */
  lemma CongProduct(r: int, a: int, b: int, a': int, b': int)
    requires Cong(r, a * b) && Cong(a, a') && Cong(b, b')
    ensures Cong(r, a' * b')
  {
    hide Cong;
    CongMul(a, a', b, b');
    CongTrans(r, a * b, a' * b');
  }

  /** x = u v^3 (u v^7)^((p-5)/8), in place; u and v have at most two units. */
  method RootCandidate(x: array<int32>, u: array<int32>, v: array<int32>, ghost u': int, ghost v': int)
    requires IsElement(x) && IsElement(u) && IsElement(v) && x != u && x != v
    requires Small(u, 2) && Small(v, 2) && Cong(Value(u), u') && Cong(Value(v), v')
    modifies x
    ensures Cong(Value(x), Candidate(u', v')) && Small(x, 1)
  {
    hide Cong, Value, Small, Limbs, Pow, Loose;
    ghost var w := v' * v' * v';
    var v3 := new int32[10];
    Square(v3, v, 2);
    ghost var q := Value(v3);
    Multiply(v3, v3, v, 1, 2);
    CongProduct(q, Value(v), Value(v), v', v');
    CongProduct(Value(v3), q, Value(v), v' * v', v');
    Square(x, v3, 1);
    CongProduct(Value(x), Value(v3), Value(v3), w, w);
    TimesInto(x, v, w * w, v');
    TimesInto(x, u, w * w * v', u');
    SmallIsLoose(x, 1);
    ghost var base := w * w * v' * u';
    PowCong(Value(x), base, POW22523);
    ghost var before := Value(x);
    fePow22523(x, x);
    CongTrans(Value(x), Pow(before, POW22523), Pow(base, POW22523));
    assert Small(v3, 2) by {
      Widen(v3);
    }
    TimesInto(x, v3, Pow(base, POW22523), w);
    TimesInto(x, u, Pow(base, POW22523) * w, u');
  }

  lemma Widen(f: array<int32>)
    requires IsElement(f) && Small(f, 1)
    ensures Small(f, 2)
  {
  }

  /** x *= f */
  method TimesInto(x: array<int32>, f: array<int32>, ghost a: int, ghost b: int)
    requires IsElement(x) && IsElement(f) && x != f && Small(x, 1) && Small(f, 2)
    requires Cong(Value(x), a) && Cong(Value(f), b)
    modifies x
    ensures Cong(Value(x), a * b) && Small(x, 1)
  {
    hide Cong, Value, Small, Limbs;
    ghost var y := Value(x);
    Multiply(x, x, f, 1, 2);
    CongProduct(Value(x), y, Value(f), a, b);
  }

  /** Limbs of a product or square less one. */
  ghost predicate AlmostReduced(f: array<int32>)
    requires IsElement(f)
    reads f
  {
    Bounded(Limbs(f), 33889977, 16944988)
  }

  lemma OffByOne(t: Ten, one: Ten)
    requires Within(t, 1) && Bounded(one, 1, 0)
    ensures Bounded(Plus(t, Minus(one)), 33889977, 16944988)
  {
  }

  lemma CheckIsPrintable(a: Ten, b: Ten)
    requires Within(a, 1) && Bounded(b, 33889977, 16944988)
    ensures Bounded(Plus(a, b), 73819750, 36909875) && Bounded(Plus(a, Minus(b)), 73819750, 36909875)
  {
  }

  /** Y is read from the string, Z = 1, u = y^2 - 1 and v = d y^2 + 1. */
  method Equation(Y: array<int32>, Z: array<int32>, u: array<int32>, v: array<int32>, s: array<byte>, d: array<int32>,
                  ghost y: int)
    requires IsElement(Y) && IsElement(Z) && IsElement(u) && IsElement(v) && s.Length == 32
    requires IsElement(d) && Limbs(d) == D_LIMBS
    requires Y != Z && Y != u && Y != v && Z != u && Z != v && u != v && d != Y && d != Z && d != u && d != v
    requires y == LeAt(s[..], 0, 32) % TWO255
    modifies Y, Z, u, v
    ensures Cong(Value(Y), y) && Small(Y, 1) && Value(Z) == 1 && Small(Z, 1)
    ensures Cong(Value(u), Num(y)) && Small(u, 2) && AlmostReduced(u)
    ensures Cong(Value(v), Den(y)) && Small(v, 2)
  {
    hide Cong, Eval, Within, LeAt, Plus, Minus;
    FeFromBytes(Y, s);
    FeOne(Z);
    Square(u, Y, 1);
    CongProduct(Value(u), Value(Y), Value(Y), y, y);
    ghost var t, yy := Limbs(u), Value(u);
    ConstantD(d);
    Multiply(v, u, d, 1, 1);
    CongProduct(Value(v), yy, Value(d), y * y, D);
    ghost var w := Value(v);
    FeSub(u, u, Z, 1, 1);
    FeAdd(v, v, Z, 1, 1);
    OffByOne(t, Limbs(Z));
    CongRefl(1);
    CongAdd(yy, y * y, 1, 1);
    CongAdd(w, (y * y) * D, 1, 1);
    assert (y * y) * D == D * (y * y);
  }

  lemma ConstantD(d: array<int32>)
    requires IsElement(d) && Limbs(d) == D_LIMBS
    ensures Small(d, 1) && Cong(Value(d), D)
  {
    CurveConstants();
  }

  /** Whether vxx - u, or vxx + u, is zero modulo p. */
  method Differs(vxx: array<int32>, u: array<int32>, minus: bool) returns (r: bool)
    requires IsElement(vxx) && IsElement(u) && Small(vxx, 1) && Small(u, 2) && AlmostReduced(u)
    ensures r <==> !Cong(Value(vxx), if minus then Value(u) else -Value(u))
  {
    hide Eval, Within, Bounded, Plus, Minus, Limbs;
    var check := new int32[10];
    CheckIsPrintable(Limbs(vxx), Limbs(u));
    if minus {
      FeSub(check, vxx, u, 1, 2);
    } else {
      FeAdd(check, vxx, u, 1, 2);
    }
    CongDivides(Value(vxx), if minus then Value(u) else -Value(u));
    var nonZero := FeIsNonZero(check);
    r := nonZero == 1;
  }

  /** v (s x)^2 = -v x^2 for s^2 = -1 */
  lemma TwistedRoot(v: int, x: int, x': int, u: int)
    requires Cong(v * (x * x), -u) && Cong(x', x * SQRTM1)
    ensures Cong(v * (x' * x'), u)
  {
    hide Cong;
    SqrtM1Squares();
    CongMul(x', x * SQRTM1, x', x * SQRTM1);
    var s := SQRTM1 * SQRTM1;
    assert (x * SQRTM1) * (x * SQRTM1) == (x * x) * s;
    CongRefl(x * x);
    CongMul(x * x, x * x, s, -1);
    CongTrans(x' * x', (x * x) * s, (x * x) * -1);
    CongScale(v, x' * x', (x * x) * -1);
    assert v * ((x * x) * -1) == -(v * (x * x));
    CongNeg(v * (x * x), -u);
    CongTrans(v * (x' * x'), -(v * (x * x)), u);
  }

  /** Gives x the requested parity: its negation has the other one, unless x is zero. */
  method FixSign(x: array<int32>, sign: byte)
    requires IsElement(x) && Small(x, 2) && sign <= 1
    modifies x
    ensures Cong(Value(x), old(Value(x))) || Cong(Value(x), -old(Value(x)))
    ensures Small(x, 2)
    ensures Value(x) % P != 0 ==> Value(x) % P % 2 == sign as int
  {
    hide Eval, Within, Limbs;
    ghost var v := Value(x);
    SmallIsPrintable(x, 2);
    var negative := FeIsNegative(x);
    DigitsAreSmall(x);
    ResidueCong(v);
    if negative != sign {
      ghost var w := Value(x);
      FeNeg(x, x, 2);
      CongNeg(w, v);
      NegationFlips(w);
    }
  }

  lemma DigitsAreSmall(f: array<int32>)
    requires IsElement(f) && Digits(Limbs(f))
    ensures Small(f, 2) && Printable(f)
  {
  }

  lemma ResidueCong(v: int)
    ensures Cong(v % P, v) && v % P % P == v % P
  {
    hide Cong;
    CongBy(v % P, v, -(v / P));
  }

  lemma NegationFlips(w: int)
    requires 0 <= w < P
    ensures w != 0 ==> -w % P == P - w && (P - w) % 2 != w % 2
    ensures w == 0 ==> -w % P == 0
  {
    if w != 0 {
      DivUnique(-w, P, -1, P - w);
    }
  }

  lemma SquareOfOpposite(v: int, x: int, x': int, u: int)
    requires Cong(v * (x * x), u) && (Cong(x', x) || Cong(x', -x))
    ensures Cong(v * (x' * x'), u)
  {
    hide Cong;
    if Cong(x', x) {
      CongMul(x', x, x', x);
    } else {
      CongMul(x', -x, x', -x);
      assert -x * -x == x * x;
    }
    CongScale(v, x' * x', x * x);
    CongTrans(v * (x' * x'), v * (x * x), u);
  }

  /** Transfers the tests against u and -u from the computed numbers to the exact ones. */
  lemma ExactTest(vxx: int, e: int, u: int, u': int)
    requires Cong(vxx, e) && Cong(u, u')
    ensures Cong(vxx, u) <==> Cong(e, u')
    ensures Cong(vxx, -u) <==> Cong(e, -u')
  {
    hide Cong;
    CongSwap(vxx, e, u');
    CongSwap(vxx, e, -u');
    CongNeg(u, u');
    BothSides(vxx, u, u');
    BothSides(vxx, -u, -u');
  }

  /** v x^2, from x^2 and v. */
  lemma TestedNumber(vxx: int, q: int, v: int, c: int, v': int)
    requires Cong(q, c) && Cong(vxx, q * v) && Cong(v, v')
    ensures Cong(vxx, v' * c)
  {
    hide Cong;
    CongProduct(vxx, q, v, c, v');
    assert c * v' == v' * c;
  }

  lemma BothSides(a: int, b: int, c: int)
    requires Cong(b, c)
    ensures Cong(a, b) <==> Cong(a, c)
  {
    hide Cong;
    if Cong(a, b) {
      CongTrans(a, b, c);
    }
    if Cong(a, c) {
      CongSym(b, c);
      CongTrans(a, c, b);
    }
  }

  /** Some square root of u/v, or of -u/v times sqrt(-1): whether the candidate leads to one. */
  ghost predicate HasRoot(y: int) {
    var c := Candidate(Num(y), Den(y));
    Cong(Den(y) * (c * c), Num(y)) || Cong(Den(y) * (c * c), -Num(y))
  }

  /** The x coordinate for y: false exactly when the candidate and its twist both fail. */
  method SolveForX(x: array<int32>, u: array<int32>, v: array<int32>, sqrtM1: array<int32>,
                   ghost y: int) returns (ok: bool)
    requires IsElement(x) && IsElement(u) && IsElement(v) && x != u && x != v
    requires IsElement(sqrtM1) && sqrtM1 != x && Limbs(sqrtM1) == SQRTM1_LIMBS
    requires Cong(Value(u), Num(y)) && Small(u, 2) && AlmostReduced(u)
    requires Cong(Value(v), Den(y)) && Small(v, 2)
    modifies x
    ensures ok <==> HasRoot(y)
    ensures ok ==> Cong(Den(y) * (Value(x) * Value(x)), Num(y)) && Small(x, 2)
  {
    hide Cong, Value, Small, Limbs, Candidate, Num, Den, AlmostReduced;
    ghost var c := Candidate(Num(y), Den(y));
    RootCandidate(x, u, v, Num(y), Den(y));
    var vxx := new int32[10];
    Square(vxx, x, 1);
    ghost var q := Value(vxx);
    Multiply(vxx, vxx, v, 1, 2);
    CongProduct(q, Value(x), Value(x), c, c);
    TestedNumber(Value(vxx), q, Value(v), c * c, Den(y));
    TestedNumber(Value(vxx), q, Value(v), Value(x) * Value(x), Den(y));
    ExactTest(Value(vxx), Den(y) * (c * c), Value(u), Num(y));
    CongSwap(Value(vxx), Den(y) * (Value(x) * Value(x)), Value(u));
    BothSides(Den(y) * (Value(x) * Value(x)), Value(u), Num(y));
    var differs := Differs(vxx, u, true);
    if differs {
      var differs' := Differs(vxx, u, false);
      if differs' {
        return false;
      }
      ghost var before := Value(x);
      CongNeg(Value(u), Num(y));
      BothSides(Value(vxx), -Value(u), -Num(y));
      CongSwap(Value(vxx), Den(y) * (before * before), -Num(y));
      ConstantSqrtM1(sqrtM1);
      Multiply(x, x, sqrtM1, 1, 1);
      TwistedRoot(Den(y), before, Value(x), Num(y));
      SmallIsPrintable(x, 1);
      var tmpX := new byte[32];
      ghost var twisted := Value(x);
      FeToBytes(tmpX, x);
      DigitsAreSmall(x);
      ResidueCong(twisted);
      SquareOfOpposite(Den(y), twisted, Value(x), Num(y));
      return true;
    }
    Widen(x);
    return true;
  }

  lemma ConstantSqrtM1(f: array<int32>)
    requires IsElement(f) && Limbs(f) == SQRTM1_LIMBS
    ensures Small(f, 1) && Value(f) == SQRTM1
  {
    SqrtM1Squares();
  }

  /**
   Decompression. A point that is returned is on the curve, has the y of the string (its top bit aside) and
   an x of the requested parity unless x is zero; nothing is returned exactly when y has no root here.
   */
  method FromBytes(p: Extended, s: array<byte>, d: array<int32>, sqrtM1: array<int32>) returns (ok: bool)
    requires p.Valid() && s.Length == 32
    requires IsElement(d) && d !in p.Repr() && Limbs(d) == D_LIMBS
    requires IsElement(sqrtM1) && sqrtM1 !in p.Repr() && Limbs(sqrtM1) == SQRTM1_LIMBS
    modifies p.X, p.Y, p.Z, p.T
    ensures ok <==> HasRoot(LeAt(s[..], 0, 32) % TWO255)
    ensures ok ==> Is(p, Point(Value(p.X), Value(p.Y))) && Value(p.Z) == 1 && OnCurve(Value(p.X), Value(p.Y))
    ensures ok ==> Cong(Value(p.Y), LeAt(s[..], 0, 32) % TWO255)
    ensures ok && Value(p.X) % P != 0 ==> Value(p.X) % P % 2 == s[31] as int / 128
  {
    hide Cong, Value, Small, Limbs, LeAt, Candidate, Num, Den, AlmostReduced, HasRoot, Affine, OnCurve, Unit;
    var u, v := new int32[10], new int32[10];
    ghost var y := LeAt(s[..], 0, 32) % TWO255;
    Equation(p.Y, p.Z, u, v, s, d, y);
    ok := SolveForX(p.X, u, v, sqrtM1, y);
    if !ok {
      return;
    }
    ghost var x := Value(p.X);
    FixSign(p.X, s[31] / 128);
    SquareOfOpposite(Den(y), x, Value(p.X), Num(y));
    RootIsOnCurve(Value(p.X), y);
    CongSym(Value(p.Y), y);
    CurveCong(Value(p.X), y, Value(p.Y));
    Multiply(p.T, p.X, p.Y, 2, 1);
    DecodedPoint(p);
  }

  lemma CurveCong(x: int, y: int, y': int)
    requires OnCurve(x, y) && Cong(y, y')
    ensures OnCurve(x, y')
  {
    hide Cong;
    CongMul(y, y', y, y');
    var s := x * x;
    CongRefl(s);
    CongAdd(y * y, y' * y', s, s);
    CongScale(s, y * y, y' * y');
    CongScale(D, s * (y * y), s * (y' * y'));
    CongRefl(1);
    CongAdd(1, 1, D * (s * (y * y)), D * (s * (y' * y')));
    CongSwap(y * y - s, y' * y' - s, 1 + D * (s * (y * y)));
    CongTrans(y' * y' - s, 1 + D * (s * (y * y)), 1 + D * (s * (y' * y')));
  }

  lemma DecodedPoint(p: Extended)
    requires p.Valid() && Value(p.Z) == 1 && Cong(Value(p.T), Value(p.X) * Value(p.Y))
    requires Small(p.X, 2) && Small(p.Y, 1) && Small(p.Z, 1) && Small(p.T, 1)
    ensures Is(p, Point(Value(p.X), Value(p.Y)))
  {
    hide Value, Small, Cong;
    TwoIsUnit();
    CongRefl(Value(p.X));
    CongRefl(Value(p.Y));
  }

  // ---------- compression ----------

  /** Fermat's little theorem at z, which FeInvert relies on: z^(p-2) inverts z. */
  ghost predicate Fermat(z: int) {
    Cong(z * Pow(z, INVERT), 1)
  }

  /** X/Z, computed as X Z^(p-2), is the affine coordinate. */
  lemma AffineCoordinate(X: int, Z: int, recip: int, r: int, x: int)
    requires Cong(X, x * Z) && Cong(recip, Pow(Z, INVERT)) && Cong(r, X * recip) && Fermat(Z)
    ensures Cong(r, x)
  {
    hide Cong, Pow;
    var w := Pow(Z, INVERT);
    CongProduct(r, X, recip, x * Z, w);
    assert (x * Z) * w == x * (Z * w);
    CongScale(x, Z * w, 1);
    CongTrans(r, x * (Z * w), x * 1);
  }

  /** The body that both ToBytes methods share, on (X : Y : Z) standing for q. */
  method Compress(X: array<int32>, Y: array<int32>, Z: array<int32>, s: array<byte>, ghost q: Point)
    requires IsElement(X) && IsElement(Y) && IsElement(Z) && Small(X, 2) && Small(Y, 1) && Small(Z, 1)
    requires Affine(Value(X), Value(Y), Value(Z), q.x, q.y) && Fermat(Value(Z)) && s.Length == 32
    modifies s
    ensures LeAt(s[..], 0, 32) == q.y % P + TWO255 * (q.x % P % 2)
  {
    hide Cong, Value, Small, Limbs, LeAt, Loose, Fermat, Printable, Pow;
    var recip, x, y := new int32[10], new int32[10], new int32[10];
    SmallIsLoose(Z, 1);
    FeInvert(recip, Z);
    Multiply(x, X, recip, 2, 1);
    Multiply(y, Y, recip, 1, 1);
    AffineCoordinate(Value(X), Value(Z), Value(recip), Value(x), q.x);
    AffineCoordinate(Value(Y), Value(Z), Value(recip), Value(y), q.y);
    SameResidue(Value(x), q.x);
    SameResidue(Value(y), q.y);
    SmallIsPrintable(y, 1);
    SmallIsPrintable(x, 1);
    FeToBytes(s, y);
    var sign := FeIsNegative(x);
    ghost var before := s[..];
    TopByte(before);
    s[31] := FlipTop(s[31], sign);
    assert s[..] == before[31 := s[31]];
    TopByteChanges(before, s[..]);
  }

  /** The bytes of y modulo p, with the parity of x modulo p in the top bit. */
  method ToBytes(p: Extended, s: array<byte>, ghost q: Point)
    requires Is(p, q) && Fermat(Value(p.Z)) && s.Length == 32
    modifies s
    ensures LeAt(s[..], 0, 32) == q.y % P + TWO255 * (q.x % P % 2)
  {
    hide Cong, Value, Small, LeAt, Fermat, Unit;
    Compress(p.X, p.Y, p.Z, s, q);
  }

  method ProjectiveToBytes(p: Projective, s: array<byte>, ghost q: Point)
    requires IsProjective(p, q) && Fermat(Value(p.Z)) && s.Length == 32
    modifies s
    ensures LeAt(s[..], 0, 32) == q.y % P + TWO255 * (q.x % P % 2)
  {
    hide Cong, Value, Small, LeAt, Fermat, Unit;
    Compress(p.X, p.Y, p.Z, s, q);
  }

  /** b ^ (sign << 7), for b without its top bit. */
  function FlipTop(b: byte, sign: byte): (r: byte)
    requires b < 128 && sign <= 1
    ensures r == b + 128 * sign
  {
    SmallPowers();
    XorDisjoint(8, 7, b as int, sign as int);
    Xor(8, b as int, sign as int * Pow2(7)) as byte
  }

  lemma TopByte(s: seq<byte>)
    requires |s| == 32 && LeAt(s, 0, 32) < TWO255
    ensures s[31] < 128
  {
    hide LeAt, Pow256;
    LastByte(s);
    LeAtRange(s, 0, 31);
  }

  lemma LastByte(s: seq<byte>)
    requires |s| == 32
    ensures LeAt(s, 0, 32) == LeAt(s, 0, 31) + (TWO255 / 128) * s[31] as int
  {
    hide LeAt, Pow256;
    LeAtSplit(s, 0, 31, 1);
    LeAtSplit(s, 31, 1, 0);
    LeAtNone(s, 32);
    OneByte(s, 31);
    Pow256Of31();
  }

  lemma Pow256Of31()
    ensures Pow256(31) == TWO255 / 128
  {
    assert Pow256(8) == 0x1_0000_0000_0000_0000;
    assert Pow256(16) == 0x1_0000_0000_0000_0000_0000_0000_0000_0000;
    assert Pow256(24) == 0x1_0000_0000_0000_0000_0000_0000_0000_0000_0000_0000_0000_0000;
  }

  lemma TopByteChanges(s: seq<byte>, t: seq<byte>)
    requires |s| == 32 && |t| == 32 && t == s[31 := t[31]]
    ensures LeAt(t, 0, 32) == LeAt(s, 0, 32) + (TWO255 / 128) * (t[31] as int - s[31] as int)
  {
    hide LeAt;
    LastByte(s);
    LastByte(t);
    assert s[0..31] == t[0..31];
    LeAtPrefix(s, t, 0, 0, 31);
  }
}
