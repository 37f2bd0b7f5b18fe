/**
 When decompression succeeds and what it returns, given that p is prime: FromBytes finds a point
 exactly when the curve has one with that y, and it undoes ToBytes.
 */
module PointDecoding {
  import opened Congruence
  import opened FieldBytes
  import opened FieldChains
  import opened CurvePoints
  import opened PointEncoding

  /** Fermat's little theorem for every residue but zero: what is taken for granted of p. */
  ghost predicate PrimeField() {
    forall z {:trigger Fermat(z)} :: !Cong(z, 0) ==> Fermat(z)
  }

  // ---------- the field has no zero divisors ----------

  lemma ZeroProduct(a: int, b: int)
    requires PrimeField() && Cong(a * b, 0)
    ensures Cong(a, 0) || Cong(b, 0)
  {
    hide Cong, Pow;
    if !Cong(a, 0) {
      assert Fermat(a);
      var w := Pow(a, INVERT);
      CongScale(w, a * b, 0);
      assert w * (a * b) == (a * w) * b;
      CongRefl(b);
      CongMul(a * w, 1, b, b);
      CongSym((a * w) * b, 1 * b);
      CongTrans(1 * b, (a * w) * b, w * 0);
    }
  }

  lemma ZeroFactor(a: int, b: int)
    requires Cong(a, 0) || Cong(b, 0)
    ensures Cong(a * b, 0)
  {
    hide Cong;
    if Cong(a, 0) {
      CongScale(b, a, 0);
      assert b * a == a * b;
    } else {
      CongScale(a, b, 0);
    }
  }

  lemma Difference(a: int, b: int)
    ensures Cong(a, b) <==> Cong(a - b, 0)
  {
    hide Cong;
    CongDivides(a, b);
    CongDivides(a - b, 0);
  }

  /** Equal squares have equal or opposite roots. */
  lemma EqualSquares(a: int, b: int)
    requires PrimeField() && Cong(a * a, b * b)
    ensures Cong(a, b) || Cong(a, -b)
  {
    hide Cong, PrimeField;
    Difference(a * a, b * b);
    assert a * a - b * b == (a - b) * (a + b);
    ZeroProduct(a - b, a + b);
    Difference(a, b);
    Difference(a, -b);
    assert a - -b == a + b;
  }

  // ---------- decompression finds every root ----------

  lemma {:induction false} PowOfSquare(z: int, e: nat)
    ensures Pow(z * z, e) == Pow(z, 2 * e)
    decreases e
  {
    if e > 0 {
      PowOfSquare(z, e - 1);
      assert Pow(z, 2 * e) == z * (z * Pow(z, 2 * (e - 1)));
      var w := Pow(z, 2 * (e - 1));
      assert z * (z * w) == (z * z) * w;
    }
  }

  lemma PowStep(z: int, e: nat)
    ensures Pow(z, e + 1) == z * Pow(z, e)
  {
  }

  const QUARTER: nat := (P - 1) / 4

  lemma Exponents()
    ensures POW22523 + POW22523 + 1 == QUARTER
    ensures 2 * QUARTER + 2 * QUARTER == INVERT + 1
  {
  }

  /** A square to the power (p-1)/4 is 1 or -1. */
  lemma QuarterPower(t: int)
    requires PrimeField() && !Cong(t, 0)
    ensures Cong(Pow(t * t, QUARTER), 1) || Cong(Pow(t * t, QUARTER), -1)
  {
    hide Cong, Pow;
    var s := Pow(t, 2 * QUARTER);
    PowOfSquare(t, QUARTER);
    Exponents();
    PowAdds(t, 2 * QUARTER, 2 * QUARTER);
    PowStep(t, INVERT);
    assert Fermat(t);
    assert Cong(s * s, 1 * 1);
    EqualSquares(s, 1);
  }

  /** v c^2 = (u v^7)^((p-1)/4) u for the candidate c. */
  lemma CandidateSquare(u: int, v: int)
    ensures var c, b := Candidate(u, v), (v * v * v) * (v * v * v) * v * u;
            v * (c * c) == Pow(b, QUARTER) * u
  {
    hide Pow;
    var w := v * v * v;
    var b := w * w * v * u;
    var x := Pow(b, POW22523);
    var c := Candidate(u, v);
    assert c == x * w * u;
    Exponents();
    PowAdds(b, POW22523, POW22523);
    PowStep(b, POW22523 + POW22523);
    CandidateIdentity(v, w, u, x);
  }

  lemma CandidateIdentity(v: int, w: int, u: int, x: int)
    ensures v * ((x * w * u) * (x * w * u)) == ((w * w * v * u) * (x * x)) * u
  {
    var p, q := x * x, w * w;
    var m := x * w;
    assert m * m == p * q;
    assert (m * u) * (m * u) == (m * m) * (u * u);
    var r := u * u;
    assert v * ((p * q) * r) == ((q * v) * p) * r;
    var k := q * v;
    assert ((k * u) * p) * u == (k * p) * r;
  }

  /** If y has an x on the curve, then the candidate, or its twist, is a root. */
  lemma RootIsFound(x: int, y: int)
    requires PrimeField() && OnCurve(x, y)
    ensures HasRoot(y)
  {
    hide Cong, PrimeField, Num, Den, Candidate, OnCurve, Pow;
    RootIsOnCurve(x, y);
    var u, v := Num(y), Den(y);
    var c := Candidate(u, v);
    var w := v * v * v;
    var b := w * w * v * u;
    var s := Pow(b, QUARTER);
    CandidateSquare(u, v);
    if Cong(u, 0) {
      ZeroFactor(s, u);
      CongSym(u, 0);
      CongTrans(s * u, 0, u);
    } else {
      var t := (v * v) * (v * v) * x;
      Swapped(u, v, x);
      if Cong(t, 0) {
        ZeroProduct((v * v) * (v * v), x);
        if Cong(x, 0) {
          ZeroFactor(x, x);
        } else {
          ZeroFourth(v);
        }
        ZeroFactor(v, x * x);
        CongTrans(u, v * (x * x), 0);
      }
      BaseIsSquare(u, v, x);
      QuarterPower(t);
      PowCong(b, t * t, QUARTER);
      var z := Pow(t * t, QUARTER);
      CongRefl(u);
      if Cong(z, 1) {
        CongTrans(s, z, 1);
        CongMul(s, 1, u, u);
      } else {
        CongTrans(s, z, -1);
        CongMul(s, -1, u, u);
      }
    }
  }

  lemma Swapped(u: int, v: int, x: int)
    requires Cong(v * (x * x), u)
    ensures Cong(u, v * (x * x))
  {
    hide Cong;
    CongSym(v * (x * x), u);
  }

  lemma ZeroFourth(v: int)
    requires PrimeField() && Cong((v * v) * (v * v), 0)
    ensures Cong(v, 0)
  {
    hide Cong, PrimeField;
    ZeroProduct(v * v, v * v);
    ZeroProduct(v, v);
  }

  lemma BaseIsSquare(u: int, v: int, x: int)
    requires Cong(u, v * (x * x))
    ensures var w, t := v * v * v, (v * v) * (v * v) * x;
            Cong(w * w * v * u, t * t)
  {
    hide Cong;
    var w, q := v * v * v, v * v;
    CongScale(w * w * v, u, v * (x * x));
    var t := q * q * x;
    assert w == q * v && w * w == q * (q * q) by {
      assert (q * v) * (q * v) == q * (q * (v * v));
    }
    var a, m := q * q, x * x;
    assert t * t == (a * a) * m by {
      assert (a * x) * (a * x) == (a * a) * (x * x);
    }
    assert ((q * a) * v) * (v * m) == (a * a) * m by {
      assert ((q * a) * v) * (v * m) == (q * a) * ((v * v) * m);
      assert (q * a) * (q * m) == (a * (q * q)) * m;
    }
  }

  /** Decompression succeeds exactly for the y coordinates of the curve. */
  lemma RootIffOnCurve(y: int)
    requires PrimeField()
    ensures HasRoot(y) <==> exists x :: OnCurve(x, y)
  {
    hide Cong, PrimeField, Num, Den, Candidate, OnCurve;
    if HasRoot(y) {
      var c := Candidate(Num(y), Den(y));
      if Cong(Den(y) * (c * c), Num(y)) {
        RootIsOnCurve(c, y);
      } else {
        var c' := c * SQRTM1;
        CongRefl(c');
        TwistedRoot(Den(y), c, c', Num(y));
        RootIsOnCurve(c', y);
      }
    }
    if x :| OnCurve(x, y) {
      RootIsFound(x, y);
    }
  }

  // ---------- the point is determined by y and the parity of x ----------

  lemma DenominatorNonZero(x: int, y: int)
    requires OnCurve(x, y)
    ensures !Cong(Den(y), 0)
  {
    hide Cong, OnCurve;
    var n, d := Num(y), Den(y);
    assert d - D * n == D + 1;
    hide Num, Den;
    DPlusOne();
    if Cong(d, 0) {
      RootIsOnCurve(x, y);
      ZeroFactor(d, x * x);
      CongSym(d * (x * x), n);
      CongTrans(n, d * (x * x), 0);
      BothZero(n, d);
    }
  }

  lemma BothZero(n: int, d: int)
    requires Cong(n, 0) && Cong(d, 0)
    ensures Cong(d - D * n, 0)
  {
    hide Cong;
    CongScale(D, n, 0);
    CongAdd(d, 0, D * n, D * 0);
  }

  lemma DPlusOne()
    ensures !Cong(D + 1, 0)
  {
    hide Cong, CurveD;
    if Cong(D + 1, 0) {
      CongScale(121666, D + 1, 0);
      CongRefl(121666);
      CongAdd(121666 * (D + 1), 0, 121666, 121666);
      CongSym(121666 * D, -121665);
      CongTrans(-121665, 121666 * D, -121666);
      CongDivides(-121665, -121666);
    }
  }

  lemma CancelFactor(v: int, s: int, t: int)
    requires PrimeField() && Cong(v * s, v * t) && !Cong(v, 0)
    ensures Cong(s, t)
  {
    hide Cong, PrimeField;
    Difference(v * s, v * t);
    assert v * s - v * t == v * (s - t);
    ZeroProduct(v, s - t);
    Difference(s, t);
  }

  lemma SameFromResidue(x: int, x': int)
    ensures x % P == x' % P <==> Cong(x, x')
  {
    hide Cong;
    ResidueCong(x);
    ResidueCong(x');
    if x % P == x' % P {
      CongSym(x % P, x);
      CongTrans(x, x % P, x');
    }
    if Cong(x, x') {
      SameResidue(x, x');
    }
  }

  /** Of two opposite residues of one parity, both are zero. */
  lemma Opposites(x: int, x': int, b: int)
    requires 0 <= x < P && 0 <= x' < P && Cong(x, -x')
    requires (x != 0 ==> x % 2 == b) && (x' != 0 ==> x' % 2 == b)
    ensures x == x'
  {
    hide Cong;
    SameFromResidue(x, -x');
    NegationFlips(x');
  }
}
