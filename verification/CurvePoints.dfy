/**
 Points of the curve -x^2 + y^2 = 1 + d x^2 y^2 in the representations of
 vrf/edwards25519/edwards25519.go, and the formulas that add, subtract and double them
 (section 5.1.4 of RFC 8032).
 */
module CurvePoints {
  import opened Congruence
  import opened FieldElement

  // ---------- constants ----------

  const D_LIMBS: Ten :=
    Ten(-10913610, 13857413, -15372611, 6949391, 114729, -8787816, -6275908, -3247719, -18696448, -12055116)

  const D2_LIMBS: Ten :=
    Ten(-21827239, -5839606, -30745221, 13898782, 229458, 15978800, -12551817, -6495438, 29715968, 9444199)

  /** The d of the curve equation: 121666 d = -121665 modulo p. */
  ghost function CurveD(): (d: int)
    ensures Cong(121666 * d, -121665)
  {
    DLimbs();
    var d :| Cong(121666 * d, -121665);
    d
  }

  ghost const D: int := CurveD()

  lemma DLimbs()
    ensures Cong(121666 * Eval(D_LIMBS), -121665)
  {
    hide Cong;
    CongDivides(121666 * Eval(D_LIMBS), -121665);
  }

  const INVERSE_121666: int := 0x5203_6CEE_2B6F_FE73_8CC7_4079_7779_E898_0070_0A4D_4141_D8AB_75EB_4DCA_1359_78A4

  lemma InverseOf121666()
    ensures Cong(INVERSE_121666 * 121666, 1)
  {
    hide Cong;
    CongDivides(INVERSE_121666 * 121666, 1);
  }

  /** Only one residue has that property. */
  lemma DUnique(d: int, e: int)
    requires Cong(121666 * d, -121665) && Cong(121666 * e, -121665)
    ensures Cong(d, e)
  {
    hide Cong, INVERSE_121666;
    InverseOf121666();
    var i := INVERSE_121666;
    CongSym(121666 * e, -121665);
    CongTrans(121666 * d, -121665, 121666 * e);
    CongScale(i, 121666 * d, 121666 * e);
    CongRefl(d);
    CongRefl(e);
    CongMul(i * 121666, 1, d, d);
    CongMul(i * 121666, 1, e, e);
    assert (i * 121666) * d == i * (121666 * d) && (i * 121666) * e == i * (121666 * e);
    CongSym(i * (121666 * d), d);
    CongTrans(d, i * (121666 * d), i * (121666 * e));
    CongTrans(d, i * (121666 * e), e);
  }

  /** The limbs of d and d2 stand for d and 2 d. */
  lemma CurveConstants()
    ensures Cong(Eval(D_LIMBS), D) && Cong(Eval(D2_LIMBS), 2 * D)
    ensures Within(D_LIMBS, 1) && Within(D2_LIMBS, 1)
  {
    var e, e2 := Eval(D_LIMBS), Eval(D2_LIMBS);
    assert (e2 - 2 * e) % P == 0;
    DLimbs();
    hide Cong, Eval, CurveD;
    DUnique(e, D);
    CongDivides(e2, 2 * e);
    CongScale(2, e, D);
    CongTrans(e2, 2 * e, 2 * D);
  }

  // ---------- affine meaning ----------

  /** (X : Y : Z) stands for the affine point (x, y). */
  ghost predicate Affine(X: int, Y: int, Z: int, x: int, y: int) {
    Cong(X, x * Z) && Cong(Y, y * Z)
  }

  ghost predicate OnCurve(x: int, y: int) {
    Cong(y * y - x * x, 1 + D * ((x * x) * (y * y)))
  }

  /** (x3, y3) is the Edwards sum of (x1, y1) and (x2, y2), with the denominators multiplied out. */
  ghost predicate IsSum(x1: int, y1: int, x2: int, y2: int, x3: int, y3: int) {
    && Cong(x3 * SumDenX(x1, y1, x2, y2), x1 * y2 + x2 * y1)
    && Cong(y3 * SumDenY(x1, y1, x2, y2), y1 * y2 + x1 * x2)
  }

  ghost function SumDenX(x1: int, y1: int, x2: int, y2: int): int {
    1 + D * ((x1 * y1) * (x2 * y2))
  }

  ghost function SumDenY(x1: int, y1: int, x2: int, y2: int): int {
    1 - D * ((x1 * y1) * (x2 * y2))
  }

  /** X/Z = xn/xd and Y/T = yn/yd with a common factor lam. */
  ghost predicate Scaled(X: int, Y: int, Z: int, T: int, lam: int, xn: int, xd: int, yn: int, yd: int) {
    && Cong(X, lam * xn)
    && Cong(Z, lam * xd)
    && Cong(Y, lam * yn)
    && Cong(T, lam * yd)
  }

  // ---------- the formulas over the integers modulo p ----------

  lemma ScaledProduct(u: int, v: int, r: int, a: int, z: int, b: int, w: int)
    requires Cong(u, a * z) && Cong(v, b * w) && Cong(r, u * v)
    ensures Cong(r, (z * w) * (a * b))
  {
    hide Cong;
    CongMul(u, a * z, v, b * w);
    CongTrans(r, u * v, (a * z) * (b * w));
    assert (a * z) * (b * w) == (z * w) * (a * b);
  }

  /** The unified addition: A, B, C, E are the four products of geAdd. */
  lemma AddLaw(X1: int, Y1: int, Z1: int, T1: int, yp: int, ym: int, Z2: int, t2d: int,
               A: int, B: int, C: int, E: int, x1: int, y1: int, x2: int, y2: int)
    requires Affine(X1, Y1, Z1, x1, y1) && Cong(T1, (x1 * y1) * Z1)
    requires Cong(yp, (y2 + x2) * Z2) && Cong(ym, (y2 - x2) * Z2) && Cong(t2d, (2 * D * (x2 * y2)) * Z2)
    requires Cong(A, (Y1 + X1) * yp) && Cong(B, (Y1 - X1) * ym) && Cong(C, t2d * T1) && Cong(E, Z1 * Z2)
    ensures Scaled(A - B, A + B, E + E + C, E + E - C, 2 * (Z1 * Z2),
                   x1 * y2 + x2 * y1, SumDenX(x1, y1, x2, y2), y1 * y2 + x1 * x2, SumDenY(x1, y1, x2, y2))
  {
    hide Cong;
    var w := Z1 * Z2;
    CongAdd(Y1, y1 * Z1, X1, x1 * Z1);
    assert y1 * Z1 + x1 * Z1 == (y1 + x1) * Z1 && y1 * Z1 - x1 * Z1 == (y1 - x1) * Z1;
    ScaledProduct(Y1 + X1, yp, A, y1 + x1, Z1, y2 + x2, Z2);
    ScaledProduct(Y1 - X1, ym, B, y1 - x1, Z1, y2 - x2, Z2);
    ScaledProduct(t2d, T1, C, 2 * D * (x2 * y2), Z2, x1 * y1, Z1);
    var a, b, c := (y1 + x1) * (y2 + x2), (y1 - x1) * (y2 - x2), (2 * D * (x2 * y2)) * (x1 * y1);
    CongAdd(A, w * a, B, w * b);
    CongAdd(E, w, E, w);
    assert Z2 * Z1 == w;
    CongAdd(E + E, w + w, C, w * c);
    AddIdentity(w, x1, y1, x2, y2);
    DenominatorIdentity(w, D, x1 * y1, x2 * y2);
  }

  lemma AddIdentity(w: int, x1: int, y1: int, x2: int, y2: int)
    ensures w * ((y1 + x1) * (y2 + x2)) - w * ((y1 - x1) * (y2 - x2)) == (2 * w) * (x1 * y2 + x2 * y1)
    ensures w * ((y1 + x1) * (y2 + x2)) + w * ((y1 - x1) * (y2 - x2)) == (2 * w) * (y1 * y2 + x1 * x2)
  {
    var s, t := x1 * y2 + x2 * y1, y1 * y2 + x1 * x2;
    assert (y1 + x1) * (y2 + x2) == t + s && (y1 - x1) * (y2 - x2) == t - s;
  }

  lemma DenominatorIdentity(w: int, d: int, a: int, b: int)
    ensures w + w + w * ((2 * d * b) * a) == (2 * w) * (1 + d * (a * b))
    ensures w + w - w * ((2 * d * b) * a) == (2 * w) * (1 - d * (a * b))
  {
    var m := d * (a * b);
    assert (2 * d * b) * a == 2 * m;
    assert w * (2 * m) == (2 * w) * m;
  }

  /** Doubling: XX, YY, Z2, S are the four squares of Double. */
  lemma DoubleLaw(X: int, Y: int, Z: int, XX: int, YY: int, Z2: int, S: int, x: int, y: int)
    requires Affine(X, Y, Z, x, y)
    requires Cong(XX, X * X) && Cong(YY, Y * Y) && Cong(Z2, 2 * (Z * Z)) && Cong(S, (X + Y) * (X + Y))
    ensures Scaled(S - (YY + XX), YY + XX, YY - XX, Z2 - (YY - XX), Z * Z,
                   2 * (x * y), y * y - x * x, y * y + x * x, 2 - (y * y - x * x))
  {
    hide Cong;
    var w := Z * Z;
    ScaledProduct(X, X, XX, x, Z, x, Z);
    ScaledProduct(Y, Y, YY, y, Z, y, Z);
    CongAdd(X, x * Z, Y, y * Z);
    assert x * Z + y * Z == (x + y) * Z;
    ScaledProduct(X + Y, X + Y, S, x + y, Z, x + y, Z);
    CongAdd(YY, w * (y * y), XX, w * (x * x));
    CongAdd(S, w * ((x + y) * (x + y)), YY + XX, w * (y * y) + w * (x * x));
    CongAdd(Z2, 2 * w, YY - XX, w * (y * y) - w * (x * x));
    assert (x + y) * (x + y) == x * x + 2 * (x * y) + y * y;
    DoubleIdentity(w, x * x, x * y, y * y);
  }

  lemma DoubleIdentity(w: int, xx: int, xy: int, yy: int)
    ensures w * (xx + 2 * xy + yy) - (w * yy + w * xx) == w * (2 * xy)
    ensures w * yy + w * xx == w * (yy + xx)
    ensures w * yy - w * xx == w * (yy - xx)
    ensures 2 * w - (w * yy - w * xx) == w * (2 - (yy - xx))
  {
  }

  /** A fraction may have its denominator replaced by a congruent one. */
  lemma SwapDenominator(u: int, w: int, x: int, n: int)
    requires Cong(u, w)
    ensures Cong(x * w, n) <==> Cong(x * u, n)
  {
    hide Cong;
    CongScale(x, u, w);
    CongSwap(x * u, x * w, n);
  }

  /** A completed point, multiplied out to an extended one, keeps its affine meaning and has X Y = Z T. */
  lemma ExtendLaw(X: int, Y: int, Z: int, T: int, X': int, Y': int, Z': int, T': int,
                  lam: int, xn: int, xd: int, yn: int, yd: int, x: int, y: int)
    requires Scaled(X, Y, Z, T, lam, xn, xd, yn, yd)
    requires Cong(X', X * T) && Cong(Y', Y * Z) && Cong(Z', Z * T) && Cong(T', X * Y)
    requires Cong(x * xd, xn) && Cong(y * yd, yn)
    ensures Affine(X', Y', Z', x, y) && Cong(T', (x * y) * Z')
    ensures Cong(Z', (lam * lam) * (xd * yd))
  {
    hide Cong;
    var w := lam * lam;
    CongSym(x * xd, xn);
    CongSym(y * yd, yn);
    Rescale(X, lam, xn, x * xd);
    Rescale(Y, lam, yn, y * yd);
    Commuted(X, x * xd, lam);
    Commuted(Y, y * yd, lam);
    Commuted(Z, xd, lam);
    Commuted(T, yd, lam);
    ScaledProduct(X, T, X', x * xd, lam, yd, lam);
    ScaledProduct(Y, Z, Y', y * yd, lam, xd, lam);
    ScaledProduct(Z, T, Z', xd, lam, yd, lam);
    ScaledProduct(X, Y, T', x * xd, lam, y * yd, lam);
    var v := w * (xd * yd);
    ExtendIdentity(w, xd, yd, x, y);
    CongSym(Z', v);
    CongScale(x, v, Z');
    CongScale(y, v, Z');
    CongScale(x * y, v, Z');
    CongTrans(X', x * v, x * Z');
    CongTrans(Y', y * v, y * Z');
    CongTrans(T', (x * y) * v, (x * y) * Z');
  }

  lemma Rescale(X: int, lam: int, n: int, n': int)
    requires Cong(X, lam * n) && Cong(n, n')
    ensures Cong(X, lam * n')
  {
    hide Cong;
    CongScale(lam, n, n');
    CongTrans(X, lam * n, lam * n');
  }

  lemma Commuted(X: int, n: int, lam: int)
    requires Cong(X, lam * n)
    ensures Cong(X, n * lam)
  {
    assert lam * n == n * lam;
  }

  lemma ExtendIdentity(w: int, xd: int, yd: int, x: int, y: int)
    ensures w * ((x * xd) * yd) == x * (w * (xd * yd))
    ensures w * ((y * yd) * xd) == y * (w * (xd * yd))
    ensures w * ((x * xd) * (y * yd)) == (x * y) * (w * (xd * yd))
  {
    var m := xd * yd;
    assert (x * xd) * yd == x * m && (y * yd) * xd == y * m;
    assert (x * xd) * (y * yd) == (x * y) * m;
    assert w * (x * m) == x * (w * m) && w * (y * m) == y * (w * m);
    var z := x * y;
    assert w * (z * m) == z * (w * m);
  }
}
