/**
 The products of ScMulAdd in vrf/edwards25519/edwards25519.go: schoolbook multiplication of twelve limbs by twelve.
 */
module ScalarProducts {
  import opened Words
  import opened Division
  import opened ScalarField

  /** Limbs as they are loaded: 21 bits, and 25 bits in the last. */
  predicate Loaded(t: Twelve) {
    Digits(t.(l11 := 0)) && 0 <= t.l11 < 0x200_0000
  }

  /** The sums s0 to s11. */
  function LowSums(a: Twelve, b: Twelve, c: Twelve): Twelve {
    Twelve(c.l0 + Mul(a.l0, b.l0),
           c.l1 + Mul(a.l0, b.l1) + Mul(a.l1, b.l0),
           c.l2 + Mul(a.l0, b.l2) + Mul(a.l1, b.l1) + Mul(a.l2, b.l0),
           c.l3 + Mul(a.l0, b.l3) + Mul(a.l1, b.l2) + Mul(a.l2, b.l1) + Mul(a.l3, b.l0),
           c.l4 + Mul(a.l0, b.l4) + Mul(a.l1, b.l3) + Mul(a.l2, b.l2) + Mul(a.l3, b.l1) + Mul(a.l4, b.l0),
           c.l5 + Mul(a.l0, b.l5) + Mul(a.l1, b.l4) + Mul(a.l2, b.l3) + Mul(a.l3, b.l2) + Mul(a.l4, b.l1) + Mul(a.l5,
               b.l0),
           c.l6 + Mul(a.l0, b.l6) + Mul(a.l1, b.l5) + Mul(a.l2, b.l4) + Mul(a.l3, b.l3) + Mul(a.l4, b.l2) + Mul(a.l5,
               b.l1) + Mul(a.l6, b.l0),
           c.l7 + Mul(a.l0, b.l7) + Mul(a.l1, b.l6) + Mul(a.l2, b.l5) + Mul(a.l3, b.l4) + Mul(a.l4, b.l3) + Mul(a.l5,
               b.l2) + Mul(a.l6, b.l1) + Mul(a.l7, b.l0),
           c.l8 + Mul(a.l0, b.l8) + Mul(a.l1, b.l7) + Mul(a.l2, b.l6) + Mul(a.l3, b.l5) + Mul(a.l4, b.l4) + Mul(a.l5,
               b.l3) + Mul(a.l6, b.l2) + Mul(a.l7, b.l1) + Mul(a.l8, b.l0),
           c.l9 + Mul(a.l0, b.l9) + Mul(a.l1, b.l8) + Mul(a.l2, b.l7) + Mul(a.l3, b.l6) + Mul(a.l4, b.l5) + Mul(a.l5,
               b.l4) + Mul(a.l6, b.l3) + Mul(a.l7, b.l2) + Mul(a.l8, b.l1) + Mul(a.l9, b.l0),
           c.l10 + Mul(a.l0, b.l10) + Mul(a.l1, b.l9) + Mul(a.l2, b.l8) + Mul(a.l3, b.l7) + Mul(a.l4, b.l6) + Mul(a.l5,
               b.l5) + Mul(a.l6, b.l4) + Mul(a.l7, b.l3) + Mul(a.l8, b.l2) + Mul(a.l9, b.l1) + Mul(a.l10, b.l0),
           c.l11 + Mul(a.l0, b.l11) + Mul(a.l1, b.l10) + Mul(a.l2, b.l9) + Mul(a.l3, b.l8) + Mul(a.l4, b.l7)
               + Mul(a.l5, b.l6) + Mul(a.l6, b.l5) + Mul(a.l7, b.l4) + Mul(a.l8, b.l3) + Mul(a.l9, b.l2) + Mul(a.l10,
               b.l1) + Mul(a.l11, b.l0))
  }

  /** The sums s12 to s22, and s23, which starts at zero. */
  function HighSums(a: Twelve, b: Twelve): Twelve {
    Twelve(Mul(a.l1, b.l11) + Mul(a.l2, b.l10) + Mul(a.l3, b.l9) + Mul(a.l4, b.l8) + Mul(a.l5, b.l7) + Mul(a.l6, b.l6)
        + Mul(a.l7, b.l5) + Mul(a.l8, b.l4) + Mul(a.l9, b.l3) + Mul(a.l10, b.l2) + Mul(a.l11, b.l1),
           Mul(a.l2, b.l11) + Mul(a.l3, b.l10) + Mul(a.l4, b.l9) + Mul(a.l5, b.l8) + Mul(a.l6, b.l7) + Mul(a.l7, b.l6)
               + Mul(a.l8, b.l5) + Mul(a.l9, b.l4) + Mul(a.l10, b.l3) + Mul(a.l11, b.l2),
           Mul(a.l3, b.l11) + Mul(a.l4, b.l10) + Mul(a.l5, b.l9) + Mul(a.l6, b.l8) + Mul(a.l7, b.l7) + Mul(a.l8, b.l6)
               + Mul(a.l9, b.l5) + Mul(a.l10, b.l4) + Mul(a.l11, b.l3),
           Mul(a.l4, b.l11) + Mul(a.l5, b.l10) + Mul(a.l6, b.l9) + Mul(a.l7, b.l8) + Mul(a.l8, b.l7) + Mul(a.l9, b.l6)
               + Mul(a.l10, b.l5) + Mul(a.l11, b.l4),
           Mul(a.l5, b.l11) + Mul(a.l6, b.l10) + Mul(a.l7, b.l9) + Mul(a.l8, b.l8) + Mul(a.l9, b.l7) + Mul(a.l10, b.l6)
               + Mul(a.l11, b.l5),
           Mul(a.l6, b.l11) + Mul(a.l7, b.l10) + Mul(a.l8, b.l9) + Mul(a.l9, b.l8) + Mul(a.l10, b.l7) + Mul(a.l11,
               b.l6),
           Mul(a.l7, b.l11) + Mul(a.l8, b.l10) + Mul(a.l9, b.l9) + Mul(a.l10, b.l8) + Mul(a.l11, b.l7),
           Mul(a.l8, b.l11) + Mul(a.l9, b.l10) + Mul(a.l10, b.l9) + Mul(a.l11, b.l8),
           Mul(a.l9, b.l11) + Mul(a.l10, b.l10) + Mul(a.l11, b.l9),
           Mul(a.l10, b.l11) + Mul(a.l11, b.l10),
           Mul(a.l11, b.l11),
           0)
  }

  // ---------- their value ----------

  /** 24 limbs. */
  datatype Double = Double(lo: Twelve, hi: Twelve)

  function Value(d: Double): int {
    Eval(d.lo) + TWO252 * Eval(d.hi)
  }

  function Zero(): Twelve {
    Twelve(0, 0, 0, 0, 0, 0, 0, 0, 0, 0, 0, 0)
  }

  function Scale(x: int, t: Twelve): Twelve {
    Twelve(Mul(x, t.l0), Mul(x, t.l1), Mul(x, t.l2), Mul(x, t.l3), Mul(x, t.l4), Mul(x, t.l5), Mul(x, t.l6), Mul(x,
        t.l7), Mul(x, t.l8), Mul(x, t.l9), Mul(x, t.l10), Mul(x, t.l11))
  }

  function Plus(s: Twelve, t: Twelve): Twelve {
    Twelve(s.l0 + t.l0, s.l1 + t.l1, s.l2 + t.l2, s.l3 + t.l3, s.l4 + t.l4, s.l5 + t.l5, s.l6 + t.l6, s.l7 + t.l7, s.l8
        + t.l8, s.l9 + t.l9, s.l10 + t.l10, s.l11 + t.l11)
  }

  /** One Horner step: x * b and, one place up, d. */
  function Row(x: int, b: Twelve, d: Double): Double {
    var l, h := d.lo, d.hi;
    Double(Plus(Scale(x, b), Twelve(0, l.l0, l.l1, l.l2, l.l3, l.l4, l.l5, l.l6, l.l7, l.l8, l.l9, l.l10)),
           Twelve(l.l11, h.l0, h.l1, h.l2, h.l3, h.l4, h.l5, h.l6, h.l7, h.l8, h.l9, h.l10))
  }

  lemma ScaleValue(x: int, t: Twelve)
    ensures Eval(Scale(x, t)) == x * Eval(t)
  {
  }

  lemma PlusValue(s: Twelve, t: Twelve)
    ensures Eval(Plus(s, t)) == Eval(s) + Eval(t)
  {
  }

  lemma ShiftValue(l: Twelve, h: Twelve)
    requires h.l11 == 0
    ensures Eval(Twelve(0, l.l0, l.l1, l.l2, l.l3, l.l4, l.l5, l.l6, l.l7, l.l8, l.l9, l.l10))
            + TWO252 * Eval(Twelve(l.l11, h.l0, h.l1, h.l2, h.l3, h.l4, h.l5, h.l6, h.l7, h.l8, h.l9, h.l10))
            == V1 * (Eval(l) + TWO252 * Eval(h))
  {
  }

  lemma RowValue(x: int, b: Twelve, d: Double, y: int)
    requires d.hi.l11 == 0 && Value(d) == y * Eval(b)
    ensures Value(Row(x, b, d)) == (x + V1 * y) * Eval(b)
  {
    hide Eval, Scale, Plus;
    var l, h := d.lo, d.hi;
    ScaleValue(x, b);
    ShiftValue(l, h);
    PlusValue(Scale(x, b), Twelve(0, l.l0, l.l1, l.l2, l.l3, l.l4, l.l5, l.l6, l.l7, l.l8, l.l9, l.l10));
    var v := Eval(b);
    assert (x + V1 * y) * v == x * v + V1 * (y * v);
  }

  function UpperRows(a: Twelve, b: Twelve): Double {
    var z := Double(Zero(), Zero());
    Row(a.l6, b, Row(a.l7, b, Row(a.l8, b, Row(a.l9, b, Row(a.l10, b, Row(a.l11, b, z))))))
  }

  function LowerRows(a: Twelve, b: Twelve, d: Double): Double {
    Row(a.l0, b, Row(a.l1, b, Row(a.l2, b, Row(a.l3, b, Row(a.l4, b, Row(a.l5, b, d))))))
  }

  function TopHalf(a: Twelve): int {
    a.l6 + V1 * (a.l7 + V1 * (a.l8 + V1 * (a.l9 + V1 * (a.l10 + V1 * a.l11))))
  }

  lemma ZeroValue()
    ensures Value(Double(Zero(), Zero())) == 0
  {
  }

  lemma TopOfRow(x: int, b: Twelve, d: Double)
    ensures Row(x, b, d).hi.l11 == d.hi.l10
    ensures Row(x, b, d).hi.l10 == d.hi.l9
    ensures Row(x, b, d).hi.l9 == d.hi.l8
    ensures Row(x, b, d).hi.l8 == d.hi.l7
    ensures Row(x, b, d).hi.l7 == d.hi.l6
    ensures Row(x, b, d).hi.l6 == d.hi.l5
    ensures Row(x, b, d).hi.l5 == d.hi.l4
  {
  }

  lemma UpperRowsValue(a: Twelve, b: Twelve)
    ensures Value(UpperRows(a, b)) == TopHalf(a) * Eval(b)
  {
    hide Row, Eval, Value;
    var z := Double(Zero(), Zero());
    ZeroValue();
    assert z.hi == Zero();
    RowValue(a.l11, b, z, 0);
    TopOfRow(a.l11, b, z);
    var r11, x11 := Row(a.l11, b, z), a.l11 + V1 * 0;
    RowValue(a.l10, b, r11, x11);
    TopOfRow(a.l10, b, r11);
    var r10, x10 := Row(a.l10, b, r11), a.l10 + V1 * x11;
    RowValue(a.l9, b, r10, x10);
    TopOfRow(a.l9, b, r10);
    var r9, x9 := Row(a.l9, b, r10), a.l9 + V1 * x10;
    RowValue(a.l8, b, r9, x9);
    TopOfRow(a.l8, b, r9);
    var r8, x8 := Row(a.l8, b, r9), a.l8 + V1 * x9;
    RowValue(a.l7, b, r8, x8);
    TopOfRow(a.l7, b, r8);
    var r7, x7 := Row(a.l7, b, r8), a.l7 + V1 * x8;
    RowValue(a.l6, b, r7, x7);
    TopOfRow(a.l6, b, r7);
  }

  lemma LowerRowsValue(a: Twelve, b: Twelve, d: Double, y: int)
    requires Value(d) == y * Eval(b)
    requires var h := d.hi; h.l6 == 0 && h.l7 == 0 && h.l8 == 0 && h.l9 == 0 && h.l10 == 0 && h.l11 == 0
    ensures Value(LowerRows(a, b, d)) == (a.l0 + V1 * (a.l1 + V1 * (a.l2 + V1 * (a.l3 + V1 * (a.l4 + V1 * (a.l5
            + V1 * y)))))) * Eval(b)
  {
    hide Row, Eval, Value;
    RowValue(a.l5, b, d, y);
    TopOfRow(a.l5, b, d);
    var r5, x5 := Row(a.l5, b, d), a.l5 + V1 * y;
    RowValue(a.l4, b, r5, x5);
    TopOfRow(a.l4, b, r5);
    var r4, x4 := Row(a.l4, b, r5), a.l4 + V1 * x5;
    RowValue(a.l3, b, r4, x4);
    TopOfRow(a.l3, b, r4);
    var r3, x3 := Row(a.l3, b, r4), a.l3 + V1 * x4;
    RowValue(a.l2, b, r3, x3);
    TopOfRow(a.l2, b, r3);
    var r2, x2 := Row(a.l2, b, r3), a.l2 + V1 * x3;
    RowValue(a.l1, b, r2, x2);
    TopOfRow(a.l1, b, r2);
    var r1, x1 := Row(a.l1, b, r2), a.l1 + V1 * x2;
    RowValue(a.l0, b, r1, x1);
  }

  lemma HornerForm(a: Twelve)
    ensures Eval(a) == a.l0 + V1 * (a.l1 + V1 * (a.l2 + V1 * (a.l3 + V1 * (a.l4 + V1 * (a.l5 + V1 * TopHalf(a))))))
  {
  }

  lemma UpperRowsLimbs(a: Twelve, b: Twelve)
    ensures UpperRows(a, b).lo == Twelve(Mul(a.l6, b.l0),
              Mul(a.l6, b.l1) + Mul(a.l7, b.l0),
              Mul(a.l6, b.l2) + Mul(a.l7, b.l1) + Mul(a.l8, b.l0),
              Mul(a.l6, b.l3) + Mul(a.l7, b.l2) + Mul(a.l8, b.l1) + Mul(a.l9, b.l0),
              Mul(a.l6, b.l4) + Mul(a.l7, b.l3) + Mul(a.l8, b.l2) + Mul(a.l9, b.l1) + Mul(a.l10, b.l0),
              Mul(a.l6, b.l5) + Mul(a.l7, b.l4) + Mul(a.l8, b.l3) + Mul(a.l9, b.l2) + Mul(a.l10, b.l1) + Mul(a.l11,
                  b.l0),
              Mul(a.l6, b.l6) + Mul(a.l7, b.l5) + Mul(a.l8, b.l4) + Mul(a.l9, b.l3) + Mul(a.l10, b.l2) + Mul(a.l11,
                  b.l1),
              Mul(a.l6, b.l7) + Mul(a.l7, b.l6) + Mul(a.l8, b.l5) + Mul(a.l9, b.l4) + Mul(a.l10, b.l3) + Mul(a.l11,
                  b.l2),
              Mul(a.l6, b.l8) + Mul(a.l7, b.l7) + Mul(a.l8, b.l6) + Mul(a.l9, b.l5) + Mul(a.l10, b.l4) + Mul(a.l11,
                  b.l3),
              Mul(a.l6, b.l9) + Mul(a.l7, b.l8) + Mul(a.l8, b.l7) + Mul(a.l9, b.l6) + Mul(a.l10, b.l5) + Mul(a.l11,
                  b.l4),
              Mul(a.l6, b.l10) + Mul(a.l7, b.l9) + Mul(a.l8, b.l8) + Mul(a.l9, b.l7) + Mul(a.l10, b.l6) + Mul(a.l11,
                  b.l5),
              Mul(a.l6, b.l11) + Mul(a.l7, b.l10) + Mul(a.l8, b.l9) + Mul(a.l9, b.l8) + Mul(a.l10, b.l7) + Mul(a.l11,
                  b.l6))
    ensures UpperRows(a, b).hi == Twelve(Mul(a.l7, b.l11) + Mul(a.l8, b.l10) + Mul(a.l9, b.l9) + Mul(a.l10, b.l8)
            + Mul(a.l11, b.l7),
              Mul(a.l8, b.l11) + Mul(a.l9, b.l10) + Mul(a.l10, b.l9) + Mul(a.l11, b.l8),
              Mul(a.l9, b.l11) + Mul(a.l10, b.l10) + Mul(a.l11, b.l9),
              Mul(a.l10, b.l11) + Mul(a.l11, b.l10),
              Mul(a.l11, b.l11),
              0,
              0,
              0,
              0,
              0,
              0,
              0)
  {
    hide Mul;
  }

  lemma LowerRowsLimbs(a: Twelve, b: Twelve, d: Double)
    ensures LowerRows(a, b, d).lo == Twelve(Mul(a.l0, b.l0),
              Mul(a.l0, b.l1) + Mul(a.l1, b.l0),
              Mul(a.l0, b.l2) + Mul(a.l1, b.l1) + Mul(a.l2, b.l0),
              Mul(a.l0, b.l3) + Mul(a.l1, b.l2) + Mul(a.l2, b.l1) + Mul(a.l3, b.l0),
              Mul(a.l0, b.l4) + Mul(a.l1, b.l3) + Mul(a.l2, b.l2) + Mul(a.l3, b.l1) + Mul(a.l4, b.l0),
              Mul(a.l0, b.l5) + Mul(a.l1, b.l4) + Mul(a.l2, b.l3) + Mul(a.l3, b.l2) + Mul(a.l4, b.l1) + Mul(a.l5, b.l0),
              Mul(a.l0, b.l6) + Mul(a.l1, b.l5) + Mul(a.l2, b.l4) + Mul(a.l3, b.l3) + Mul(a.l4, b.l2) + Mul(a.l5, b.l1)
                  + d.lo.l0,
              Mul(a.l0, b.l7) + Mul(a.l1, b.l6) + Mul(a.l2, b.l5) + Mul(a.l3, b.l4) + Mul(a.l4, b.l3) + Mul(a.l5, b.l2)
                  + d.lo.l1,
              Mul(a.l0, b.l8) + Mul(a.l1, b.l7) + Mul(a.l2, b.l6) + Mul(a.l3, b.l5) + Mul(a.l4, b.l4) + Mul(a.l5, b.l3)
                  + d.lo.l2,
              Mul(a.l0, b.l9) + Mul(a.l1, b.l8) + Mul(a.l2, b.l7) + Mul(a.l3, b.l6) + Mul(a.l4, b.l5) + Mul(a.l5, b.l4)
                  + d.lo.l3,
              Mul(a.l0, b.l10) + Mul(a.l1, b.l9) + Mul(a.l2, b.l8) + Mul(a.l3, b.l7) + Mul(a.l4, b.l6) + Mul(a.l5,
                  b.l5) + d.lo.l4,
              Mul(a.l0, b.l11) + Mul(a.l1, b.l10) + Mul(a.l2, b.l9) + Mul(a.l3, b.l8) + Mul(a.l4, b.l7) + Mul(a.l5,
                  b.l6) + d.lo.l5)
    ensures LowerRows(a, b, d).hi == Twelve(Mul(a.l1, b.l11) + Mul(a.l2, b.l10) + Mul(a.l3, b.l9) + Mul(a.l4, b.l8)
            + Mul(a.l5, b.l7) + d.lo.l6,
              Mul(a.l2, b.l11) + Mul(a.l3, b.l10) + Mul(a.l4, b.l9) + Mul(a.l5, b.l8) + d.lo.l7,
              Mul(a.l3, b.l11) + Mul(a.l4, b.l10) + Mul(a.l5, b.l9) + d.lo.l8,
              Mul(a.l4, b.l11) + Mul(a.l5, b.l10) + d.lo.l9,
              Mul(a.l5, b.l11) + d.lo.l10,
              d.lo.l11,
              d.hi.l0,
              d.hi.l1,
              d.hi.l2,
              d.hi.l3,
              d.hi.l4,
              d.hi.l5)
  {
    hide Mul;
  }

  /** The sums are the rows of the product added up, with c on top. */
  lemma SumsAreRows(a: Twelve, b: Twelve, c: Twelve)
    ensures LowSums(a, b, c) == Plus(c, LowerRows(a, b, UpperRows(a, b)).lo)
    ensures HighSums(a, b) == LowerRows(a, b, UpperRows(a, b)).hi
  {
    hide Mul, UpperRows, LowerRows;
    UpperRowsLimbs(a, b);
    LowerRowsLimbs(a, b, UpperRows(a, b));
  }

  /** The 23 sums of ScMulAdd stand for ab + c. */
  lemma SumsValue(a: Twelve, b: Twelve, c: Twelve)
    ensures Eval(LowSums(a, b, c)) + TWO252 * Eval(HighSums(a, b)) == Eval(a) * Eval(b) + Eval(c)
  {
    hide Eval, LowSums, HighSums, LowerRows, UpperRows, Plus;
    SumsAreRows(a, b, c);
    UpperRowsValue(a, b);
    UpperRowsLimbs(a, b);
    LowerRowsValue(a, b, UpperRows(a, b), TopHalf(a));
    HornerForm(a);
    PlusValue(c, LowerRows(a, b, UpperRows(a, b)).lo);
  }

  // ---------- products without overflow ----------

  /** The limbs of a scalar in 64-bit words. */
  datatype Words12 = Words12(l0: int64, l1: int64, l2: int64, l3: int64, l4: int64, l5: int64, l6: int64, l7: int64,
                             l8: int64, l9: int64, l10: int64, l11: int64)

  function Ints(x: Words12): Twelve {
    Twelve(x.l0 as int, x.l1 as int, x.l2 as int, x.l3 as int, x.l4 as int, x.l5 as int, x.l6 as int, x.l7 as int,
        x.l8 as int, x.l9 as int, x.l10 as int, x.l11 as int)
  }

  function Times(x: int64, y: int64): (r: int64)
    requires 0 <= x < 0x200_0000 && 0 <= y < 0x200_0000
    ensures r as int == Mul(x as int, y as int)
    ensures 0 <= r < 0x4_0000_0000_0000
    ensures x < 0x20_0000 || y < 0x20_0000 ==> r < 0x4000_0000_0000
    ensures x < 0x20_0000 && y < 0x20_0000 ==> r < 0x400_0000_0000
  {
    ProductRange(x as int, y as int, if x < 0x20_0000 then 0x20_0000 else 0x200_0000,
        if y < 0x20_0000 then 0x20_0000 else 0x200_0000);
    x * y
  }

  lemma ProductRange(x: int, y: int, m: int, n: int)
    requires 0 <= x < m && 0 <= y < n
    ensures 0 <= x * y < m * n
  {
    MulMono(m, y, n);
  }

  method Sums0To5(a: Words12, b: Words12, c: Words12)
    returns (s0: int64, s1: int64, s2: int64, s3: int64, s4: int64, s5: int64)
    requires Loaded(Ints(a)) && Loaded(Ints(b)) && Loaded(Ints(c))
    ensures s0 as int == LowSums(Ints(a), Ints(b), Ints(c)).l0 && 0 <= s0 < 0x800_0000_0000
    ensures s1 as int == LowSums(Ints(a), Ints(b), Ints(c)).l1 && 0 <= s1 < 0x1000_0000_0000
    ensures s2 as int == LowSums(Ints(a), Ints(b), Ints(c)).l2 && 0 <= s2 < 0x1000_0000_0000
    ensures s3 as int == LowSums(Ints(a), Ints(b), Ints(c)).l3 && 0 <= s3 < 0x2000_0000_0000
    ensures s4 as int == LowSums(Ints(a), Ints(b), Ints(c)).l4 && 0 <= s4 < 0x2000_0000_0000
    ensures s5 as int == LowSums(Ints(a), Ints(b), Ints(c)).l5 && 0 <= s5 < 0x2000_0000_0000
  {
    hide Mul, Times;
    s0 := c.l0 + Times(a.l0, b.l0);
    s1 := c.l1 + Times(a.l0, b.l1) + Times(a.l1, b.l0);
    s2 := c.l2 + Times(a.l0, b.l2) + Times(a.l1, b.l1) + Times(a.l2, b.l0);
    s3 := c.l3 + Times(a.l0, b.l3) + Times(a.l1, b.l2) + Times(a.l2, b.l1) + Times(a.l3, b.l0);
    s4 := c.l4 + Times(a.l0, b.l4) + Times(a.l1, b.l3) + Times(a.l2, b.l2) + Times(a.l3, b.l1) + Times(a.l4, b.l0);
    s5 := c.l5 + Times(a.l0, b.l5) + Times(a.l1, b.l4) + Times(a.l2, b.l3) + Times(a.l3, b.l2) + Times(a.l4, b.l1)
        + Times(a.l5, b.l0);
  }

  method Sums6To8(a: Words12, b: Words12, c: Words12) returns (s6: int64, s7: int64, s8: int64)
    requires Loaded(Ints(a)) && Loaded(Ints(b)) && Loaded(Ints(c))
    ensures s6 as int == LowSums(Ints(a), Ints(b), Ints(c)).l6 && 0 <= s6 < 0x2000_0000_0000
    ensures s7 as int == LowSums(Ints(a), Ints(b), Ints(c)).l7 && 0 <= s7 < 0x4000_0000_0000
    ensures s8 as int == LowSums(Ints(a), Ints(b), Ints(c)).l8 && 0 <= s8 < 0x4000_0000_0000
  {
    hide Mul, Times;
    s6 := c.l6 + Times(a.l0, b.l6) + Times(a.l1, b.l5) + Times(a.l2, b.l4) + Times(a.l3, b.l3) + Times(a.l4, b.l2)
        + Times(a.l5, b.l1) + Times(a.l6, b.l0);
    s7 := c.l7 + Times(a.l0, b.l7) + Times(a.l1, b.l6) + Times(a.l2, b.l5) + Times(a.l3, b.l4) + Times(a.l4, b.l3)
        + Times(a.l5, b.l2) + Times(a.l6, b.l1) + Times(a.l7, b.l0);
    s8 := c.l8 + Times(a.l0, b.l8) + Times(a.l1, b.l7) + Times(a.l2, b.l6) + Times(a.l3, b.l5) + Times(a.l4, b.l4)
        + Times(a.l5, b.l3) + Times(a.l6, b.l2) + Times(a.l7, b.l1) + Times(a.l8, b.l0);
  }

  method Sums9To11(a: Words12, b: Words12, c: Words12) returns (s9: int64, s10: int64, s11: int64)
    requires Loaded(Ints(a)) && Loaded(Ints(b)) && Loaded(Ints(c))
    ensures s9 as int == LowSums(Ints(a), Ints(b), Ints(c)).l9 && 0 <= s9 < 0x4000_0000_0000
    ensures s10 as int == LowSums(Ints(a), Ints(b), Ints(c)).l10 && 0 <= s10 < 0x4000_0000_0000
    ensures s11 as int == LowSums(Ints(a), Ints(b), Ints(c)).l11 && 0 <= s11 < 0x1_0000_0000_0000
  {
    hide Mul, Times;
    s9 := c.l9 + Times(a.l0, b.l9) + Times(a.l1, b.l8) + Times(a.l2, b.l7) + Times(a.l3, b.l6) + Times(a.l4, b.l5)
        + Times(a.l5, b.l4) + Times(a.l6, b.l3) + Times(a.l7, b.l2) + Times(a.l8, b.l1) + Times(a.l9, b.l0);
    s10 := c.l10 + Times(a.l0, b.l10) + Times(a.l1, b.l9) + Times(a.l2, b.l8) + Times(a.l3, b.l7) + Times(a.l4, b.l6)
        + Times(a.l5, b.l5) + Times(a.l6, b.l4) + Times(a.l7, b.l3) + Times(a.l8, b.l2) + Times(a.l9, b.l1)
        + Times(a.l10, b.l0);
    s11 := c.l11 + Times(a.l0, b.l11) + Times(a.l1, b.l10) + Times(a.l2, b.l9) + Times(a.l3, b.l8) + Times(a.l4, b.l7)
        + Times(a.l5, b.l6) + Times(a.l6, b.l5) + Times(a.l7, b.l4) + Times(a.l8, b.l3) + Times(a.l9, b.l2)
        + Times(a.l10, b.l1) + Times(a.l11, b.l0);
  }

  method Sums12To15(a: Words12, b: Words12) returns (s12: int64, s13: int64, s14: int64, s15: int64)
    requires Loaded(Ints(a)) && Loaded(Ints(b))
    ensures s12 as int == HighSums(Ints(a), Ints(b)).l0 && 0 <= s12 < 0x1_0000_0000_0000
    ensures s13 as int == HighSums(Ints(a), Ints(b)).l1 && 0 <= s13 < 0x1_0000_0000_0000
    ensures s14 as int == HighSums(Ints(a), Ints(b)).l2 && 0 <= s14 < 0x1_0000_0000_0000
    ensures s15 as int == HighSums(Ints(a), Ints(b)).l3 && 0 <= s15 < 0x1_0000_0000_0000
  {
    hide Mul, Times;
    s12 := Times(a.l1, b.l11) + Times(a.l2, b.l10) + Times(a.l3, b.l9) + Times(a.l4, b.l8) + Times(a.l5, b.l7)
        + Times(a.l6, b.l6) + Times(a.l7, b.l5) + Times(a.l8, b.l4) + Times(a.l9, b.l3) + Times(a.l10, b.l2)
        + Times(a.l11, b.l1);
    s13 := Times(a.l2, b.l11) + Times(a.l3, b.l10) + Times(a.l4, b.l9) + Times(a.l5, b.l8) + Times(a.l6, b.l7)
        + Times(a.l7, b.l6) + Times(a.l8, b.l5) + Times(a.l9, b.l4) + Times(a.l10, b.l3) + Times(a.l11, b.l2);
    s14 := Times(a.l3, b.l11) + Times(a.l4, b.l10) + Times(a.l5, b.l9) + Times(a.l6, b.l8) + Times(a.l7, b.l7)
        + Times(a.l8, b.l6) + Times(a.l9, b.l5) + Times(a.l10, b.l4) + Times(a.l11, b.l3);
    s15 := Times(a.l4, b.l11) + Times(a.l5, b.l10) + Times(a.l6, b.l9) + Times(a.l7, b.l8) + Times(a.l8, b.l7)
        + Times(a.l9, b.l6) + Times(a.l10, b.l5) + Times(a.l11, b.l4);
  }

  method Sums16To22(a: Words12, b: Words12)
    returns (s16: int64, s17: int64, s18: int64, s19: int64, s20: int64, s21: int64, s22: int64)
    requires Loaded(Ints(a)) && Loaded(Ints(b))
    ensures s16 as int == HighSums(Ints(a), Ints(b)).l4 && 0 <= s16 < 0x1_0000_0000_0000
    ensures s17 as int == HighSums(Ints(a), Ints(b)).l5 && 0 <= s17 < 0x1_0000_0000_0000
    ensures s18 as int == HighSums(Ints(a), Ints(b)).l6 && 0 <= s18 < 0x1_0000_0000_0000
    ensures s19 as int == HighSums(Ints(a), Ints(b)).l7 && 0 <= s19 < 0x1_0000_0000_0000
    ensures s20 as int == HighSums(Ints(a), Ints(b)).l8 && 0 <= s20 < 0x1_0000_0000_0000
    ensures s21 as int == HighSums(Ints(a), Ints(b)).l9 && 0 <= s21 < 0x8000_0000_0000
    ensures s22 as int == HighSums(Ints(a), Ints(b)).l10 && 0 <= s22 < 0x4_0000_0000_0000
  {
    hide Mul, Times;
    s16 := Times(a.l5, b.l11) + Times(a.l6, b.l10) + Times(a.l7, b.l9) + Times(a.l8, b.l8) + Times(a.l9, b.l7)
        + Times(a.l10, b.l6) + Times(a.l11, b.l5);
    s17 := Times(a.l6, b.l11) + Times(a.l7, b.l10) + Times(a.l8, b.l9) + Times(a.l9, b.l8) + Times(a.l10, b.l7)
        + Times(a.l11, b.l6);
    s18 := Times(a.l7, b.l11) + Times(a.l8, b.l10) + Times(a.l9, b.l9) + Times(a.l10, b.l8) + Times(a.l11, b.l7);
    s19 := Times(a.l8, b.l11) + Times(a.l9, b.l10) + Times(a.l10, b.l9) + Times(a.l11, b.l8);
    s20 := Times(a.l9, b.l11) + Times(a.l10, b.l10) + Times(a.l11, b.l9);
    s21 := Times(a.l10, b.l11) + Times(a.l11, b.l10);
    s22 := Times(a.l11, b.l11);
  }
}
