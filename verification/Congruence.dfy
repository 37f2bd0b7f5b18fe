/** Congruence modulo p = 2^255 - 19. */
module Congruence {

  const P: int := 0x7FFF_FFFF_FFFF_FFFF_FFFF_FFFF_FFFF_FFFF_FFFF_FFFF_FFFF_FFFF_FFFF_FFFF_FFFF_FFED

  predicate IsP(n: int) {
    n == P
  }

  ghost predicate EqualsP(m: int) {
    m > 0 && forall n {:trigger IsP(n)} :: IsP(n) ==> m == n
  }

  /**
   The modulus p as a number of which proofs know only that it is positive until they ask ModulusIsP:
   congruences of polynomials are then never mixed with 255-bit coefficients.
   */
  ghost function Modulus(): (m: int)
    ensures EqualsP(m)
  {
    assert EqualsP(P);
    var m :| EqualsP(m);
    m
  }

  lemma ModulusIsP()
    ensures Modulus() == P
  {
    assert IsP(P);
  }

  /** The representative of a in [0, p). */
  ghost function Residue(a: int): int
    decreases if a < 0 then Modulus() - a else a
  {
    var m := Modulus();
    if a < 0 then Residue(a + m) else if a < m then a else Residue(a - m)
  }

  ghost predicate Cong(a: int, b: int) {
    Residue(a) == Residue(b)
  }

  // ---------- quotients ----------

  lemma {:induction false} ResidueQuotient(a: int) returns (k: int)
    ensures a == Residue(a) + P * k && 0 <= Residue(a) < P
    decreases if a < 0 then Modulus() - a else a
  {
    ModulusIsP();
    if a < 0 {
      k := ResidueQuotient(a + P);
      k := k - 1;
    } else if a < P {
      k := 0;
    } else {
      k := ResidueQuotient(a - P);
      k := k + 1;
    }
  }

  lemma ZeroQuotient(r: int, s: int, k: int)
    requires 0 <= r < P && 0 <= s < P && r == s + P * k
    ensures r == s
  {
  }

  lemma CongBy(a: int, b: int, k: int)
    requires a - b == P * k
    ensures Cong(a, b)
  {
    var m := ResidueQuotient(a);
    var n := ResidueQuotient(b);
    ZeroQuotient(Residue(a), Residue(b), k - m + n);
  }

  lemma CongQuotient(a: int, b: int) returns (k: int)
    requires Cong(a, b)
    ensures a - b == P * k
  {
    var m := ResidueQuotient(a);
    var n := ResidueQuotient(b);
    k := m - n;
  }

  lemma CongDivides(a: int, b: int)
    ensures Cong(a, b) <==> (a - b) % P == 0
  {
    hide Cong;
    if Cong(a, b) {
      var k := CongQuotient(a, b);
    }
    if (a - b) % P == 0 {
      CongBy(a, b, (a - b) / P);
    }
  }

  // ---------- laws ----------

  lemma CongTrans(a: int, b: int, c: int)
    requires Cong(a, b) && Cong(b, c)
    ensures Cong(a, c)
  {
  }

  lemma CongSym(a: int, b: int)
    requires Cong(a, b)
    ensures Cong(b, a)
  {
  }

  lemma CongAdd(a: int, b: int, c: int, d: int)
    requires Cong(a, b) && Cong(c, d)
    ensures Cong(a + c, b + d) && Cong(a - c, b - d)
  {
    hide Cong;
    var k := CongQuotient(a, b);
    var m := CongQuotient(c, d);
    CongBy(a + c, b + d, k + m);
    CongBy(a - c, b - d, k - m);
  }

  lemma CongMul(a: int, b: int, c: int, d: int)
    requires Cong(a, b) && Cong(c, d)
    ensures Cong(a * c, b * d)
  {
    hide Cong;
    var k := CongQuotient(a, b);
    var m := CongQuotient(c, d);
    MulDifference(a, b, c, d, k, m);
    CongBy(a * c, b * d, b * m + k * c);
  }

  lemma MulDifference(a: int, b: int, c: int, d: int, k: int, m: int)
    requires a - b == P * k && c - d == P * m
    ensures a * c - b * d == P * (b * m + k * c)
  {
    assert a * c - b * c == (a - b) * c;
    assert b * c - b * d == b * (c - d);
    assert (P * k) * c == P * (k * c);
    assert b * (P * m) == P * (b * m);
  }

  lemma CongRefl(a: int)
    ensures Cong(a, a)
  {
  }

  /** Congruent left sides are congruent to the same things. */
  lemma CongSwap(a: int, b: int, c: int)
    requires Cong(a, b)
    ensures Cong(a, c) <==> Cong(b, c)
  {
  }

  lemma CongNeg(a: int, b: int)
    requires Cong(a, b)
    ensures Cong(-a, -b)
  {
    hide Cong;
    CongScale(-1, a, b);
  }

  lemma CongScale(c: int, a: int, b: int)
    requires Cong(a, b)
    ensures Cong(c * a, c * b)
  {
    hide Cong;
    CongRefl(c);
    CongMul(c, c, a, b);
  }
}
