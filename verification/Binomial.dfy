/** The binomial distribution that binomial.go computes: terms, sums to one, and the convolution law. */
module Binomial {

  /** The binomial coefficient (big.Int.Binomial). */
  function Choose(n: nat, k: int): (r: nat) {
    if k < 0 then 0
    else if n == 0 then (if k == 0 then 1 else 0)
    else Choose(n - 1, k - 1) + Choose(n - 1, k)
  }

  lemma {:induction false} ChooseOutside(n: nat, k: int)
    requires k > n
    ensures Choose(n, k) == 0
  {
    if n > 0 {
      ChooseOutside(n - 1, k - 1);
      ChooseOutside(n - 1, k);
    }
  }

  function Factorial(n: nat): nat {
    if n == 0 then 1 else n * Factorial(n - 1)
  }

  /** n! / (k! (n-k)!), multiplied out. */
  lemma {:induction false} ChooseFormula(n: nat, k: nat)
    requires k <= n
    ensures Choose(n, k) * (Factorial(k) * Factorial(n - k)) == Factorial(n)
  {
    if k == 0 {
      ChooseNone(n);
    } else if k == n {
      ChooseAll(n);
    } else {
      ChooseFormula(n - 1, k - 1);
      ChooseFormula(n - 1, k);
      FactorialSplit(Choose(n - 1, k - 1), Choose(n - 1, k), k, n - k, Factorial(k - 1), Factorial(n - k - 1),
          Factorial(n - 1));
    }
  }

  lemma {:induction false} ChooseNone(n: nat)
    ensures Choose(n, 0) == 1
  {
    if n > 0 {
      ChooseNone(n - 1);
    }
  }

  lemma {:induction false} ChooseAll(n: nat)
    ensures Choose(n, n) == 1
  {
    if n > 0 {
      ChooseAll(n - 1);
      ChooseOutside(n - 1, n);
    }
  }

  lemma FactorialSplit(c: nat, c': nat, k: nat, m: nat, fk: nat, fm: nat, f: nat)
    requires c * (fk * (m * fm)) == f && c' * ((k * fk) * fm) == f
    ensures (c + c') * ((k * fk) * (m * fm)) == (k + m) * f
  {
    var w := fk * (m * fm);
    assert (k * fk) * (m * fm) == k * w;
    assert c * (k * w) == k * (c * w);
    var w' := (k * fk) * fm;
    assert (k * fk) * (m * fm) == m * w';
    assert c' * (m * w') == m * (c' * w');
    var z := (k * fk) * (m * fm);
    assert (c + c') * z == c * z + c' * z;
  }

  // ---------- powers of reals ----------

  ghost function Power(x: real, n: nat): real {
    if n == 0 then 1.0 else x * Power(x, n - 1)
  }

  lemma {:induction false} PowerOfOne(n: nat)
    ensures Power(1.0, n) == 1.0
  {
    if n > 0 {
      PowerOfOne(n - 1);
    }
  }

  lemma {:induction false} PowerSign(x: real, n: nat)
    requires x >= 0.0
    ensures Power(x, n) >= 0.0
    ensures x > 0.0 ==> Power(x, n) > 0.0
  {
    if n > 0 {
      PowerSign(x, n - 1);
    }
  }

  lemma {:induction false} PowerSum(x: real, m: nat, n: nat)
    ensures Power(x, m + n) == Power(x, m) * Power(x, n)
    decreases m
  {
    if m > 0 {
      PowerSum(x, m - 1, n);
      Associate(x, Power(x, m - 1), Power(x, n));
    }
  }

  lemma Associate(x: real, y: real, z: real)
    ensures x * (y * z) == (x * y) * z
  {
  }

  lemma {:induction false} PowerProduct(x: real, y: real, n: nat)
    ensures Power(x * y, n) == Power(x, n) * Power(y, n)
  {
    if n > 0 {
      PowerProduct(x, y, n - 1);
      Interchange(x, y, Power(x, n - 1), Power(y, n - 1));
    }
  }

  lemma Interchange(x: real, y: real, u: real, v: real)
    ensures (x * y) * (u * v) == (x * u) * (y * v)
  {
    var m := x * y;
    Associate(m, u, v);
    Associate(x, y, u);
    assert y * u == u * y;
    Associate(x, u, y);
    Associate(x * u, y, v);
  }

  // ---------- terms ----------

  /** C(n,k) a^k b^(n-k), and zero outside 0..n. */
  ghost function Term(n: nat, k: int, a: real, b: real): real {
    if 0 <= k <= n then Choose(n, k) as real * (Power(a, k) * Power(b, n - k)) else 0.0
  }

  lemma TermUp(n: nat, k: int, a: real, b: real)
    requires 0 <= k <= n + 1
    ensures a * Term(n, k - 1, a, b) == Choose(n, k - 1) as real * (Power(a, k) * Power(b, n + 1 - k))
  {
    hide Choose, Power;
    if k > 0 {
      PowerStep(a, k - 1);
      Regroup(a, Choose(n, k - 1) as real, Power(a, k - 1), Power(b, n + 1 - k));
    } else {
      ChooseBelow(n, k - 1);
    }
  }

  lemma TermSame(n: nat, k: int, a: real, b: real)
    requires 0 <= k <= n + 1
    ensures b * Term(n, k, a, b) == Choose(n, k) as real * (Power(a, k) * Power(b, n + 1 - k))
  {
    hide Choose, Power;
    if k <= n {
      PowerStep(b, n - k);
      var u, v, x := Power(b, n - k), Power(b, n + 1 - k), Power(a, k);
      Regroup(b, Choose(n, k) as real, u, x);
      assert u * x == x * u && v * x == x * v;
    } else {
      ChooseOutside(n, k);
    }
  }

  lemma PowerStep(x: real, n: nat)
    ensures Power(x, n + 1) == x * Power(x, n)
  {
  }

  lemma TermSplits(n: nat, k: int, a: real, b: real)
    requires 0 <= k <= n + 1
    ensures var z := Power(a, k) * Power(b, n + 1 - k);
            Term(n + 1, k, a, b) == Choose(n, k - 1) as real * z + Choose(n, k) as real * z
  {
    var z := Power(a, k) * Power(b, n + 1 - k);
    assert Choose(n + 1, k) == Choose(n, k - 1) + Choose(n, k);
    hide Choose, Power;
    SumTimes(Choose(n, k - 1), Choose(n, k), z);
  }

  lemma SumTimes(c: nat, d: nat, z: real)
    ensures (c + d) as real * z == c as real * z + d as real * z
  {
    var x, y := c as real, d as real;
    assert (x + y) * z == x * z + y * z;
  }

  /** Pascal's rule for terms. */
  lemma TermStep(n: nat, k: int, a: real, b: real)
    ensures Term(n + 1, k, a, b) == a * Term(n, k - 1, a, b) + b * Term(n, k, a, b)
  {
    if 0 <= k <= n + 1 {
      hide Choose, Power, Term;
      TermSplits(n, k, a, b);
      TermUp(n, k, a, b);
      TermSame(n, k, a, b);
    }
  }

  lemma ChooseBelow(n: nat, k: int)
    requires k < 0
    ensures Choose(n, k) == 0
  {
  }

  lemma Regroup(a: real, c: real, u: real, y: real)
    ensures a * (c * (u * y)) == c * ((a * u) * y)
  {
    Associate(a, c, u * y);
    Associate(c, a, u * y);
    Associate(a, u, y);
  }

  lemma TermSign(n: nat, k: int, a: real, b: real)
    requires a >= 0.0 && b >= 0.0
    ensures Term(n, k, a, b) >= 0.0
  {
    if 0 <= k <= n {
      PowerSign(a, k);
      PowerSign(b, n - k);
    }
  }

  // ---------- the binomial theorem ----------

  /** The sum of the terms 0..j. */
  ghost function SumTo(n: nat, j: int, a: real, b: real): real
    decreases if j < 0 then 0 else j + 1
  {
    if j < 0 then 0.0 else SumTo(n, j - 1, a, b) + Term(n, j, a, b)
  }

  lemma {:induction false} SumStep(n: nat, j: int, a: real, b: real)
    ensures SumTo(n + 1, j, a, b) == a * SumTo(n, j - 1, a, b) + b * SumTo(n, j, a, b)
    decreases if j < 0 then 0 else j + 1
  {
    hide Term;
    if j >= 0 {
      SumStep(n, j - 1, a, b);
      TermStep(n, j, a, b);
      var s, s', t, t' := SumTo(n, j - 2, a, b), SumTo(n, j - 1, a, b), Term(n, j - 1, a, b), Term(n, j, a, b);
      assert SumTo(n, j, a, b) == s' + t';
      Distribute(a, s, t);
      Distribute(b, s', t');
      if j == 0 {
        NoTerm(n, -1, a, b);
      }
    }
  }

  lemma NoTerm(n: nat, k: int, a: real, b: real)
    requires k < 0 || k > n
    ensures Term(n, k, a, b) == 0.0
  {
  }

  lemma Distribute(a: real, s: real, t: real)
    ensures a * (s + t) == a * s + a * t
  {
  }

  /** The terms 0..n sum to (a + b)^n. */
  lemma {:induction false} BinomialTheorem(n: nat, a: real, b: real)
    ensures SumTo(n, n, a, b) == Power(a + b, n)
  {
    if n == 0 {
      assert SumTo(0, 0, a, b) == SumTo(0, -1, a, b) + Term(0, 0, a, b);
    } else {
      hide Term;
      BinomialTheorem(n - 1, a, b);
      SumStep(n - 1, n, a, b);
      NoTerm(n - 1, n, a, b);
      var s := SumTo(n - 1, n - 1, a, b);
      assert a * s + b * s == (a + b) * s;
    }
  }

  lemma {:induction false} SumMonotone(n: nat, i: int, j: int, a: real, b: real)
    requires a >= 0.0 && b >= 0.0 && i <= j
    ensures 0.0 <= SumTo(n, i, a, b) <= SumTo(n, j, a, b)
    decreases if j < 0 then 0 else j + 1
  {
    hide Term;
    if j >= 0 {
      TermSign(n, j, a, b);
      if i < j {
        SumMonotone(n, i, j - 1, a, b);
      } else {
        SumMonotone(n, j - 1, j - 1, a, b);
      }
    }
  }

  // ---------- convolution ----------

  /** The sum over i in 0..j of Term(m, i) Term(n, k - i). */
  ghost function Convolve(m: nat, n: nat, k: int, j: int, a: real, b: real): real
    decreases if j < 0 then 0 else j + 1
  {
    if j < 0 then 0.0 else Convolve(m, n, k, j - 1, a, b) + Term(m, j, a, b) * Term(n, k - j, a, b)
  }

  lemma {:induction false} ConvolveStep(m: nat, n: nat, k: int, j: int, a: real, b: real)
    ensures Convolve(m + 1, n, k, j, a, b) == a * Convolve(m, n, k - 1, j - 1, a, b) + b * Convolve(m, n, k, j, a, b)
    decreases if j < 0 then 0 else j + 1
  {
    hide Term;
    if j >= 0 {
      ConvolveStep(m, n, k, j - 1, a, b);
      TermStep(m, j, a, b);
      var u, v, t := Term(m, j - 1, a, b), Term(m, j, a, b), Term(n, k - j, a, b);
      Combine(a, b, u, v, t);
      Distribute(a, Convolve(m, n, k - 1, j - 2, a, b), u * t);
      Distribute(b, Convolve(m, n, k, j - 1, a, b), v * t);
      if j == 0 {
        NoTerm(m, -1, a, b);
      }
    }
  }

  lemma Combine(a: real, b: real, u: real, v: real, t: real)
    ensures (a * u + b * v) * t == a * (u * t) + b * (v * t)
  {
    Associate(a, u, t);
    Associate(b, v, t);
    assert (a * u + b * v) * t == (a * u) * t + (b * v) * t;
  }

  /** A stake of m + n draws like independent stakes of m and n. */
  lemma {:induction false} Convolution(m: nat, n: nat, k: int, a: real, b: real)
    ensures Term(m + n, k, a, b) == Convolve(m, n, k, k, a, b)
    decreases m
  {
    hide Term, Convolve;
    if m == 0 {
      ConvolveZero(n, k, k, a, b);
      if k < 0 {
        NoTerm(n, k, a, b);
      }
    } else {
      Convolution(m - 1, n, k - 1, a, b);
      Convolution(m - 1, n, k, a, b);
      TermStep(m - 1 + n, k, a, b);
      ConvolveStep(m - 1, n, k, k, a, b);
    }
  }

  lemma {:induction false} ConvolveZero(n: nat, k: int, j: int, a: real, b: real)
    ensures Convolve(0, n, k, j, a, b) == if j < 0 then 0.0 else Term(n, k, a, b)
    decreases if j < 0 then 0 else j + 1
  {
    if j > 0 {
      ConvolveZero(n, k, j - 1, a, b);
      NoTerm(0, j, a, b);
    } else if j == 0 {
      assert Term(0, 0, a, b) == 1.0;
    }
  }
}
