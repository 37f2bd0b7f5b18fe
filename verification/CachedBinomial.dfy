/** RegularBinomial of binomial.go: the exact distribution, its caches, and its concurrent summation. */
module CachedBinomial {
  import opened Options
  import opened Binomial

  // ---------- the distribution ----------

  /** p = pn/pd and 1 - p. */
  ghost function Hit(pn: int, pd: int): real
    requires pd > 0
  {
    pn as real / pd as real
  }

  ghost function Miss(pn: int, pd: int): real
    requires pd > 0
  {
    (pd - pn) as real / pd as real
  }

  ghost function ProbOf(n: nat, pn: int, pd: int, k: int): real
    requires pd > 0
  {
    Term(n, k, Hit(pn, pd), Miss(pn, pd))
  }

  /** The sum of the probabilities 0..j. */
  ghost function CdfOf(n: nat, pn: int, pd: int, j: int): real
    requires pd > 0
  {
    SumTo(n, j, Hit(pn, pd), Miss(pn, pd))
  }

  lemma HitOrMiss(pn: int, pd: int)
    requires pd > 0
    ensures Hit(pn, pd) + Miss(pn, pd) == 1.0
    ensures 0 <= pn <= pd ==> Hit(pn, pd) >= 0.0 && Miss(pn, pd) >= 0.0
  {
    var x, y := pn as real, pd as real;
    assert (pd - pn) as real == y - x;
    assert x / y + (y - x) / y == 1.0;
  }

  /** The probabilities 0..n sum to one. */
  lemma ProbabilitiesSumToOne(n: nat, pn: int, pd: int)
    requires pd > 0
    ensures CdfOf(n, pn, pd, n) == 1.0
  {
    hide Hit, Miss, SumTo, Power;
    HitOrMiss(pn, pd);
    BinomialTheorem(n, Hit(pn, pd), Miss(pn, pd));
    PowerOfOne(n);
  }

  /** So the 1 that CDF returns from n on is the sum. */
  lemma {:induction false} CdfBeyond(n: nat, pn: int, pd: int, j: int)
    requires pd > 0 && j >= n
    ensures CdfOf(n, pn, pd, j) == 1.0
    decreases j
  {
    hide Hit, Miss, Term;
    if j == n {
      ProbabilitiesSumToOne(n, pn, pd);
    } else {
      CdfBeyond(n, pn, pd, j - 1);
      NoTerm(n, j, Hit(pn, pd), Miss(pn, pd));
    }
  }

  /** The distribution function is monotone within [0, 1]. */
  lemma CdfMonotone(n: nat, pn: int, pd: int, i: int, j: int)
    requires pd > 0 && 0 <= pn <= pd && i <= j
    ensures 0.0 <= CdfOf(n, pn, pd, i) <= CdfOf(n, pn, pd, j) <= 1.0
  {
    hide Hit, Miss, SumTo;
    HitOrMiss(pn, pd);
    var m := if j < n then n else j;
    SumMonotone(n, i, j, Hit(pn, pd), Miss(pn, pd));
    SumMonotone(n, j, m, Hit(pn, pd), Miss(pn, pd));
    CdfBeyond(n, pn, pd, m);
  }

  lemma CdfStep(n: nat, pn: int, pd: int, j: int)
    requires pd > 0 && j >= 0
    ensures CdfOf(n, pn, pd, j) == CdfOf(n, pn, pd, j - 1) + ProbOf(n, pn, pd, j)
  {
  }

  /** The sum over i in 0..j of the chance of i for a stake m and k - i for a stake n. */
  ghost function SplitChance(m: nat, n: nat, pn: int, pd: int, k: int, j: int): real
    requires pd > 0
    decreases if j < 0 then 0 else j + 1
  {
    if j < 0 then 0.0 else SplitChance(m, n, pn, pd, k, j - 1) + ProbOf(m, pn, pd, j) * ProbOf(n, pn, pd, k - j)
  }

  /** Splitting a stake m + n over two accounts does not change the distribution of the number of sub-users. */
  lemma {:induction false} SplittingGainsNothing(m: nat, n: nat, pn: int, pd: int, k: int)
    requires pd > 0
    ensures ProbOf(m + n, pn, pd, k) == SplitChance(m, n, pn, pd, k, k)
  {
    hide Term;
    Convolution(m, n, k, Hit(pn, pd), Miss(pn, pd));
    SplitIsConvolution(m, n, pn, pd, k, k);
  }

  lemma {:induction false} SplitIsConvolution(m: nat, n: nat, pn: int, pd: int, k: int, j: int)
    requires pd > 0
    ensures SplitChance(m, n, pn, pd, k, j) == Convolve(m, n, k, j, Hit(pn, pd), Miss(pn, pd))
    decreases if j < 0 then 0 else j + 1
  {
    hide Term, Hit, Miss;
    if j >= 0 {
      SplitIsConvolution(m, n, pn, pd, k, j - 1);
    }
  }

  // The documentation argues with B(k1 + k2; w1 + w2, p) = B(k1; w1, p) + B(k2; w2, p).

  lemma ProbOfNone(n: nat, pn: int, pd: int)
    requires pd > 0
    ensures ProbOf(n, pn, pd, 0) == Power(Miss(pn, pd), n)
  {
    hide Choose;
    ChooseNone(n);
  }

  lemma ProbOfAll(n: nat, pd: int)
    requires pd > 0
    ensures ProbOf(n, pd, pd, n) == 1.0
  {
    hide Choose;
    var y := pd as real;
    assert y / y == 1.0;
    assert Hit(pd, pd) == 1.0;
    ChooseAll(n);
    PowerOfOne(n);
  }

  /** q^(m+n) = q^m + q^n for 0 <= q <= 1 exactly when q = 0 and both exponents are positive. */
  lemma PowersAdd(q: real, m: nat, n: nat)
    requires 0.0 <= q <= 1.0
    ensures Power(q, m + n) == Power(q, m) + Power(q, n) <==> q == 0.0 && m > 0 && n > 0
  {
    PowerSum(q, m, n);
    PowerSign(q, m);
    PowerSign(q, n);
    PowerBelowOne(q, n);
    var x, y := Power(q, m), Power(q, n);
    assert q > 0.0 ==> x * y <= x < x + y by {
      if q > 0.0 {
        ScaledDown(x, y);
      }
    }
  }

  lemma ScaledDown(x: real, y: real)
    requires x >= 0.0 && y <= 1.0
    ensures x * y <= x
  {
    assert x * (1.0 - y) >= 0.0;
  }

  lemma {:induction false} PowerBelowOne(q: real, n: nat)
    requires 0.0 <= q <= 1.0
    ensures Power(q, n) <= 1.0
  {
    if n > 0 {
      PowerBelowOne(q, n - 1);
      PowerSign(q, n - 1);
      ScaledDown(q, Power(q, n - 1));
    }
  }

  /** At k1 = k2 = 0 the documented formula holds exactly for p = 1 and two positive stakes. */
  lemma SumFormulaAtZero(m: nat, n: nat, pn: int, pd: int)
    requires pd > 0 && 0 <= pn <= pd
    ensures ProbOf(m + n, pn, pd, 0) == ProbOf(m, pn, pd, 0) + ProbOf(n, pn, pd, 0) <==> pn == pd && m > 0 && n > 0
  {
    hide ProbOf, Power;
    ProbOfNone(m, pn, pd);
    ProbOfNone(n, pn, pd);
    ProbOfNone(m + n, pn, pd);
    MissRange(pn, pd);
    PowersAdd(Miss(pn, pd), m, n);
  }

  lemma MissRange(pn: int, pd: int)
    requires pd > 0 && 0 <= pn <= pd
    ensures 0.0 <= Miss(pn, pd) <= 1.0 && (Miss(pn, pd) == 0.0 <==> pn == pd)
  {
    var x, y := (pd - pn) as real, pd as real;
    assert x / y * y == x;
  }

  /** So it is a law for no two stakes and no p: it fails at 0 + 0 or, where p = 1, at m + n. */
  lemma SumFormulaIsNoLaw(m: nat, n: nat, pn: int, pd: int)
    requires pd > 0 && 0 <= pn <= pd
    ensures exists k, k' :: 0 <= k <= m && 0 <= k' <= n &&
                            ProbOf(m + n, pn, pd, k + k') != ProbOf(m, pn, pd, k) + ProbOf(n, pn, pd, k')
  {
    hide ProbOf;
    SumFormulaAtZero(m, n, pn, pd);
    if pn == pd && m > 0 && n > 0 {
      ProbOfAll(m, pd);
      ProbOfAll(n, pd);
      ProbOfAll(m + n, pd);
      assert ProbOf(m + n, pn, pd, m + n) != ProbOf(m, pn, pd, m) + ProbOf(n, pn, pd, n);
    } else {
      assert ProbOf(m + n, pn, pd, 0 + 0) != ProbOf(m, pn, pd, 0) + ProbOf(n, pn, pd, 0);
    }
  }

  // ---------- the fraction that Prob builds ----------

  function IntPower(x: int, n: nat): int {
    if n == 0 then 1 else x * IntPower(x, n - 1)
  }

  lemma {:induction false} IntPowerSum(x: int, m: nat, n: nat)
    ensures IntPower(x, m + n) == IntPower(x, m) * IntPower(x, n)
    decreases m
  {
    if m > 0 {
      IntPowerSum(x, m - 1, n);
      var u, v := IntPower(x, m - 1), IntPower(x, n);
      assert x * (u * v) == (x * u) * v;
    }
  }

  lemma {:induction false} IntPowerAsReal(x: int, n: nat)
    ensures IntPower(x, n) as real == Power(x as real, n)
  {
    if n > 0 {
      IntPowerAsReal(x, n - 1);
      ProductAsReal(x, IntPower(x, n - 1));
    }
  }

  lemma ProductAsReal(x: int, y: int)
    ensures (x * y) as real == x as real * y as real
  {
  }

  /** x^n = (x/d)^n d^n */
  lemma PowerOfFraction(x: int, d: int, n: nat)
    requires d > 0
    ensures IntPower(x, n) as real == Power(x as real / d as real, n) * Power(d as real, n)
  {
    hide Power, IntPower;
    IntPowerAsReal(x, n);
    PowerOfQuotient(x as real, d as real, x as real / d as real, n);
  }

  lemma PowerOfQuotient(x: real, d: real, f: real, n: nat)
    requires f * d == x
    ensures Power(x, n) == Power(f, n) * Power(d, n)
  {
    PowerProduct(f, d, n);
  }

  lemma Cancels(u: real, v: real, w: real, x: real, y: real)
    requires w > 0.0 && v * y == w
    ensures ((u * v) * (x * y)) / w == u * x
  {
    Interchange(u, v, x, y);
    assert (u * x) * w / w == u * x;
  }

  lemma FractionIsTerm(n: nat, k: nat, pn: int, pd: int)
    requires pd > 0 && k <= n
    ensures IntPower(pd, n) > 0
    ensures (IntPower(pn, k) * IntPower(pd - pn, n - k)) as real / IntPower(pd, n) as real
            == Power(Hit(pn, pd), k) * Power(Miss(pn, pd), n - k)
  {
    hide Power, IntPower;
    var d := pd as real;
    IntPowerAsReal(pd, n);
    PowerSign(d, n);
    PowerOfFraction(pn, pd, k);
    PowerOfFraction(pd - pn, pd, n - k);
    PowerSum(d, k, n - k);
    CancelsInts(IntPower(pn, k), IntPower(pd - pn, n - k), IntPower(pd, n), Power(Hit(pn, pd), k), Power(d, k),
                Power(Miss(pn, pd), n - k), Power(d, n - k));
  }

  lemma CancelsInts(a: int, b: int, w: int, u: real, v: real, x: real, y: real)
    requires a as real == u * v && b as real == x * y && w as real == v * y && w > 0
    ensures (a * b) as real / w as real == u * x
  {
    ProductAsReal(a, b);
    Cancels(u, v, w as real, x, y);
  }

  lemma FirstPowers(x: int)
    ensures IntPower(x, 0) == 1 && IntPower(x, 1) == x && IntPower(x, 2) == x * x
  {
    assert IntPower(x, 1) == x * IntPower(x, 0);
    assert IntPower(x, 2) == x * IntPower(x, 1);
  }

  function Fraction(n: nat, k: int, lnum: int, rnum: int, denom: int): real
    requires denom != 0
  {
    Choose(n, k) as real * ((lnum * rnum) as real / denom as real)
  }

  lemma FractionIsProb(n: nat, k: nat, pn: int, pd: int)
    requires pd > 0 && k <= n
    ensures IntPower(pd, n) != 0
    ensures Fraction(n, k, IntPower(pn, k), IntPower(pd - pn, n - k), IntPower(pd, n)) == ProbOf(n, pn, pd, k)
  {
    hide Power, IntPower, Choose, Hit, Miss;
    FractionIsTerm(n, k, pn, pd);
  }

  // ---------- sums in any order ----------

  /** The probabilities of the members of pending in lo..hi. */
  ghost function SumOver(n: nat, pn: int, pd: int, pending: set<int>, lo: int, hi: int): real
    requires pd > 0
    decreases if hi < lo then 0 else hi - lo + 1
  {
    if hi < lo then 0.0
    else SumOver(n, pn, pd, pending, lo, hi - 1) + if hi in pending then ProbOf(n, pn, pd, hi) else 0.0
  }

  lemma {:induction false} SumOverRemove(n: nat, pn: int, pd: int, pending: set<int>, lo: int, hi: int, i: int)
    requires pd > 0 && i in pending
    ensures SumOver(n, pn, pd, pending - {i}, lo, hi)
            == SumOver(n, pn, pd, pending, lo, hi) - if lo <= i <= hi then ProbOf(n, pn, pd, i) else 0.0
    decreases if hi < lo then 0 else hi - lo + 1
  {
    hide ProbOf;
    if lo <= hi {
      SumOverRemove(n, pn, pd, pending, lo, hi - 1, i);
    }
  }

  lemma {:induction false} SumOverAll(n: nat, pn: int, pd: int, pending: set<int>, lo: nat, hi: int)
    requires pd > 0 && lo <= hi + 1 && forall i :: lo <= i <= hi ==> i in pending
    ensures CdfOf(n, pn, pd, lo - 1) + SumOver(n, pn, pd, pending, lo, hi) == CdfOf(n, pn, pd, hi)
    decreases hi - lo + 1
  {
    hide ProbOf, CdfOf;
    if lo <= hi {
      SumOverAll(n, pn, pd, pending, lo, hi - 1);
      CdfStep(n, pn, pd, hi);
    }
  }

  lemma {:induction false} SumOverNone(n: nat, pn: int, pd: int, lo: int, hi: int)
    requires pd > 0
    ensures SumOver(n, pn, pd, {}, lo, hi) == 0.0
    decreases if hi < lo then 0 else hi - lo + 1
  {
    if lo <= hi {
      SumOverNone(n, pn, pd, lo, hi - 1);
    }
  }

  lemma SomeMember(pending: set<int>)
    ensures pending == {} || exists i :: i in pending
  {
    if forall i :: i !in pending {
      assert pending == {};
    }
  }

  // ---------- the object ----------

  /** A big.Rat, which Add updates in place. */
  class Rat {
    var value: real

    constructor (value: real)
      ensures this.value == value
    {
      this.value := value;
    }

    method Add(x: Rat, y: Rat)
      modifies this
      ensures value == old(x.value) + old(y.value)
    {
      value := x.value + y.value;
    }
  }

  class RegularBinomial {
    const N: nat
    const pn: int
    const pd: int
    var pnExpCache: map<nat, int>
    var tpnExpCache: map<nat, int>
    var probCache: map<int, Rat>
    var cdfCache: map<int, Rat>
    var resDenomCache: Option<int>

    constructor (n: nat, pn: int, pd: int)
      requires pd > 0
      ensures Valid() && N == n && this.pn == pn && this.pd == pd
      ensures probCache == map[] && cdfCache == map[]
    {
      N, this.pn, this.pd := n, pn, pd;
      pnExpCache, tpnExpCache, probCache, cdfCache, resDenomCache := map[], map[], map[], map[], None;
    }

    /** Every cached number is the one it stands for. */
    ghost predicate Valid()
      reads this, probCache.Values, cdfCache.Values
    {
      && pd > 0
      && Powers(pnExpCache, pn) && Powers(tpnExpCache, pd - pn)
      && (resDenomCache.Some? ==> resDenomCache.value == IntPower(pd, N))
      && (forall k :: k in probCache ==> probCache[k].value == ProbOf(N, pn, pd, k))
      && (forall j :: j in cdfCache ==> cdfCache[j].value == CdfOf(N, pn, pd, j))
    }

    static ghost predicate Powers(cache: map<nat, int>, x: int) {
      forall y :: y in cache ==> cache[y] == IntPower(x, y)
    }

    /** Entries are only added: what was cached stays, as the same object. */
    twostate predicate Grows()
      reads this
    {
      && (forall y :: y in old(pnExpCache) ==> y in pnExpCache && pnExpCache[y] == old(pnExpCache)[y])
      && (forall y :: y in old(tpnExpCache) ==> y in tpnExpCache && tpnExpCache[y] == old(tpnExpCache)[y])
      && (forall k :: k in old(probCache) ==> k in probCache && probCache[k] == old(probCache)[k])
      && (forall j :: j in old(cdfCache) ==> j in cdfCache && cdfCache[j] == old(cdfCache)[j])
      && (old(resDenomCache).Some? ==> resDenomCache == old(resDenomCache))
    }

    /**
     x^y. The source splits y at the floor of its square root; any split 1 <= ly < y will do, and y decreases.
     */
    method Exp(x: int, y: nat) returns (r: int)
      requires Valid()
      modifies this
      ensures Valid() && Grows() && r == IntPower(x, y)
      ensures probCache == old(probCache) && cdfCache == old(cdfCache) && resDenomCache == old(resDenomCache)
      decreases y
    {
      hide IntPower, ProbOf, CdfOf;
      if y == 0 {
        FirstPowers(x);
        return 1;
      }
      if y == 1 {
        FirstPowers(x);
        return x;
      }
      var cached := Lookup(x, y);
      if cached.Some? {
        return cached.value;
      }
      if y == 2 {
        FirstPowers(x);
        r := x * x;
      } else {
        var ly: nat :| 1 <= ly < y;
        var left := Exp(x, ly);
        var right := Exp(x, y - ly);
        IntPowerSum(x, ly, y - ly);
        r := left * right;
      }
      Remember(x, y, r);
    }

    /** The cache of pn, or that of pd - pn, if x is one of them. */
    function Lookup(x: int, y: nat): (r: Option<int>)
      requires Valid()
      reads this, probCache.Values, cdfCache.Values
      ensures r.Some? ==> r.value == IntPower(x, y)
    {
      if x == pn then
        if y in pnExpCache then Some(pnExpCache[y]) else None
      else if x == pd - pn && y in tpnExpCache then Some(tpnExpCache[y])
      else None
    }

    method Remember(x: int, y: nat, r: int)
      requires Valid() && r == IntPower(x, y)
      modifies this
      ensures Valid() && Grows()
      ensures probCache == old(probCache) && cdfCache == old(cdfCache) && resDenomCache == old(resDenomCache)
    {
      hide IntPower, ProbOf, CdfOf;
      if x == pn {
        pnExpCache := pnExpCache[y := r];
      } else if x == pd - pn {
        tpnExpCache := tpnExpCache[y := r];
      }
    }

    method resDenom() returns (r: int)
      requires Valid()
      modifies this
      ensures Valid() && Grows() && r == IntPower(pd, N)
      ensures probCache == old(probCache) && cdfCache == old(cdfCache)
    {
      if resDenomCache.Some? {
        return resDenomCache.value;
      }
      r := Exp(pd, N);
      resDenomCache := Some(r);
    }

    method Prob(k: int) returns (r: Rat)
      requires Valid() && 0 <= k <= N
      modifies this
      ensures Valid() && Grows() && cdfCache == old(cdfCache)
      ensures k in probCache && r == probCache[k] && r.value == ProbOf(N, pn, pd, k)
      ensures forall o :: o in probCache.Values ==> o in old(probCache.Values) || fresh(o)
    {
      hide IntPower, ProbOf, CdfOf, Fraction;
      if k in probCache {
        return probCache[k];
      }
      var lnum := Exp(pn, k);
      var rnum := Exp(pd - pn, N - k);
      var denom := resDenom();
      FractionIsProb(N, k, pn, pd);
      r := new Rat(Fraction(N, k, lnum, rnum, denom));
      probCache := probCache[k := r];
    }

    /** The largest cached k below j, or -1. */
    method LastCached(j: int) returns (k: int)
      requires j >= 0
      ensures -1 <= k < j && (k >= 0 ==> k in cdfCache)
    {
      k := j - 1;
      while k >= 0
        invariant -1 <= k < j
      {
        if k in cdfCache {
          return;
        }
        k := k - 1;
      }
    }

    /** Adds the probabilities of lo..j to res, in whatever order they arrive. */
    method Collect(res: Rat, lo: nat, j: int)
      requires Valid() && lo <= j + 1 && j < N && res.value == CdfOf(N, pn, pd, lo - 1)
      requires res !in probCache.Values && res !in cdfCache.Values
      modifies this, res
      ensures Valid() && Grows() && cdfCache == old(cdfCache) && res !in probCache.Values
      ensures res.value == CdfOf(N, pn, pd, j)
    {
      hide ProbOf, CdfOf, SumOver, Powers;
      var pending: set<int> := {};
      for k := lo to j + 1
        invariant forall i :: i in pending <==> lo <= i < k
      {
        pending := pending + {k};
      }
      SumOverAll(N, pn, pd, pending, lo, j);
      while pending != {}
        invariant Valid() && Grows() && cdfCache == old(cdfCache) && res !in probCache.Values
        invariant forall i :: i in pending ==> lo <= i <= j
        invariant res.value + SumOver(N, pn, pd, pending, lo, j) == CdfOf(N, pn, pd, j)
        decreases |pending|
      {
        SomeMember(pending);
        var i :| i in pending;
        var rat := Prob(i);
        SumOverRemove(N, pn, pd, pending, lo, j, i);
        pending := pending - {i};
        res.Add(res, rat);
      }
      SumOverNone(N, pn, pd, lo, j);
    }

    method CDF(j: int) returns (r: Rat)
      requires Valid()
      modifies this
      ensures Valid() && Grows() && r.value == CdfOf(N, pn, pd, j)
    {
      hide ProbOf, Powers;
      if j < 0 {
        return new Rat(0.0);
      }
      if j >= N {
        CdfBeyond(N, pn, pd, j);
        return new Rat(1.0);
      }
      if j in cdfCache {
        return cdfCache[j];
      }
      var k := LastCached(j);
      r := new Rat(if k >= 0 then cdfCache[k].value else 0.0);
      Collect(r, k + 1, j);
      cdfCache := cdfCache[j := r];
    }
  }
}
