/** subUsers of algorand.go: how many sub-users a VRF output selects. */
module Sortition {
  import opened Words
  import opened BitOps
  import opened Octets
  import opened CachedBinomial

  /** The VRF output as a fraction of 2^256. */
  ghost function Draw(vrf: seq<byte>): (h: real)
    ensures h >= 0.0
  {
    OS2IP(vrf) as real / Pow2(256) as real
  }

  /** How many k in 1..m have CDF(k) <= h. */
  ghost function Passed(n: nat, pn: int, pd: int, h: real, m: nat): (r: nat)
    requires pd > 0
    ensures r <= m
  {
    if m == 0 then 0
    else Passed(n, pn, pd, h, m - 1) + if CdfOf(n, pn, pd, m) <= h then 1 else 0
  }

  /** The k with CDF(k) <= h come first. */
  lemma {:induction false} PassedIsPrefix(n: nat, pn: int, pd: int, h: real, m: nat, j: nat)
    requires pd > 0 && 0 <= pn <= pd && j <= m
    requires j < m ==> h < CdfOf(n, pn, pd, j + 1)
    requires j > 0 ==> CdfOf(n, pn, pd, j) <= h
    ensures Passed(n, pn, pd, h, m) == j
    decreases m
  {
    hide CdfOf;
    if m > 0 {
      if j == m {
        if m > 1 {
          CdfMonotone(n, pn, pd, m - 1, m);
        }
        PassedIsPrefix(n, pn, pd, h, m - 1, m - 1);
      } else {
        CdfMonotone(n, pn, pd, j + 1, m);
        PassedIsPrefix(n, pn, pd, h, m - 1, j);
      }
    }
  }

  /** Which draws give j: an interval for every j. */
  lemma {:induction false} PassedBounds(n: nat, pn: int, pd: int, h: real, m: nat)
    requires pd > 0 && 0 <= pn <= pd
    ensures var j := Passed(n, pn, pd, h, m);
            && (j > 0 ==> CdfOf(n, pn, pd, j) <= h)
            && (j < m ==> h < CdfOf(n, pn, pd, j + 1))
  {
    hide CdfOf;
    if m > 0 {
      PassedBounds(n, pn, pd, h, m - 1);
      var j := Passed(n, pn, pd, h, m - 1);
      if j < m - 1 {
        CdfMonotone(n, pn, pd, j + 1, m);
      }
    }
  }

  /** The number of sub-users for a draw: none for draws from 1 on. */
  ghost function Selected(weight: nat, expected: int, total: int, h: real): (j: nat)
    requires total > 0
    ensures j <= weight
  {
    if h < 1.0 then Passed(weight, expected, total, h, weight) else 0
  }

  /** More is drawn by a larger hash. */
  lemma SelectedMonotone(weight: nat, expected: int, total: int, h: real, h': real)
    requires total > 0 && h <= h' < 1.0
    ensures Selected(weight, expected, total, h) <= Selected(weight, expected, total, h')
  {
    PassedMonotone(weight, expected, total, h, h', weight);
  }

  lemma {:induction false} PassedMonotone(n: nat, pn: int, pd: int, h: real, h': real, m: nat)
    requires pd > 0 && h <= h'
    ensures Passed(n, pn, pd, h, m) <= Passed(n, pn, pd, h', m)
    decreases m
  {
    if m > 0 {
      PassedMonotone(n, pn, pd, h, h', m - 1);
    }
  }

  /** Never the whole weight. */
  lemma SelectedBelowWeight(weight: nat, expected: int, total: int, h: real)
    requires total > 0 && 0 <= expected <= total && weight >= 1
    ensures Selected(weight, expected, total, h) <= weight - 1
  {
    hide CdfOf;
    if h < 1.0 {
      CdfBeyond(weight, expected, total, weight);
      PassedBounds(weight, expected, total, h, weight);
    }
  }

  /**
   The unit interval, cut where the number of sub-users changes: j >= 1 gets [CDF(j), CDF(j+1)), of length
   Prob(j+1), and 0 gets [0, CDF(1)), of length Prob(0) + Prob(1).
   */
  lemma SelectedIntervals(weight: nat, expected: int, total: int, h: real, j: nat)
    requires total > 0 && 0 <= expected <= total && weight >= 1 && 0.0 <= h < 1.0
    ensures var lo, hi := if j == 0 then 0.0 else CdfOf(weight, expected, total, j), CdfOf(weight, expected, total, j
            + 1);
            Selected(weight, expected, total, h) == j <==> j < weight && lo <= h < hi
    ensures CdfOf(weight, expected, total, 1) - 0.0 == ProbOf(weight, expected, total, 0) + ProbOf(weight, expected,
            total, 1)
    ensures CdfOf(weight, expected, total, j + 1) - CdfOf(weight, expected, total, j) == ProbOf(weight, expected,
            total, j + 1)
  {
    hide ProbOf;
    CdfStep(weight, expected, total, j + 1);
    CdfStep(weight, expected, total, 1);
    CdfStep(weight, expected, total, 0);
    var s := Selected(weight, expected, total, h);
    SelectedBelowWeight(weight, expected, total, h);
    PassedBounds(weight, expected, total, h, weight);
    if j < weight && (j == 0 || CdfOf(weight, expected, total, j) <= h) && h < CdfOf(weight, expected, total, j + 1) {
      PassedIsPrefix(weight, expected, total, h, weight, j);
    }
  }

  /** Whether the draw falls between CDF(k) and CDF(k+1). */
  ghost predicate Between(weight: nat, expected: int, total: int, h: real, k: int)
    requires total > 0
  {
    CdfOf(weight, expected, total, k) <= h < CdfOf(weight, expected, total, k + 1)
  }

  /** The first j from i to the weight such that the draw falls between CDF(j) and CDF(j+1), and 0 if there is none. */
  ghost function Search(weight: nat, expected: int, total: int, h: real, i: nat): (j: nat)
    requires total > 0
    ensures j <= weight
    decreases weight + 1 - i
  {
    if i > weight then 0
    else if Between(weight, expected, total, h, i) then i
    else Search(weight, expected, total, h, i + 1)
  }

  lemma {:induction false} SearchIsFirst(weight: nat, expected: int, total: int, h: real, i: nat, j: nat)
    requires total > 0 && i <= j <= weight + 1
    requires forall k :: i <= k < j ==> !Between(weight, expected, total, h, k)
    ensures j <= weight && Between(weight, expected, total, h, j) ==> Search(weight, expected, total, h, i) == j
    ensures j == weight + 1 ==> Search(weight, expected, total, h, i) == 0
    decreases j - i
  {
    hide Between;
    if i < j {
      SearchIsFirst(weight, expected, total, h, i + 1, j);
    }
  }

  /** With a proper probability there is at most one such j, and it is the number of k with CDF(k) <= h. */
  lemma Found(weight: nat, expected: int, total: int, h: real, j: nat)
    requires total > 0 && 0 <= expected <= total && j <= weight && Between(weight, expected, total, h, j)
    ensures Selected(weight, expected, total, h) == j
  {
    hide CdfOf;
    CdfMonotone(weight, expected, total, j, j + 1);
    if j == weight {
      CdfBeyond(weight, expected, total, weight);
    } else {
      PassedIsPrefix(weight, expected, total, h, weight, j);
    }
  }

  lemma SelectedIsBetween(weight: nat, expected: int, total: int, h: real)
    requires total > 0 && 0 <= expected <= total
    ensures var s := Selected(weight, expected, total, h); s == 0 || Between(weight, expected, total, h, s)
  {
    hide CdfOf;
    if Selected(weight, expected, total, h) > 0 {
      SelectedBelowWeight(weight, expected, total, h);
      PassedBounds(weight, expected, total, h, weight);
    }
  }

  lemma {:induction false} SearchFinds(weight: nat, expected: int, total: int, h: real, i: nat)
    requires total > 0 && 0 <= expected <= total
    requires Selected(weight, expected, total, h) == 0 || i <= Selected(weight, expected, total, h)
    ensures Search(weight, expected, total, h, i) == Selected(weight, expected, total, h)
    decreases weight + 1 - i
  {
    hide CdfOf, Selected, Between;
    SelectedIsBetween(weight, expected, total, h);
    if i <= weight {
      if Between(weight, expected, total, h, i) {
        Found(weight, expected, total, h, i);
      } else {
        SearchFinds(weight, expected, total, h, i + 1);
      }
    }
  }

  /** A draw is in the unit interval exactly when the VRF output has at most 256 bits. */
  lemma DrawInUnit(vrf: seq<byte>)
    ensures Draw(vrf) < 1.0 <==> OS2IP(vrf) < Pow2(256)
  {
    hide Pow2, OS2IP;
    Quotient(OS2IP(vrf), Pow2(256));
  }

  lemma Quotient(x: nat, m: nat)
    requires m > 0
    ensures x as real / m as real < 1.0 <==> x < m
  {
    var q, r := x as real / m as real, m as real;
    assert q * r == x as real;
  }

  /**
   The first j with CDF(j) <= hash < CDF(j+1), and 0 if there is none; where expectedNum/total is a probability, the
   number of k in 1..weight with CDF(k) <= hash.
   */
  method subUsers(expectedNum: int, weight: nat, total: int, vrf: seq<byte>) returns (j: nat)
    requires total > 0
    ensures j == Search(weight, expectedNum, total, Draw(vrf), 0)
    ensures 0 <= expectedNum <= total ==> j == Selected(weight, expectedNum, total, Draw(vrf))
  {
    hide Pow2, CdfOf, Passed, Selected, OS2IP;
    var binomial := new RegularBinomial(weight, expectedNum, total);
    var hashBig := OS2IP(vrf);
    var maxHash := Pow2(256);
    var hash := hashBig as real / maxHash as real;
    var lower: Rat?, upper: Rat? := null, null;
    j := 0;
    while j <= weight
      invariant j <= weight + 1 && fresh(binomial) && binomial.Valid()
      invariant binomial.N == weight && binomial.pn == expectedNum && binomial.pd == total
      invariant j > 0 ==> upper != null
      invariant upper != null ==> upper.value == CdfOf(weight, expectedNum, total, j)
      invariant Search(weight, expectedNum, total, hash, 0) == Search(weight, expectedNum, total, hash, j)
    {
      if upper != null {
        lower := upper;
      } else {
        lower := binomial.CDF(j);
      }
      upper := binomial.CDF(j + 1);
      if hash >= lower.value && hash < upper.value {
        break;
      }
      j := j + 1;
    }
    if j > weight {
      j := 0;
    }
    if 0 <= expectedNum <= total {
      SearchFinds(weight, expectedNum, total, hash, 0);
    }
  }
}
