/**
 Signed-digit recodings of scalars in vrf/edwards25519/edwards25519.go. The in-place recoding of
 slide is shown to be the width-5 non-adjacent form.
 */
module Recoding {
  import opened Words
  import opened BitOps
  import opened ByteStrings
  import opened Division

  // ---------- digit strings ----------

  /** The value of the digits from index i up, in units of 2^i. */
  ghost function Digits(r: seq<int8>, i: nat): int
    requires i <= |r|
    decreases |r| - i
  {
    if i == |r| then 0 else r[i] as int + 2 * Digits(r, i + 1)
  }

  lemma {:induction false} DigitsSame(r: seq<int8>, s: seq<int8>, i: nat)
    requires |r| == |s| && i <= |r|
    requires forall k :: i <= k < |r| ==> r[k] == s[k]
    ensures Digits(r, i) == Digits(s, i)
    decreases |r| - i
  {
    if i < |r| {
      DigitsSame(r, s, i + 1);
    }
  }

  lemma {:induction false} DigitsZero(r: seq<int8>, i: nat)
    requires i <= |r| && forall k :: i <= k < |r| ==> r[k] == 0
    ensures Digits(r, i) == 0
    decreases |r| - i
  {
    if i < |r| {
      DigitsZero(r, i + 1);
    }
  }

  /** Zeros from i to j only shift what is above. */
  lemma {:induction false} DigitsSkip(r: seq<int8>, i: nat, j: nat)
    requires i <= j <= |r| && forall k :: i <= k < j ==> r[k] == 0
    ensures Digits(r, i) == Pow2(j - i) * Digits(r, j)
    decreases j - i
  {
    if i < j {
      DigitsSkip(r, i + 1, j);
    }
  }

  predicate IsBit(x: int8) {
    x == 0 || x == 1
  }

  // ---------- the width-5 non-adjacent form ----------

  /** The digit of an odd number is its residue modulo 32 that is closest to zero; of an even number, zero. */
  function NafDigit(x: int): (d: int)
    ensures -15 <= d <= 15 && (x - d) % 2 == 0
    ensures x % 2 == 1 ==> (x - d) % 32 == 0
  {
    if x % 2 == 0 then 0 else if x % 32 < 16 then x % 32 else x % 32 - 32
  }

  /** What is left of a after i digits. */
  function NafRest(a: int, i: nat): int {
    if i == 0 then a else var x := NafRest(a, i - 1); (x - NafDigit(x)) / 2
  }

  /** a < 2^n leaves at most 2^(n-i) after i digits, so at most 1 after n and nothing after n + 1. */
  lemma {:induction false} NafRestShrinks(a: nat, n: nat, i: nat)
    requires a < Pow2(n) && i <= n
    ensures 0 <= NafRest(a, i) <= Pow2(n - i)
    ensures i == n ==> NafRest(a, n + 1) == 0
  {
    if i > 0 {
      NafRestShrinks(a, n, i - 1);
      NafStepShrinks(NafRest(a, i - 1), n - i + 1);
    }
    if i == n {
      var x := NafRest(a, n);
      assert NafRest(a, n + 1) == (x - NafDigit(x)) / 2;
      hide NafRest;
      assert x == 0 || x == 1;
    }
  }

  lemma NafStepShrinks(x: nat, m: nat)
    requires x <= Pow2(m) && m > 0
    ensures 0 <= (x - NafDigit(x)) / 2 <= Pow2(m - 1)
  {
    SmallPowers();
    assert Pow2(m) == 2 * Pow2(m - 1);
    if m >= 5 {
      Pow2Adds(5, m - 5);
      hide Pow2;
      LargeStep(x, Pow2(m - 5));
    }
  }

  /** Rounding to the nearest multiple of 32 does not pass a multiple of 32. */
  lemma LargeStep(x: nat, c: nat)
    requires x <= 32 * c
    ensures 0 <= x - NafDigit(x) <= 32 * c
  {
    var y := x - NafDigit(x);
    if x % 2 == 1 {
      assert y == 32 * (y / 32);
    }
  }

  /** A string that starts with an odd digit of at most 15 and four zeros starts with its non-adjacent digit. */
  lemma NafUnique(x: int, d: int, y: int)
    requires x == d + 32 * y && -15 <= d <= 15 && d % 2 == 1
    ensures NafDigit(x) == d
  {
  }

  // ---------- slide ----------

  /** 1 & (a[i>>3] >> (i&7)) */
  function BitOf(a: seq<byte>, i: nat): (b: int8)
    requires i / 8 < |a|
    ensures IsBit(b)
  {
    ((a[i / 8] as int / Pow2(i % 8)) % 2) as int8
  }

  lemma ByteBits(x: int)
    requires 0 <= x < 0x100
    ensures x == x % 2 + 2 * (x / 2 % 2) + 4 * (x / 4 % 2) + 8 * (x / 8 % 2)
                 + 16 * (x / 16 % 2) + 32 * (x / 32 % 2) + 64 * (x / 64 % 2) + 128 * (x / 128 % 2)
  {
    Halves(x, 2);
    Halves(x, 4);
    Halves(x, 8);
    Halves(x, 16);
    Halves(x, 32);
    Halves(x, 64);
    assert x / 64 / 2 % 2 == x / 128;
  }

  lemma Halves(x: int, m: int)
    requires m > 0
    ensures x / m == 2 * (x / (m * 2)) + x / m % 2
  {
    DivDiv(x, m, 2);
  }

  lemma EightDigits(r: seq<int8>, i: nat)
    requires i + 8 <= |r|
    ensures Digits(r, i) == r[i] as int + 2 * r[i + 1] as int + 4 * r[i + 2] as int + 8 * r[i + 3] as int
                            + 16 * r[i + 4] as int + 32 * r[i + 5] as int + 64 * r[i + 6] as int + 128 * r[i + 7] as int
                            + 256 * Digits(r, i + 8)
  {
    assert Digits(r, i + 2) == r[i + 2] as int + 2 * (r[i + 3] as int + 2 * Digits(r, i + 4));
    assert Digits(r, i + 4) == r[i + 4] as int + 2 * (r[i + 5] as int + 2 * Digits(r, i + 6));
    assert Digits(r, i + 6) == r[i + 6] as int + 2 * (r[i + 7] as int + 2 * Digits(r, i + 8));
  }

  lemma {:induction false} BitsValue(r: seq<int8>, a: seq<byte>, j: nat)
    requires |r| == 8 * |a| && j <= |a|
    requires forall k {:trigger r[k]} :: 0 <= k < |r| ==> r[k] == BitOf(a, k)
    ensures Digits(r, 8 * j) == LeAt(a, j, |a| - j)
    decreases |a| - j
  {
    if j < |a| {
      BitsValue(r, a, j + 1);
      BytePrefix(r, a, j);
    }
  }

  lemma BytePrefix(r: seq<int8>, a: seq<byte>, j: nat)
    requires |r| == 8 * |a| && j < |a|
    requires forall k {:trigger r[k]} :: 0 <= k < |r| ==> r[k] == BitOf(a, k)
    ensures Digits(r, 8 * j) == a[j] as int + 256 * Digits(r, 8 * j + 8)
  {
    hide Digits, BitOf;
    EightDigits(r, 8 * j);
    ByteBits(a[j] as int);
    BitsOfByte(a, j);
  }

  lemma BitsOfByte(a: seq<byte>, j: nat)
    requires j < |a|
    ensures var x := a[j] as int;
            && BitOf(a, 8 * j) as int == x % 2 && BitOf(a, 8 * j + 1) as int == x / 2 % 2
            && BitOf(a, 8 * j + 2) as int == x / 4 % 2 && BitOf(a, 8 * j + 3) as int == x / 8 % 2
            && BitOf(a, 8 * j + 4) as int == x / 16 % 2 && BitOf(a, 8 * j + 5) as int == x / 32 % 2
            && BitOf(a, 8 * j + 6) as int == x / 64 % 2 && BitOf(a, 8 * j + 7) as int == x / 128 % 2
  {
    hide Pow2;
    SmallPowers();
  }

  /**
   Adds one at index start, where the digit is 1: the run of ones becomes zeros and the next zero one.
   The carry is lost when the run reaches the end.
   */
  method Increment(r: array<int8>, start: nat) returns (ghost lost: int)
    requires start < r.Length && r[start] == 1
    requires forall k :: start <= k < r.Length ==> IsBit(r[k])
    modifies r
    ensures forall k :: 0 <= k < start ==> r[k] == old(r[k])
    ensures r[start] == 0 && forall k :: start <= k < r.Length ==> IsBit(r[k])
    ensures 0 <= lost <= 1
    ensures lost == 1 ==> forall k :: start <= k < r.Length ==> r[k] == 0
    ensures Digits(r[..], start) + Pow2(r.Length - start) * lost == old(Digits(r[..], start)) + 1
  {
    ghost var before := r[..];
    var k := start;
    lost := 1;
    while k < r.Length
      invariant start <= k <= r.Length
      invariant k == start ==> r[..] == before
      invariant k > start ==> r[start] == 0
      invariant forall m :: 0 <= m < start ==> r[m] == before[m]
      invariant forall m :: start <= m < k ==> r[m] == 0 && before[m] == 1
      invariant forall m :: k <= m < r.Length ==> r[m] == before[m]
      invariant lost == 1
    {
      if r[k] == 0 {
        r[k] := 1;
        lost := 0;
        Incremented(before, r[..], start, k);
        return;
      }
      r[k] := 0;
      k := k + 1;
    }
    DigitsZero(r[..], start);
    OnesValue(before, start, r.Length);
  }

  lemma {:induction false} OnesValue(r: seq<int8>, i: nat, j: nat)
    requires i <= j <= |r| && forall k :: i <= k < j ==> r[k] == 1
    ensures Digits(r, i) + 1 == Pow2(j - i) * (Digits(r, j) + 1)
    decreases j - i
  {
    if i < j {
      OnesValue(r, i + 1, j);
    }
  }

  lemma Incremented(r: seq<int8>, s: seq<int8>, start: nat, k: nat)
    requires |r| == |s| && start <= k < |r|
    requires forall m :: start <= m < k ==> r[m] == 1 && s[m] == 0
    requires r[k] == 0 && s[k] == 1
    requires forall m :: k < m < |r| ==> r[m] == s[m]
    ensures Digits(s, start) == Digits(r, start) + 1
  {
    OnesValue(r, start, k);
    DigitsSkip(s, start, k);
    DigitsSame(r, s, k + 1);
  }

  /** With zeros in between, the digits from i are digit i and, 2^b times, the digits from i + b. */
  lemma HeadAndRest(r: seq<int8>, i: nat, b: nat)
    requires b > 0 && i + b <= |r| && forall k :: i < k < i + b ==> r[k] == 0
    ensures Digits(r, i) == r[i] as int + Pow2(b) * Digits(r, i + b)
  {
    DigitsSkip(r, i + 1, i + b);
    assert Digits(r, i) == r[i] as int + 2 * Digits(r, i + 1) && Pow2(b) == 2 * Pow2(b - 1);
    hide Digits, Pow2;
    var m, x := Pow2(b - 1), Digits(r, i + b);
    assert (2 * m) * x == 2 * (m * x);
  }

  /** x << b, for a bit x and b <= 6. */
  function ShiftBit(x: int8, b: nat): (r: int8)
    requires IsBit(x) && 1 <= b <= 6
    ensures r as int == x as int * Pow2(b)
  {
    SmallPowers();
    (x as int * Pow2(b)) as int8
  }

  lemma Absorbed(s: seq<int8>, t: seq<int8>, i: nat, b: nat)
    requires b > 0 && i + b < |s| && |t| == |s|
    requires forall k :: i < k < i + b ==> s[k] == 0 && t[k] == 0
    requires s[i + b] == 1 && t[i + b] == 0 && t[i] as int == s[i] as int + Pow2(b)
    requires forall k :: i + b < k < |s| ==> s[k] == t[k]
    ensures Digits(t, i) == Digits(s, i)
  {
    HeadAndRest(s, i, b);
    HeadAndRest(t, i, b);
    DigitsSame(s, t, i + b + 1);
    var m, x := Pow2(b), Digits(s, i + b + 1);
    assert m * (1 + 2 * x) == m + m * (2 * x);
  }

  lemma Borrowed(s: seq<int8>, t: seq<int8>, i: nat, b: nat, lost: int)
    requires b > 0 && i + b < |s| && |t| == |s|
    requires forall k :: i < k < i + b ==> s[k] == 0 && t[k] == 0
    requires t[i] as int == s[i] as int - Pow2(b)
    requires Digits(t, i + b) + Pow2(|s| - i - b) * lost == Digits(s, i + b) + 1
    ensures Digits(t, i) + Pow2(|s| - i) * lost == Digits(s, i)
  {
    hide Digits, Pow2;
    HeadAndRest(s, i, b);
    HeadAndRest(t, i, b);
    Pow2Adds(b, |s| - i - b);
    var m, y, z, w := Pow2(b), Digits(s, i + b), Digits(t, i + b), Pow2(|s| - i - b);
    assert z == y + 1 - w * lost;
    assert m * z == m * y + m - m * (w * lost);
    assert m * (w * lost) == (m * w) * lost;
  }

  /** The body of the outer loop of slide at a nonzero digit: digits i+1 to i+4 are absorbed into digit i. */
  method Window(r: array<int8>, i: nat) returns (ghost lost: int)
    requires r.Length == 256 && i < 256 && r[i] == 1
    requires forall k :: i < k < 256 ==> IsBit(r[k])
    modifies r
    ensures forall k :: 0 <= k < i ==> r[k] == old(r[k])
    ensures -15 <= r[i] <= 15 && r[i] as int % 2 == 1
    ensures forall k :: i < k < 256 ==> IsBit(r[k])
    ensures forall k :: i < k <= i + 4 && k < 256 ==> r[k] == 0
    ensures lost == 0 || (lost == 1 && i + 4 < 256 && forall k :: i < k < 256 ==> r[k] == 0)
    ensures Digits(r[..], i) + Pow2(256 - i) * lost == old(Digits(r[..], i))
  {
    hide Digits, Pow2;
    SmallPowers();
    lost := 0;
    ghost var v := Digits(r[..], i);
    var b := 1;
    while b <= 6 && i + b < 256
      invariant 1 <= b <= 7 && i + b <= 256
      invariant b <= 4 ==> 0 < r[i] as int < Pow2(b) && lost == 0
      invariant -15 <= r[i] <= 15 && r[i] as int % 2 == 1
      invariant forall k :: 0 <= k < i ==> r[k] == old(r[k])
      invariant forall k :: i < k < 256 ==> IsBit(r[k])
      invariant forall k :: i < k < i + b ==> r[k] == 0
      invariant lost == 0 || (lost == 1 && i + 4 < 256 && forall k :: i < k < 256 ==> r[k] == 0)
      invariant Digits(r[..], i) + Pow2(256 - i) * lost == v
    {
      if r[i + b] != 0 {
        ghost var before := r[..];
        var shifted := ShiftBit(r[i + b], b);
        if r[i] + shifted <= 15 {
          r[i] := r[i] + shifted;
          r[i + b] := 0;
          Absorbed(before, r[..], i, b);
        } else if r[i] - shifted >= -15 {
          r[i] := r[i] - shifted;
          ghost var middle := r[..];
          lost := Increment(r, i + b);
          DigitsSame(before, middle, i + b);
          Borrowed(before, r[..], i, b, lost);
        } else {
          break;
        }
      }
      b := b + 1;
    }
  }

  /** Nonzero digits of the non-adjacent form are at least five places apart. */
  lemma NafSparse(a: int, i: nat, j: nat)
    requires NafDigit(NafRest(a, i)) != 0 && i < j <= i + 4
    ensures NafDigit(NafRest(a, j)) == 0
  {
    hide NafDigit, NafRest;
    var y := NafRest(a, i + 1);
    NafAfterOdd(a, i);
    NafHalves(a, i + 1, y);
    NafHalves(a, i + 2, y / 2);
    NafHalves(a, i + 3, y / 4);
    NafHalves(a, i + 4, y / 8);
  }

  lemma NafAfterOdd(a: int, i: nat)
    requires NafDigit(NafRest(a, i)) != 0
    ensures NafRest(a, i + 1) % 16 == 0
  {
    var x := NafRest(a, i);
    var y := x - NafDigit(x);
    assert NafRest(a, i + 1) == y / 2;
    hide NafRest;
    assert y % 32 == 0;
    hide NafDigit;
    HalfOf32(y);
  }

  lemma HalfOf32(y: int)
    requires y % 32 == 0
    ensures y / 2 % 16 == 0
  {
    var k := y / 32;
    assert y == 32 * k && y / 2 == 16 * k;
  }

  lemma NafHalves(a: int, i: nat, x: int)
    requires NafRest(a, i) == x && x % 2 == 0
    ensures NafDigit(x) == 0 && NafRest(a, i + 1) == x / 2
  {
  }

  /** What the digits before i leave over is what the digits from i stand for. */
  ghost predicate Suffix(r: seq<int8>, i: nat, lost: int, a: int)
    requires |r| == 256 && i <= 256
  {
    Digits(r, i) + Pow2(256 - i) * lost == NafRest(a, i)
  }

  lemma ZeroDigitStep(r: seq<int8>, i: nat, lost: int, a: int)
    requires |r| == 256 && i < 256 && r[i] == 0 && Suffix(r, i, lost, a)
    ensures NafDigit(NafRest(a, i)) == 0
    ensures Suffix(r, i + 1, lost, a)
  {
    hide NafRest, NafDigit;
    var x := NafRest(a, i);
    var y := Digits(r, i + 1) + Pow2(255 - i) * lost;
    assert Pow2(256 - i) * lost == 2 * (Pow2(255 - i) * lost);
    assert x == 2 * y;
    hide Pow2, Digits;
    NafHalves(a, i, x);
  }

  lemma OddDigitStep(r: seq<int8>, i: nat, lost: int, a: int)
    requires |r| == 256 && i < 256 && Suffix(r, i, lost, a)
    requires -15 <= r[i] <= 15 && r[i] as int % 2 == 1
    requires forall k :: i < k <= i + 4 && k < 256 ==> r[k] == 0
    requires lost == 0 || i + 4 < 256
    ensures NafDigit(NafRest(a, i)) == r[i] as int
    ensures Suffix(r, i + 1, lost, a)
  {
    hide NafDigit;
    var x := NafRest(a, i);
    var y := Digits(r, i + 1) + Pow2(255 - i) * lost;
    assert Pow2(256 - i) * lost == 2 * (Pow2(255 - i) * lost);
    assert x == r[i] as int + 2 * y;
    SixteenDivides(r, i, lost);
    NafUnique(x, r[i] as int, y / 16);
  }

  lemma SixteenDivides(r: seq<int8>, i: nat, lost: int)
    requires |r| == 256 && i < 256
    requires forall k :: i < k <= i + 4 && k < 256 ==> r[k] == 0
    requires lost == 0 || i + 4 < 256
    ensures (Digits(r, i + 1) + Pow2(255 - i) * lost) % 16 == 0
  {
    hide Digits, Pow2;
    SmallPowers();
    if i + 4 < 256 {
      DigitsSkip(r, i + 1, i + 5);
      Pow2Adds(4, 251 - i);
      var m := Pow2(251 - i);
      assert (16 * m) * lost == 16 * (m * lost);
    } else {
      DigitsZero(r, i + 1);
    }
  }

  /**
   slide writes the width-5 non-adjacent form of the 256-bit number a. The digits stand for a itself,
   less 2^256 if the form has a 257th digit.
   */
  method slide(r: array<int8>, a: array<byte>)
    requires r.Length == 256 && a.Length == 32
    modifies r
    ensures forall i :: 0 <= i < 256 ==> r[i] as int == NafDigit(NafRest(LeAt(a[..], 0, 32), i))
    ensures Digits(r[..], 0) == LeAt(a[..], 0, 32) - Pow2(256) * NafRest(LeAt(a[..], 0, 32), 256)
    ensures Digits(r[..], 0) == LeAt(a[..], 0, 32) <==> NafRest(LeAt(a[..], 0, 32), 256) == 0
  {
    hide Digits, Pow2, NafDigit, NafRest, LeAt, BitOf;
    ghost var n := LeAt(a[..], 0, 32);
    for i := 0 to 256
      invariant forall k {:trigger r[k]} :: 0 <= k < i ==> r[k] == BitOf(a[..], k)
    {
      r[i] := BitOf(a[..], i);
    }
    BitsValue(r[..], a[..], 0);
    ghost var lost := 0;
    NafStart(n);
    for i := 0 to 256
      invariant forall k :: i <= k < 256 ==> IsBit(r[k])
      invariant forall k :: 0 <= k < i ==> r[k] as int == NafDigit(NafRest(n, k))
      invariant lost == 0 || (lost == 1 && forall k :: i <= k < 256 ==> r[k] == 0)
      invariant Suffix(r[..], i, lost, n)
    {
      if r[i] != 0 {
        lost := Window(r, i);
        OddDigitStep(r[..], i, lost, n);
      } else {
        ZeroDigitStep(r[..], i, lost, n);
      }
    }
    DigitsZero(r[..], 256);
    NafTotal(r[..], n, 256);
    assert Pow2(256) * (0 - NafRest(n, 256)) == -(Pow2(256) * NafRest(n, 256));
    NothingLost(Pow2(256), NafRest(n, 256));
  }

  lemma NothingLost(m: int, x: int)
    requires m > 0
    ensures m * x == 0 <==> x == 0
  {
  }

  lemma NafStart(a: int)
    ensures NafRest(a, 0) == a
  {
  }

  /** The first i digits of the non-adjacent form, and what is left, make up a. */
  lemma {:induction false} NafTotal(r: seq<int8>, a: int, i: nat)
    requires i <= |r| && forall k :: 0 <= k < i ==> r[k] as int == NafDigit(NafRest(a, k))
    ensures Digits(r, 0) == a + Pow2(i) * (Digits(r, i) - NafRest(a, i))
  {
    hide Digits, NafRest, NafDigit;
    NafStart(a);
    if i > 0 {
      NafTotal(r, a, i - 1);
      NafLevel(r, a, i - 1);
      var d, m := Digits(r, i) - NafRest(a, i), Pow2(i - 1);
      assert m * (2 * d) == (2 * m) * d;
    }
  }

  lemma NafLevel(r: seq<int8>, a: int, i: nat)
    requires i < |r| && r[i] as int == NafDigit(NafRest(a, i))
    ensures Digits(r, i) - NafRest(a, i) == 2 * (Digits(r, i + 1) - NafRest(a, i + 1))
  {
    hide NafDigit;
    var x := NafRest(a, i);
    assert NafRest(a, i + 1) == (x - NafDigit(x)) / 2;
  }

  /** No carry is lost below 2^255; above, it can be: the form of 2^256 - 1 is -1 and a 257th digit. */
  lemma SlideIsExact(a: nat)
    requires a < Pow2(256)
    ensures 0 <= NafRest(a, 256) <= 1
    ensures a < Pow2(255) ==> NafRest(a, 256) == 0
    ensures NafRest(Pow2(256) - 1, 256) == 1
  {
    hide Pow2, NafRest;
    SmallPowers();
    NafRestShrinks(a, 256, 256);
    if a < Pow2(255) {
      NafRestShrinks(a, 255, 255);
    }
    AllOnes(256, 256);
  }

  lemma {:induction false} AllOnes(n: nat, i: nat)
    requires 5 <= n && 1 <= i <= n
    ensures NafRest(Pow2(n) - 1, i) == Pow2(n - i)
  {
    var x := Pow2(n) - 1;
    if i == 1 {
      Pow2Adds(5, n - 5);
      assert x == -1 + 32 * Pow2(n - 5);
      NafUnique(x, -1, Pow2(n - 5));
      assert NafRest(x, 0) == x;
    } else {
      AllOnes(n, i - 1);
      assert Pow2(n - i + 1) == 2 * Pow2(n - i);
    }
  }
}
