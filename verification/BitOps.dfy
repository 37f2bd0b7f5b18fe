/**
 The bitwise operators on two's complement integers, by recursion on the bits. An integer in
 [-2^k, 2^k) has k bits and a sign: `x / 2` drops the lowest bit and `x % 2` reads it.
 */
module BitOps {

  function Pow2(k: nat): (r: int)
    ensures r >= 1
  {
    if k == 0 then 1 else 2 * Pow2(k - 1)
  }

  lemma {:induction false} Pow2Adds(a: nat, b: nat)
    ensures Pow2(a + b) == Pow2(a) * Pow2(b)
  {
    if a > 0 {
      Pow2Adds(a - 1, b);
    }
  }

  lemma SmallPowers()
    ensures Pow2(0) == 1 && Pow2(1) == 2 && Pow2(2) == 4 && Pow2(3) == 8 && Pow2(4) == 16
    ensures Pow2(5) == 32 && Pow2(6) == 64 && Pow2(7) == 128 && Pow2(8) == 256
  {
  }

  lemma Pow2Of32()
    ensures Pow2(8) == 0x100 && Pow2(31) == 0x8000_0000 && Pow2(32) == 0x1_0000_0000
  {
    assert Pow2(8) == 0x100 && Pow2(16) == 0x1_0000 && Pow2(24) == 0x100_0000;
  }

  lemma Pow2Of63()
    ensures Pow2(63) == 0x8000_0000_0000_0000
  {
    hide Pow2;
    Pow2Of32();
    Pow2Adds(31, 32);
  }

  lemma BytePowers()
    ensures Pow2(8) == 0x100 && Pow2(16) == 0x1_0000 && Pow2(24) == 0x100_0000
  {
    assert Pow2(8) == 0x100;
    assert Pow2(16) == 0x1_0000;
  }

  predicate HasBits(k: nat, x: int) {
    -Pow2(k) <= x < Pow2(k)
  }

  function Xor(k: nat, x: int, y: int): (r: int)
    requires HasBits(k, x) && HasBits(k, y)
    ensures HasBits(k, r)
  {
    if k == 0 then
      if x == y then 0 else -1
    else
      2 * Xor(k - 1, x / 2, y / 2) + if x % 2 == y % 2 then 0 else 1
  }

  function And(k: nat, x: int, y: int): (r: int)
    requires HasBits(k, x) && HasBits(k, y)
    ensures HasBits(k, r)
  {
    if k == 0 then
      if x == y then x else 0
    else
      2 * And(k - 1, x / 2, y / 2) + if x % 2 == 1 && y % 2 == 1 then 1 else 0
  }

  function Or(k: nat, x: int, y: int): (r: int)
    requires HasBits(k, x) && HasBits(k, y)
    ensures HasBits(k, r)
  {
    if k == 0 then
      if x == y then x else -1
    else
      2 * Or(k - 1, x / 2, y / 2) + if x % 2 == 1 || y % 2 == 1 then 1 else 0
  }

  lemma {:induction false} XorUndoes(k: nat, x: int, y: int)
    requires HasBits(k, x) && HasBits(k, y)
    ensures Xor(k, x, Xor(k, x, y)) == y
  {
    if k > 0 {
      XorUndoes(k - 1, x / 2, y / 2);
    }
  }

  lemma {:induction false} XorZero(k: nat, x: int)
    requires HasBits(k, x)
    ensures Xor(k, x, 0) == x
  {
    if k > 0 {
      XorZero(k - 1, x / 2);
    }
  }

  lemma {:induction false} AndMask(k: nat, y: int)
    requires HasBits(k, y)
    ensures And(k, -1, y) == y && And(k, 0, y) == 0
  {
    if k > 0 {
      AndMask(k - 1, y / 2);
    }
  }

  /** The bits of x ^ y are all clear exactly when x and y agree; two numbers without sign have one without. */
  lemma {:induction false} XorDistinguishes(k: nat, x: int, y: int)
    requires HasBits(k, x) && HasBits(k, y)
    ensures Xor(k, x, y) == 0 <==> x == y
    ensures x >= 0 && y >= 0 ==> Xor(k, x, y) >= 0
  {
    if k > 0 {
      XorDistinguishes(k - 1, x / 2, y / 2);
    }
  }

  /** x ^= mask & (x ^ y) */
  function Blend(k: nat, x: int, y: int, mask: int): (r: int)
    requires HasBits(k, x) && HasBits(k, y) && HasBits(k, mask)
    ensures mask == -1 ==> r == y
    ensures mask == 0 ==> r == x
  {
    AndMask(k, Xor(k, x, y));
    XorUndoes(k, x, y);
    XorZero(k, x);
    Xor(k, x, And(k, mask, Xor(k, x, y)))
  }

  /** Where the two operands share no bit, `|` is addition. */
  lemma {:induction false} OrDisjoint(k: nat, j: nat, lo: int, hi: int)
    requires j <= k && 0 <= lo < Pow2(j)
    requires HasBits(k, hi * Pow2(j)) && HasBits(k, lo)
    ensures Or(k, lo, hi * Pow2(j)) == lo + hi * Pow2(j)
  {
    if k == 0 {
    } else if j == 0 {
      OrZero(k, hi);
    } else {
      assert hi * Pow2(j) == 2 * (hi * Pow2(j - 1));
      OrDisjoint(k - 1, j - 1, lo / 2, hi);
    }
  }

  lemma {:induction false} OrZero(k: nat, x: int)
    requires HasBits(k, x)
    ensures Or(k, 0, x) == x
  {
    if k > 0 {
      OrZero(k - 1, x / 2);
    }
  }

  /** So is `^`. */
  lemma {:induction false} XorDisjoint(k: nat, j: nat, lo: int, hi: int)
    requires j <= k && 0 <= lo < Pow2(j)
    requires HasBits(k, hi * Pow2(j)) && HasBits(k, lo)
    ensures Xor(k, lo, hi * Pow2(j)) == lo + hi * Pow2(j)
  {
    if k == 0 {
    } else if j == 0 {
      XorZeroLeft(k, hi);
    } else {
      var y := hi * Pow2(j - 1);
      assert hi * Pow2(j) == 2 * y;
      XorDisjoint(k - 1, j - 1, lo / 2, hi);
      XorStep(k, lo, y);
    }
  }

  lemma XorStep(k: nat, lo: int, y: int)
    requires k > 0 && HasBits(k, lo) && HasBits(k, 2 * y)
    ensures HasBits(k - 1, lo / 2) && HasBits(k - 1, y)
    ensures Xor(k, lo, 2 * y) == 2 * Xor(k - 1, lo / 2, y) + lo % 2
  {
    assert (2 * y) / 2 == y && (2 * y) % 2 == 0;
  }

  lemma {:induction false} XorZeroLeft(k: nat, x: int)
    requires HasBits(k, x)
    ensures Xor(k, 0, x) == x
  {
    if k > 0 {
      XorZeroLeft(k - 1, x / 2);
    }
  }

  /** lo | hi << j, for a byte hi above the j bits of lo, in a 64-bit word. */
  function OrByte(lo: int, hi: int, j: nat): (r: int)
    requires j <= 24 && 0 <= lo < Pow2(j) && 0 <= hi < 0x100
    ensures r == lo + hi * Pow2(j) && 0 <= r < Pow2(j + 8)
  {
    hide Or, Pow2;
    ByteFits(lo, hi, j);
    OrDisjoint(63, j, lo, hi);
    Or(63, lo, hi * Pow2(j))
  }

  lemma ByteFits(lo: int, hi: int, j: nat)
    requires j <= 24 && 0 <= lo < Pow2(j) && 0 <= hi < 0x100
    ensures HasBits(63, lo) && HasBits(63, hi * Pow2(j)) && 0 <= hi * Pow2(j)
            && lo + hi * Pow2(j) < Pow2(j + 8) <= Pow2(63)
  {
    hide Pow2;
    BytePowers();
    Pow2Adds(j, 8);
    Pow2Adds(j + 8, 55 - j);
    Grows(lo, hi, Pow2(j), Pow2(55 - j));
  }

  lemma Grows(lo: int, hi: int, m: int, c: int)
    requires 0 <= lo < m && 0 <= hi < 0x100 && c >= 1
    ensures 0 <= hi * m && lo + hi * m < m * 0x100 <= (m * 0x100) * c
  {
    NotNegative(hi, m);
    NotNegative(0xFF - hi, m);
    assert (0xFF - hi) * m == 0xFF * m - hi * m;
    var n := m * 0x100;
    NotNegative(n, c - 1);
    assert n * (c - 1) == n * c - n;
  }

  lemma NotNegative(x: int, y: int)
    requires x >= 0 && y >= 0
    ensures x * y >= 0
  {
  }

  /** A number brought into a 32-bit word by wrap-around. */
  function Wrap32(y: int): (r: int)
    ensures -0x8000_0000 <= r < 0x8000_0000
    ensures -0x8000_0000 <= y < 0x8000_0000 ==> r == y
  {
    (y + 0x8000_0000) % 0x1_0000_0000 - 0x8000_0000
  }

  lemma WrapDrops(y: int) returns (k: int)
    ensures Wrap32(y) == y + 0x1_0000_0000 * k
  {
    k := -((y + 0x8000_0000) / 0x1_0000_0000);
  }
}
