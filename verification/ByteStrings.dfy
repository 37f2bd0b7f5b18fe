/** Byte strings as little-endian numbers. */
module ByteStrings {
  import opened Words
  import opened BitOps

  /** The little-endian value of the n bytes that start at index i. */
  function LeAt(s: seq<byte>, i: nat, n: nat): int
    requires i + n <= |s|
    decreases n
  {
    if n == 0 then 0 else s[i] as int + 0x100 * LeAt(s, i + 1, n - 1)
  }

  function Pow256(n: nat): (r: int)
    ensures r >= 1
  {
    if n == 0 then 1 else 0x100 * Pow256(n - 1)
  }

  lemma {:induction false} LeAtRange(s: seq<byte>, i: nat, n: nat)
    requires i + n <= |s|
    ensures 0 <= LeAt(s, i, n) < Pow256(n)
    decreases n
  {
    if n > 0 {
      LeAtRange(s, i + 1, n - 1);
    }
  }

  lemma LeAtStep(s: seq<byte>, i: nat, n: nat)
    requires i + n + 1 <= |s|
    ensures LeAt(s, i, n + 1) == s[i] as int + 0x100 * LeAt(s, i + 1, n)
  {
  }

  lemma Pow256Step(n: nat, x: int)
    ensures Pow256(n + 1) * x == 0x100 * (Pow256(n) * x)
  {
    var w := Pow256(n);
    assert (0x100 * w) * x == 0x100 * (w * x);
  }

  /** The bytes n and up weigh 256^n. */
  lemma {:induction false} LeAtSplit(s: seq<byte>, i: nat, n: nat, m: nat)
    requires i + n + m <= |s|
    ensures LeAt(s, i, n + m) == LeAt(s, i, n) + Pow256(n) * LeAt(s, i + n, m)
    decreases n
  {
    if n > 0 {
      hide LeAt, Pow256;
      LeAtSplit(s, i + 1, n - 1, m);
      LeAtStep(s, i, n - 1 + m);
      LeAtStep(s, i, n - 1);
      Pow256Step(n - 1, LeAt(s, i + n, m));
    }
  }

  lemma LeAtNone(s: seq<byte>, i: nat)
    requires i <= |s|
    ensures LeAt(s, i, 0) == 0
  {
  }

  lemma OneByte(s: seq<byte>, i: nat)
    requires i < |s|
    ensures LeAt(s, i, 1) == s[i] as int
  {
  }

  lemma FourBytes(s: seq<byte>, i: nat, n: nat)
    requires i + 4 + n <= |s|
    ensures LeAt(s, i, n + 4)
            == s[i] as int + 0x100 * s[i + 1] as int + 0x1_0000 * s[i + 2] as int + 0x100_0000 * s[i + 3] as int
               + 0x1_0000_0000 * LeAt(s, i + 4, n)
  {
    assert LeAt(s, i + 2, n + 2) == s[i + 2] as int + 0x100 * (s[i + 3] as int + 0x100 * LeAt(s, i + 4, n));
  }

  lemma {:induction false} LeAtPrefix(s: seq<byte>, t: seq<byte>, i: nat, j: nat, n: nat)
    requires i + n <= |s| && j + n <= |t|
    requires s[i..i + n] == t[j..j + n]
    ensures LeAt(s, i, n) == LeAt(t, j, n)
    decreases n
  {
    if n > 0 {
      assert s[i] == s[i..i + n][0] == t[j..j + n][0] == t[j];
      assert s[i + 1..i + n] == s[i..i + n][1..];
      assert t[j + 1..j + n] == t[j..j + n][1..];
      LeAtPrefix(s, t, i + 1, j + 1, n - 1);
    }
  }

  lemma LeAtConcat(s: seq<byte>, t: seq<byte>)
    ensures LeAt(s + t, 0, |s| + |t|) == LeAt(s, 0, |s|) + Pow256(|s|) * LeAt(t, 0, |t|)
  {
    LeAtSplit(s + t, 0, |s|, |t|);
    assert (s + t)[..|s|] == s[..|s|];
    assert (s + t)[|s|..|s| + |t|] == t[..|t|];
    LeAtPrefix(s + t, s, 0, 0, |s|);
    LeAtPrefix(s + t, t, |s|, 0, |t|);
  }

  /** Equal values of equal length are equal strings. */
  lemma {:induction false} LeAtInjective(s: seq<byte>, t: seq<byte>, i: nat, n: nat)
    requires i + n <= |s| && i + n <= |t|
    requires LeAt(s, i, n) == LeAt(t, i, n)
    ensures s[i..i + n] == t[i..i + n]
    decreases n
  {
    if n > 0 {
      LeAtInjective(s, t, i + 1, n - 1);
      assert s[i..i + n] == [s[i]] + s[i + 1..i + n];
      assert t[i..i + n] == [t[i]] + t[i + 1..i + n];
    }
  }

  /** The low eight bits of a number. */
  function LowByte(x: int): (r: byte)
    ensures r as int == x % 0x100
  {
    (x % 0x100) as byte
  }

  function Load3(s: seq<byte>, i: nat): (r: int64)
    requires i + 3 <= |s|
    ensures r as int == LeAt(s, i, 3)
    ensures r as int == s[i] as int + 0x100 * s[i + 1] as int + 0x1_0000 * s[i + 2] as int
    ensures 0 <= r < 0x100_0000
  {
    LeThree(s, i);
    hide LeAt, OrByte, Pow2;
    BytePowers();
    OrByte(OrByte(s[i] as int, s[i + 1] as int, 8), s[i + 2] as int, 16) as int64
  }

  function Load4(s: seq<byte>, i: nat): (r: int64)
    requires i + 4 <= |s|
    ensures r as int == LeAt(s, i, 4)
    ensures r as int == s[i] as int + 0x100 * s[i + 1] as int + 0x1_0000 * s[i + 2] as int + 0x100_0000 * s[i
            + 3] as int
    ensures 0 <= r < 0x1_0000_0000
  {
    LeAtNone(s, i + 4);
    FourBytes(s, i, 0);
    hide LeAt, OrByte, Pow2;
    BytePowers();
    OrByte(OrByte(OrByte(s[i] as int, s[i + 1] as int, 8), s[i + 2] as int, 16), s[i + 3] as int, 24) as int64
  }

  lemma LeThree(s: seq<byte>, i: nat)
    requires i + 3 <= |s|
    ensures LeAt(s, i, 3) == s[i] as int + 0x100 * s[i + 1] as int + 0x1_0000 * s[i + 2] as int
  {
    assert LeAt(s, i + 2, 1) == s[i + 2] as int;
  }
}
