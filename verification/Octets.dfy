/** Octet strings and integers in vrf/vrf_ed25519.go: I2OSP and OS2IP (sections 4.1 and 4.2 of RFC 8017), F2IP, IP2F. */
module Octets {
  import opened Words
  import opened BitOps
  import opened ByteStrings
  import opened Division

  /** OS2IP: the big-endian value of a string (big.Int.SetBytes). */
  function OS2IP(os: seq<byte>): (r: nat) {
    if os == [] then 0 else 0x100 * OS2IP(os[..|os| - 1]) + os[|os| - 1] as nat
  }

  /** big.Int.Bytes: the shortest big-endian string of b. */
  function Bytes(b: nat): (r: seq<byte>)
    ensures OS2IP(r) == b
    ensures r != [] ==> r[0] != 0
    ensures b == 0 ==> r == []
  {
    if b == 0 then [] else
      var high := Bytes(b / 0x100);
      assert (high + [(b % 0x100) as byte])[..|high|] == high;
      high + [(b % 0x100) as byte]
  }

  function Zeros(n: nat): (r: seq<byte>)
    ensures |r| == n
  {
    seq(n, _ => 0)
  }

  /** n octets: leading zeros are added, or the octets after the first n are dropped. */
  function I2OSP(b: nat, n: nat): (r: seq<byte>)
    ensures |r| == n
  {
    var os := Bytes(b);
    if n > |os| then Zeros(n - |os|) + os else os[..n]
  }

  lemma {:induction false} OS2IPRange(os: seq<byte>)
    ensures OS2IP(os) < Pow256(|os|)
  {
    if os != [] {
      OS2IPRange(os[..|os| - 1]);
    }
  }

  lemma {:induction false} OS2IPConcat(s: seq<byte>, t: seq<byte>)
    ensures OS2IP(s + t) == OS2IP(s) * Pow256(|t|) + OS2IP(t)
    decreases |t|
  {
    if t == [] {
      assert s + t == s;
    } else {
      var t', b := t[..|t| - 1], t[|t| - 1];
      assert (s + t)[..|s + t| - 1] == s + t';
      assert OS2IP(s + t) == 0x100 * OS2IP(s + t') + b as nat;
      assert OS2IP(t) == 0x100 * OS2IP(t') + b as nat && Pow256(|t|) == 0x100 * Pow256(|t'|);
      OS2IPConcat(s, t');
      hide OS2IP, Pow256;
      ScaleProduct(0x100, OS2IP(s), Pow256(|t'|));
    }
  }

  lemma {:induction false} ZerosValue(n: nat)
    ensures OS2IP(Zeros(n)) == 0
  {
    if n > 0 {
      assert Zeros(n)[..n - 1] == Zeros(n - 1);
      ZerosValue(n - 1);
    }
  }

  lemma {:induction false} Pow256IsPow2(n: nat)
    ensures Pow256(n) == Pow2(8 * n)
  {
    if n > 0 {
      Pow256IsPow2(n - 1);
      Pow2Adds(8, 8 * (n - 1));
      SmallPowers();
    }
  }

  /** A number with a nonzero first octet fills its octets. */
  lemma LeadingOctet(os: seq<byte>)
    requires os != [] && os[0] != 0
    ensures OS2IP(os) >= Pow256(|os| - 1)
  {
    assert os == os[..1] + os[1..];
    OS2IPConcat(os[..1], os[1..]);
    assert os[..1] == [os[0]] && OS2IP([os[0]]) == os[0] as nat;
    MulMono(Pow256(|os| - 1), 1, OS2IP(os[..1]));
  }

  lemma {:induction false} Pow256Mono(m: nat, n: nat)
    requires m <= n
    ensures Pow256(m) <= Pow256(n)
  {
    if m < n {
      Pow256Mono(m, n - 1);
    }
  }

  lemma Padded(os: seq<byte>, n: nat)
    ensures OS2IP(Zeros(n) + os) == OS2IP(os)
  {
    hide OS2IP, Pow256, Zeros;
    OS2IPConcat(Zeros(n), os);
    ZerosValue(n);
  }

  /** The round trip succeeds exactly for the numbers that fit. */
  lemma I2OSPRoundTrip(b: nat, n: nat)
    ensures OS2IP(I2OSP(b, n)) == b <==> b < Pow256(n)
  {
    hide OS2IP, Pow256, Zeros, Bytes;
    var os := Bytes(b);
    OS2IPRange(I2OSP(b, n));
    if n > |os| {
      Padded(os, n - |os|);
      OS2IPRange(os);
      Pow256Mono(|os|, n);
    } else if n < |os| {
      LeadingOctet(os);
      Pow256Mono(n, |os| - 1);
    } else {
      assert os[..n] == os;
    }
  }

  /** And the octets of a string come back from its value. */
  lemma {:induction false} OS2IPInjective(s: seq<byte>, t: seq<byte>)
    requires |s| == |t| && OS2IP(s) == OS2IP(t)
    ensures s == t
  {
    if s != [] {
      OS2IPInjective(s[..|s| - 1], t[..|t| - 1]);
      assert s == s[..|s| - 1] + [s[|s| - 1]];
      assert t == t[..|t| - 1] + [t[|t| - 1]];
    }
  }

  function Reversed(s: seq<byte>): (r: seq<byte>)
    ensures |r| == |s|
    ensures forall i :: 0 <= i < |s| ==> r[i] == s[|s| - 1 - i]
  {
    seq(|s|, i requires 0 <= i < |s| => s[|s| - 1 - i])
  }

  lemma {:induction false} ReversedValue(s: seq<byte>)
    ensures OS2IP(Reversed(s)) == LeAt(s, 0, |s|)
  {
    if s != [] {
      ReversedValue(s[1..]);
      assert Reversed(s)[..|s| - 1] == Reversed(s[1..]);
      assert s[1..][0..|s| - 1] == s[1..|s|];
      LeAtPrefix(s[1..], s, 0, 1, |s| - 1);
    }
  }

  /** F2IP: the number of a little-endian 32-byte array. */
  method F2IP(f: array<byte>) returns (r: nat)
    requires f.Length == 32
    ensures r == LeAt(f[..], 0, 32)
  {
    var t := new byte[32];
    for i := 0 to 32
      invariant forall k :: 0 <= k < i ==> t[32 - k - 1] == f[k]
    {
      t[32 - i - 1] := f[i];
    }
    r := OS2IP(t[..]);
    assert t[..] == Reversed(f[..]);
    ReversedValue(f[..]);
  }

  /** IP2F: the low 32 octets of b, little-endian. */
  method IP2F(b: nat) returns (r: array<byte>)
    ensures r.Length == 32 && fresh(r)
    ensures LeAt(r[..], 0, 32) == b % Pow256(32)
  {
    hide LeAt, Pow256;
    var os := Bytes(b);
    r := new byte[32](_ => 0);
    var i, j := 0, |os| - 1;
    while i < 32 && j >= 0
      invariant 0 <= i <= 32 && j == |os| - 1 - i && j >= -1
      invariant forall k :: 0 <= k < i ==> r[k] == os[|os| - 1 - k]
      invariant forall k :: i <= k < 32 ==> r[k] == 0
    {
      r[i] := os[j];
      j := j - 1;
      i := i + 1;
    }
    LowOctets(os, r[..]);
  }

  /** r holds the last octets of os in reverse, and zeros where os has no more. */
  predicate HoldsLow(r: seq<byte>, os: seq<byte>) {
    forall k :: 0 <= k < |r| ==> r[k] == if k < |os| then os[|os| - 1 - k] else 0
  }

  lemma ReversedLow(os: seq<byte>, r: seq<byte>)
    requires HoldsLow(r, os)
    ensures |os| >= |r| ==> os == os[..|os| - |r|] + Reversed(r)
    ensures |os| < |r| ==> Reversed(r) == Zeros(|r| - |os|) + os
  {
    var t := Reversed(r);
    if |os| >= |r| {
      var cut := os[..|os| - |r|] + t;
      forall k | 0 <= k < |os| ensures cut[k] == os[k] {
        if k >= |os| - |r| {
          assert cut[k] == r[|os| - 1 - k];
        }
      }
    } else {
      var pad := Zeros(|r| - |os|) + os;
      forall k | 0 <= k < |r| ensures pad[k] == t[k] {
        assert t[k] == r[|r| - 1 - k];
      }
    }
  }

  lemma LowOctets(os: seq<byte>, r: seq<byte>)
    requires HoldsLow(r, os)
    ensures LeAt(r, 0, |r|) == OS2IP(os) % Pow256(|r|)
  {
    hide LeAt, OS2IP, Pow256, HoldsLow;
    ReversedValue(r);
    ReversedLow(os, r);
    if |os| >= |r| {
      LastOctets(os[..|os| - |r|], Reversed(r));
    } else {
      LastOctets([], Reversed(r));
      assert [] + Reversed(r) == Reversed(r);
      OS2IPConcat(Zeros(|r| - |os|), os);
      ZerosValue(|r| - |os|);
    }
  }

  lemma LastOctets(hi: seq<byte>, lo: seq<byte>)
    ensures OS2IP(hi + lo) % Pow256(|lo|) == OS2IP(lo)
  {
    hide OS2IP, Pow256;
    OS2IPConcat(hi, lo);
    OS2IPRange(lo);
    DivUnique(OS2IP(hi + lo), Pow256(|lo|), OS2IP(hi), OS2IP(lo));
  }

  /** The n bytes of a number, lowest first. */
  function LeBytes(v: nat, n: nat): (r: seq<byte>)
    ensures |r| == n
    decreases n
  {
    if n == 0 then [] else [(v % 0x100) as byte] + LeBytes(v / 0x100, n - 1)
  }

  lemma {:induction false} LeBytesValue(v: nat, n: nat)
    requires v < Pow256(n)
    ensures LeAt(LeBytes(v, n), 0, n) == v
  {
    if n > 0 {
      var s := LeBytes(v, n);
      LeBytesValue(v / 0x100, n - 1);
      assert s[1..n] == LeBytes(v / 0x100, n - 1)[0..n - 1];
      LeAtPrefix(s, LeBytes(v / 0x100, n - 1), 1, 0, n - 1);
    }
  }

  /** The only string of its length with that value. */
  lemma LeBytesUnique(v: nat, s: seq<byte>)
    requires LeAt(s, 0, |s|) == v
    ensures s == LeBytes(v, |s|)
  {
    LeAtRange(s, 0, |s|);
    LeBytesValue(v, |s|);
    LeAtInjective(s, LeBytes(v, |s|), 0, |s|);
    assert s[0..|s|] == s && LeBytes(v, |s|)[0..|s|] == LeBytes(v, |s|);
  }
}
