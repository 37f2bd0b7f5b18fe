/** Scalars as byte strings: the loads and stores of ScReduce and ScMulAdd in vrf/edwards25519/edwards25519.go. */
module ScalarBytes {
  import opened Words
  import opened BitOps
  import opened ByteStrings
  import opened Division
  import opened ScalarField
  import opened ScalarProducts

  // ---------- limbs from bytes ----------

  lemma Cut0(b0: int, b1: int, b2: int)
    requires 0 <= b0 < 0x100 && 0 <= b1 < 0x100 && 0 <= b2 < 0x100
    ensures (b0 + 0x100 * b1 + 0x1_0000 * b2) / 1 % 0x20_0000
            == b0 + 0x100 * b1 + 0x1_0000 * (b2 % 32)
  {
    DivUnique(b0 + 0x100 * b1 + 0x1_0000 * b2, 0x20_0000, b2 / 32, b0 + 0x100 * b1 + 0x1_0000 * (b2 % 32));
  }

  lemma Cut2(b0: int, b1: int, b2: int, b3: int)
    requires 0 <= b0 < 0x100 && 0 <= b1 < 0x100 && 0 <= b2 < 0x100 && 0 <= b3 < 0x100
    ensures (b0 + 0x100 * b1 + 0x1_0000 * b2 + 0x100_0000 * b3) / 32 % 0x20_0000
            == b0 / 32 + 0x8 * b1 + 0x800 * b2 + 0x8_0000 * (b3 % 4)
  {
    DivUnique(b0 + 0x100 * b1 + 0x1_0000 * b2 + 0x100_0000 * b3, 32, b0 / 32 + 0x8 * b1 + 0x800 * b2 + 0x8_0000 * b3,
        b0 % 32);
    DivUnique(b0 / 32 + 0x8 * b1 + 0x800 * b2 + 0x8_0000 * b3, 0x20_0000, b3 / 4, b0 / 32 + 0x8 * b1 + 0x800 * b2
        + 0x8_0000 * (b3 % 4));
  }

  lemma Cut5(b0: int, b1: int, b2: int)
    requires 0 <= b0 < 0x100 && 0 <= b1 < 0x100 && 0 <= b2 < 0x100
    ensures (b0 + 0x100 * b1 + 0x1_0000 * b2) / 4 % 0x20_0000
            == b0 / 4 + 0x40 * b1 + 0x4000 * (b2 % 128)
  {
    DivUnique(b0 + 0x100 * b1 + 0x1_0000 * b2, 4, b0 / 4 + 0x40 * b1 + 0x4000 * b2, b0 % 4);
    DivUnique(b0 / 4 + 0x40 * b1 + 0x4000 * b2, 0x20_0000, b2 / 128, b0 / 4 + 0x40 * b1 + 0x4000 * (b2 % 128));
  }

  lemma Cut7(b0: int, b1: int, b2: int, b3: int)
    requires 0 <= b0 < 0x100 && 0 <= b1 < 0x100 && 0 <= b2 < 0x100 && 0 <= b3 < 0x100
    ensures (b0 + 0x100 * b1 + 0x1_0000 * b2 + 0x100_0000 * b3) / 128 % 0x20_0000
            == b0 / 128 + 0x2 * b1 + 0x200 * b2 + 0x2_0000 * (b3 % 16)
  {
    DivUnique(b0 + 0x100 * b1 + 0x1_0000 * b2 + 0x100_0000 * b3, 128, b0 / 128 + 0x2 * b1 + 0x200 * b2 + 0x2_0000 * b3,
        b0 % 128);
    DivUnique(b0 / 128 + 0x2 * b1 + 0x200 * b2 + 0x2_0000 * b3, 0x20_0000, b3 / 16, b0 / 128 + 0x2 * b1 + 0x200 * b2
        + 0x2_0000 * (b3 % 16));
  }

  lemma Cut10(b0: int, b1: int, b2: int, b3: int)
    requires 0 <= b0 < 0x100 && 0 <= b1 < 0x100 && 0 <= b2 < 0x100 && 0 <= b3 < 0x100
    ensures (b0 + 0x100 * b1 + 0x1_0000 * b2 + 0x100_0000 * b3) / 16 % 0x20_0000
            == b0 / 16 + 0x10 * b1 + 0x1000 * b2 + 0x10_0000 * (b3 % 2)
  {
    DivUnique(b0 + 0x100 * b1 + 0x1_0000 * b2 + 0x100_0000 * b3, 16, b0 / 16 + 0x10 * b1 + 0x1000 * b2
        + 0x10_0000 * b3, b0 % 16);
    DivUnique(b0 / 16 + 0x10 * b1 + 0x1000 * b2 + 0x10_0000 * b3, 0x20_0000, b3 / 2, b0 / 16 + 0x10 * b1 + 0x1000 * b2
        + 0x10_0000 * (b3 % 2));
  }

  lemma Cut13(b0: int, b1: int, b2: int)
    requires 0 <= b0 < 0x100 && 0 <= b1 < 0x100 && 0 <= b2 < 0x100
    ensures (b0 + 0x100 * b1 + 0x1_0000 * b2) / 2 % 0x20_0000
            == b0 / 2 + 0x80 * b1 + 0x8000 * (b2 % 64)
  {
    DivUnique(b0 + 0x100 * b1 + 0x1_0000 * b2, 2, b0 / 2 + 0x80 * b1 + 0x8000 * b2, b0 % 2);
    DivUnique(b0 / 2 + 0x80 * b1 + 0x8000 * b2, 0x20_0000, b2 / 64, b0 / 2 + 0x80 * b1 + 0x8000 * (b2 % 64));
  }

  lemma Cut15(b0: int, b1: int, b2: int, b3: int)
    requires 0 <= b0 < 0x100 && 0 <= b1 < 0x100 && 0 <= b2 < 0x100 && 0 <= b3 < 0x100
    ensures (b0 + 0x100 * b1 + 0x1_0000 * b2 + 0x100_0000 * b3) / 64 % 0x20_0000
            == b0 / 64 + 0x4 * b1 + 0x400 * b2 + 0x4_0000 * (b3 % 8)
  {
    DivUnique(b0 + 0x100 * b1 + 0x1_0000 * b2 + 0x100_0000 * b3, 64, b0 / 64 + 0x4 * b1 + 0x400 * b2 + 0x4_0000 * b3,
        b0 % 64);
    DivUnique(b0 / 64 + 0x4 * b1 + 0x400 * b2 + 0x4_0000 * b3, 0x20_0000, b3 / 8, b0 / 64 + 0x4 * b1 + 0x400 * b2
        + 0x4_0000 * (b3 % 8));
  }

  lemma Cut18(b0: int, b1: int, b2: int)
    requires 0 <= b0 < 0x100 && 0 <= b1 < 0x100 && 0 <= b2 < 0x100
    ensures (b0 + 0x100 * b1 + 0x1_0000 * b2) / 8 % 0x20_0000
            == b0 / 8 + 0x20 * b1 + 0x2000 * b2
  {
    DivUnique(b0 + 0x100 * b1 + 0x1_0000 * b2, 8, b0 / 8 + 0x20 * b1 + 0x2000 * b2, b0 % 8);
  }

  lemma CutLast(b0: int, b1: int, b2: int, b3: int)
    requires 0 <= b0 < 0x100 && 0 <= b1 < 0x100 && 0 <= b2 < 0x100 && 0 <= b3 < 0x100
    ensures (b0 + 0x100 * b1 + 0x1_0000 * b2 + 0x100_0000 * b3) / 8 == b0 / 8 + 0x20 * b1 + 0x2000 * b2 + 0x20_0000 * b3
    ensures (b0 + 0x100 * b1 + 0x1_0000 * b2 + 0x100_0000 * b3) / 128 == b0 / 128 + 2 * b1 + 0x200 * b2 + 0x2_0000 * b3
  {
  }

  lemma Word0(x: int64, b0: int, b1: int, b2: int)
    requires 0 <= b0 < 0x100 && 0 <= b1 < 0x100 && 0 <= b2 < 0x100
    requires x as int == b0 + 0x100 * b1 + 0x1_0000 * b2
    ensures (x % 0x20_0000) as int == b0 + 0x100 * b1 + 0x1_0000 * (b2 % 32) < 0x20_0000
  {
    Cut0(b0, b1, b2);
  }

  function Limb0(s: seq<byte>, i: nat): (r: int64)
    requires i + 3 <= |s|
    ensures r as int == s[i] as int + 0x100 * s[i + 1] as int + 0x1_0000 * (s[i + 2] as int % 32)
    ensures 0 <= r < 0x20_0000
  {
    hide Load3, LeAt;
    var x := Load3(s, i);
    Word0(x, s[i] as int, s[i + 1] as int, s[i + 2] as int);
    x % 0x20_0000
  }

  lemma Word2(x: int64, b0: int, b1: int, b2: int, b3: int)
    requires 0 <= b0 < 0x100 && 0 <= b1 < 0x100 && 0 <= b2 < 0x100 && 0 <= b3 < 0x100
    requires x as int == b0 + 0x100 * b1 + 0x1_0000 * b2 + 0x100_0000 * b3
    ensures (x / 32 % 0x20_0000) as int == b0 / 32 + 0x8 * b1 + 0x800 * b2 + 0x8_0000 * (b3 % 4) < 0x20_0000
  {
    Cut2(b0, b1, b2, b3);
  }

  function Limb1(s: seq<byte>, i: nat): (r: int64)
    requires i + 6 <= |s|
    ensures r as int == s[i + 2] as int / 32 + 0x8 * s[i + 3] as int + 0x800 * s[i + 4] as int + 0x8_0000 * (s[i
            + 5] as int % 4)
    ensures 0 <= r < 0x20_0000
  {
    hide Load4, LeAt;
    var x := Load4(s, i + 2);
    Word2(x, s[i + 2] as int, s[i + 3] as int, s[i + 4] as int, s[i + 5] as int);
    x / 32 % 0x20_0000
  }

  lemma Word5(x: int64, b0: int, b1: int, b2: int)
    requires 0 <= b0 < 0x100 && 0 <= b1 < 0x100 && 0 <= b2 < 0x100
    requires x as int == b0 + 0x100 * b1 + 0x1_0000 * b2
    ensures (x / 4 % 0x20_0000) as int == b0 / 4 + 0x40 * b1 + 0x4000 * (b2 % 128) < 0x20_0000
  {
    Cut5(b0, b1, b2);
  }

  function Limb2(s: seq<byte>, i: nat): (r: int64)
    requires i + 8 <= |s|
    ensures r as int == s[i + 5] as int / 4 + 0x40 * s[i + 6] as int + 0x4000 * (s[i + 7] as int % 128)
    ensures 0 <= r < 0x20_0000
  {
    hide Load3, LeAt;
    var x := Load3(s, i + 5);
    Word5(x, s[i + 5] as int, s[i + 6] as int, s[i + 7] as int);
    x / 4 % 0x20_0000
  }

  lemma Word7(x: int64, b0: int, b1: int, b2: int, b3: int)
    requires 0 <= b0 < 0x100 && 0 <= b1 < 0x100 && 0 <= b2 < 0x100 && 0 <= b3 < 0x100
    requires x as int == b0 + 0x100 * b1 + 0x1_0000 * b2 + 0x100_0000 * b3
    ensures (x / 128 % 0x20_0000) as int == b0 / 128 + 0x2 * b1 + 0x200 * b2 + 0x2_0000 * (b3 % 16) < 0x20_0000
  {
    Cut7(b0, b1, b2, b3);
  }

  function Limb3(s: seq<byte>, i: nat): (r: int64)
    requires i + 11 <= |s|
    ensures r as int == s[i + 7] as int / 128 + 0x2 * s[i + 8] as int + 0x200 * s[i + 9] as int + 0x2_0000 * (s[i
            + 10] as int % 16)
    ensures 0 <= r < 0x20_0000
  {
    hide Load4, LeAt;
    var x := Load4(s, i + 7);
    Word7(x, s[i + 7] as int, s[i + 8] as int, s[i + 9] as int, s[i + 10] as int);
    x / 128 % 0x20_0000
  }

  lemma Word10(x: int64, b0: int, b1: int, b2: int, b3: int)
    requires 0 <= b0 < 0x100 && 0 <= b1 < 0x100 && 0 <= b2 < 0x100 && 0 <= b3 < 0x100
    requires x as int == b0 + 0x100 * b1 + 0x1_0000 * b2 + 0x100_0000 * b3
    ensures (x / 16 % 0x20_0000) as int == b0 / 16 + 0x10 * b1 + 0x1000 * b2 + 0x10_0000 * (b3 % 2) < 0x20_0000
  {
    Cut10(b0, b1, b2, b3);
  }

  function Limb4(s: seq<byte>, i: nat): (r: int64)
    requires i + 14 <= |s|
    ensures r as int == s[i + 10] as int / 16 + 0x10 * s[i + 11] as int + 0x1000 * s[i + 12] as int + 0x10_0000 * (s[i
            + 13] as int % 2)
    ensures 0 <= r < 0x20_0000
  {
    hide Load4, LeAt;
    var x := Load4(s, i + 10);
    Word10(x, s[i + 10] as int, s[i + 11] as int, s[i + 12] as int, s[i + 13] as int);
    x / 16 % 0x20_0000
  }

  lemma Word13(x: int64, b0: int, b1: int, b2: int)
    requires 0 <= b0 < 0x100 && 0 <= b1 < 0x100 && 0 <= b2 < 0x100
    requires x as int == b0 + 0x100 * b1 + 0x1_0000 * b2
    ensures (x / 2 % 0x20_0000) as int == b0 / 2 + 0x80 * b1 + 0x8000 * (b2 % 64) < 0x20_0000
  {
    Cut13(b0, b1, b2);
  }

  function Limb5(s: seq<byte>, i: nat): (r: int64)
    requires i + 16 <= |s|
    ensures r as int == s[i + 13] as int / 2 + 0x80 * s[i + 14] as int + 0x8000 * (s[i + 15] as int % 64)
    ensures 0 <= r < 0x20_0000
  {
    hide Load3, LeAt;
    var x := Load3(s, i + 13);
    Word13(x, s[i + 13] as int, s[i + 14] as int, s[i + 15] as int);
    x / 2 % 0x20_0000
  }

  lemma Word15(x: int64, b0: int, b1: int, b2: int, b3: int)
    requires 0 <= b0 < 0x100 && 0 <= b1 < 0x100 && 0 <= b2 < 0x100 && 0 <= b3 < 0x100
    requires x as int == b0 + 0x100 * b1 + 0x1_0000 * b2 + 0x100_0000 * b3
    ensures (x / 64 % 0x20_0000) as int == b0 / 64 + 0x4 * b1 + 0x400 * b2 + 0x4_0000 * (b3 % 8) < 0x20_0000
  {
    Cut15(b0, b1, b2, b3);
  }

  function Limb6(s: seq<byte>, i: nat): (r: int64)
    requires i + 19 <= |s|
    ensures r as int == s[i + 15] as int / 64 + 0x4 * s[i + 16] as int + 0x400 * s[i + 17] as int + 0x4_0000 * (s[i
            + 18] as int % 8)
    ensures 0 <= r < 0x20_0000
  {
    hide Load4, LeAt;
    var x := Load4(s, i + 15);
    Word15(x, s[i + 15] as int, s[i + 16] as int, s[i + 17] as int, s[i + 18] as int);
    x / 64 % 0x20_0000
  }

  lemma Word18(x: int64, b0: int, b1: int, b2: int)
    requires 0 <= b0 < 0x100 && 0 <= b1 < 0x100 && 0 <= b2 < 0x100
    requires x as int == b0 + 0x100 * b1 + 0x1_0000 * b2
    ensures (x / 8 % 0x20_0000) as int == b0 / 8 + 0x20 * b1 + 0x2000 * b2 < 0x20_0000
  {
    Cut18(b0, b1, b2);
  }

  function Limb7(s: seq<byte>, i: nat): (r: int64)
    requires i + 21 <= |s|
    ensures r as int == s[i + 18] as int / 8 + 0x20 * s[i + 19] as int + 0x2000 * s[i + 20] as int
    ensures 0 <= r < 0x20_0000
  {
    hide Load3, LeAt;
    var x := Load3(s, i + 18);
    Word18(x, s[i + 18] as int, s[i + 19] as int, s[i + 20] as int);
    x / 8 % 0x20_0000
  }

  /** Eight limbs of 21 bits cover 21 bytes. */
  lemma BlockValue(s: seq<byte>, i: nat)
    requires i + 21 <= |s|
    ensures Limb0(s, i) as int + V1*Limb1(s, i) as int + V2*Limb2(s, i) as int + V3*Limb3(s, i) as int + V4*Limb4(s,
            i) as int + V5*Limb5(s, i) as int + V6*Limb6(s, i) as int + V7*Limb7(s, i) as int == LeAt(s, i, 21)
  {
    hide Load3, Load4, LeAt, Limb0, Limb1, Limb2, Limb3, Limb4, Limb5, Limb6, Limb7;
    FourBytes(s, i, 17);
    FourBytes(s, i + 4, 13);
    FourBytes(s, i + 8, 9);
    FourBytes(s, i + 12, 5);
    FourBytes(s, i + 16, 1);
    OneByte(s, i + 20);
    assert s[i + 2] as int == 32 * (s[i + 2] as int / 32) + s[i + 2] as int % 32;
    assert s[i + 5] as int == 4 * (s[i + 5] as int / 4) + s[i + 5] as int % 4;
    assert s[i + 7] as int == 128 * (s[i + 7] as int / 128) + s[i + 7] as int % 128;
    assert s[i + 10] as int == 16 * (s[i + 10] as int / 16) + s[i + 10] as int % 16;
    assert s[i + 13] as int == 2 * (s[i + 13] as int / 2) + s[i + 13] as int % 2;
    assert s[i + 15] as int == 64 * (s[i + 15] as int / 64) + s[i + 15] as int % 64;
    assert s[i + 18] as int == 8 * (s[i + 18] as int / 8) + s[i + 18] as int % 8;
  }

  /** The last block of a 64-byte string has a longer last limb. */
  lemma LastBlockValue(s: seq<byte>, i: nat)
    requires i + 22 <= |s|
    ensures Limb0(s, i) as int + V1 * Limb1(s, i) as int + V2 * Limb2(s, i) as int + V3 * Limb3(s, i) as int
            + V4 * Limb4(s, i) as int + V5 * Limb5(s, i) as int + V6 * Limb6(s, i) as int + V7 * (Load4(s, i
            + 18) / 8) as int == LeAt(s, i, 22)
    ensures 0 <= Load4(s, i + 18) / 8 < 0x2000_0000
  {
    hide Load3, Load4, LeAt, Pow256, Limb0, Limb1, Limb2, Limb3, Limb4, Limb5, Limb6;
    BlockValue(s, i);
    LeAtSplit(s, i, 21, 1);
    OneByte(s, i + 21);
    Pow256Of21();
    CutLast(s[i + 18] as int, s[i + 19] as int, s[i + 20] as int, s[i + 21] as int);
  }

  lemma Pow256Of21()
    ensures Pow256(21) == V8
  {
    assert Pow256(7) == 0x100_0000_0000_0000;
    assert Pow256(14) == 0x1_0000_0000_0000_0000_0000_0000_0000;
  }

  /** The last eleven bytes of a 32-byte string. */
  lemma TailValue(s: seq<byte>, i: nat)
    requires i + 11 <= |s|
    ensures Limb0(s, i) as int + V1 * Limb1(s, i) as int + V2 * Limb2(s, i) as int + V3 * (Load4(s, i
            + 7) / 128) as int == LeAt(s, i, 11)
    ensures 0 <= Load4(s, i + 7) / 128 < 0x200_0000
  {
    hide Load4, LeAt, Limb0, Limb1, Limb2;
    FourBytes(s, i, 7);
    FourBytes(s, i + 4, 3);
    LeThree(s, i + 8);
    CutLast(s[i + 7] as int, s[i + 8] as int, s[i + 9] as int, s[i + 10] as int);
    assert s[i + 2] as int == 32 * (s[i + 2] as int / 32) + s[i + 2] as int % 32;
    assert s[i + 5] as int == 4 * (s[i + 5] as int / 4) + s[i + 5] as int % 4;
    assert s[i + 7] as int == 128 * (s[i + 7] as int / 128) + s[i + 7] as int % 128;
  }

  /** The twelve limbs of a 32-byte string. */
  function Load12(s: seq<byte>): (r: Words12)
    requires |s| == 32
    ensures Loaded(Ints(r)) && Eval(Ints(r)) == LeAt(s, 0, 32)
  {
    Load12Value(s);
    LoadedWords(s)
  }

  function LoadedWords(s: seq<byte>): Words12
    requires |s| == 32
  {
    Words12(Limb0(s, 0), Limb1(s, 0), Limb2(s, 0), Limb3(s, 0), Limb4(s, 0), Limb5(s, 0), Limb6(s, 0), Limb7(s, 0),
            Limb0(s, 21), Limb1(s, 21), Limb2(s, 21), Load4(s, 28) / 128)
  }

  lemma Load12Value(s: seq<byte>)
    requires |s| == 32
    ensures Loaded(Ints(LoadedWords(s))) && Eval(Ints(LoadedWords(s))) == LeAt(s, 0, 32)
  {
    hide Load3, Load4, LeAt, Pow256, Limb0, Limb1, Limb2, Limb3, Limb4, Limb5, Limb6, Limb7;
    BlockValue(s, 0);
    TailValue(s, 21);
    LeAtSplit(s, 0, 21, 11);
    Pow256Of21();
    AtEight(Ints(LoadedWords(s)));
  }

  lemma AtEight(t: Twelve)
    ensures Eval(t) == t.l0 + V1 * t.l1 + V2 * t.l2 + V3 * t.l3 + V4 * t.l4 + V5 * t.l5 + V6 * t.l6 + V7 * t.l7
            + V8 * (t.l8 + V1 * t.l9 + V2 * t.l10 + V3 * t.l11)
  {
  }

  lemma ThreeBlocks(lo: Twelve, hi: Twelve)
    ensures Eval(lo) + TWO252 * Eval(hi)
            == lo.l0 + V1 * lo.l1 + V2 * lo.l2 + V3 * lo.l3 + V4 * lo.l4 + V5 * lo.l5 + V6 * lo.l6 + V7 * lo.l7
               + V8 * (lo.l8 + V1 * lo.l9 + V2 * lo.l10 + V3 * lo.l11 + V4 * hi.l0 + V5 * hi.l1 + V6 * hi.l2
                   + V7 * hi.l3)
               + V8 * (V8 * (hi.l4 + V1 * hi.l5 + V2 * hi.l6 + V3 * hi.l7 + V4 * hi.l8 + V5 * hi.l9 + V6 * hi.l10
                   + V7 * hi.l11))
  {
  }

  function LowWords(s: seq<byte>): Words12
    requires |s| == 64
  {
    Words12(Limb0(s, 0), Limb1(s, 0), Limb2(s, 0), Limb3(s, 0), Limb4(s, 0), Limb5(s, 0), Limb6(s, 0), Limb7(s, 0),
        Limb0(s, 21), Limb1(s, 21), Limb2(s, 21), Limb3(s, 21))
  }

  function HighWords(s: seq<byte>): Words12
    requires |s| == 64
  {
    Words12(Limb4(s, 21), Limb5(s, 21), Limb6(s, 21), Limb7(s, 21), Limb0(s, 42), Limb1(s, 42), Limb2(s, 42), Limb3(s,
        42), Limb4(s, 42), Limb5(s, 42), Limb6(s, 42), Load4(s, 60) / 8)
  }

  lemma ThreeBlocksValue(s: seq<byte>, lo: Twelve, hi: Twelve)
    requires |s| == 64
    requires lo.l0 + V1 * lo.l1 + V2 * lo.l2 + V3 * lo.l3 + V4 * lo.l4 + V5 * lo.l5 + V6 * lo.l6 + V7 * lo.l7
             == LeAt(s, 0, 21)
    requires lo.l8 + V1 * lo.l9 + V2 * lo.l10 + V3 * lo.l11 + V4 * hi.l0 + V5 * hi.l1 + V6 * hi.l2 + V7 * hi.l3
             == LeAt(s, 21, 21)
    requires hi.l4 + V1 * hi.l5 + V2 * hi.l6 + V3 * hi.l7 + V4 * hi.l8 + V5 * hi.l9 + V6 * hi.l10 + V7 * hi.l11
             == LeAt(s, 42, 22)
    ensures Eval(lo) + TWO252 * Eval(hi) == LeAt(s, 0, 64)
  {
    hide LeAt, Eval, Pow256;
    LeAtSplit(s, 0, 21, 43);
    LeAtSplit(s, 21, 21, 22);
    Pow256Of21();
    ThreeBlocks(lo, hi);
  }

  /** The 24 limbs of a 64-byte string. */
  lemma Load24Value(s: seq<byte>)
    requires |s| == 64
    ensures Eval(Ints(LowWords(s))) + TWO252 * Eval(Ints(HighWords(s))) == LeAt(s, 0, 64)
    ensures Bounded(Ints(LowWords(s)), 0x4000_0000) && Bounded(Ints(HighWords(s)), 0x4000_0000)
  {
    hide Load3, Load4, LeAt, Eval, Limb0, Limb1, Limb2, Limb3, Limb4, Limb5, Limb6, Limb7;
    BlockValue(s, 0);
    BlockValue(s, 21);
    LastBlockValue(s, 42);
    ThreeBlocksValue(s, Ints(LowWords(s)), Ints(HighWords(s)));
  }

  // ---------- bytes from limbs ----------

  lemma ShiftFits(h: int, j: nat)
    requires 0 <= h <= 0x20_0000 && j <= 8
    ensures 0 <= h * Pow2(j) <= 0x2000_0000
  {
    SmallPowers();
  }

  /** byte(lo | hi << j), for lo below 2^j: the operands share no bit. */
  function Join64(lo: int64, hi: int64, j: nat): (r: byte)
    requires j <= 8 && 0 <= lo as int < Pow2(j) && 0 <= hi <= 0x20_0000
    ensures r as int == (lo as int + Pow2(j) * hi as int) % 0x100
  {
    hide Or, Pow2;
    Pow2Of63();
    SmallPowers();
    ShiftFits(hi as int, j);
    OrDisjoint(63, j, lo as int, hi as int);
    (Or(63, lo as int, hi as int * Pow2(j)) % 0x100) as byte
  }

  /**
   byte(t | h << j), byte(h >> (8-j)), and h >> (16-j), which shares a byte with the limb above or is the next byte.
   */
  method TwoBytes(t: int64, h: int64, j: nat, ghost m: int, c: int64) returns (b0: byte, b1: byte, next: int64)
    requires j <= 8 && m == Pow2(j) && 0 < c <= 0x100 && m * c as int == 0x100
    requires 0 <= t as int < m && 0 <= h <= 0x20_0000
    ensures t as int + m * h as int == b0 as int + 0x100 * b1 as int + 0x1_0000 * next as int
    ensures 0 <= next && (c as int * 0x100) * next as int <= h as int
  {
    hide Pow2, Join64;
    DivShrinks(h as int, c as int);
    DivShrinks(h as int, c as int * 0x100);
    b0 := Join64(t, h, j);
    b1 := LowByte((h / c) as int);
    next := h / (c * 0x100);
    LimbPair(t as int, h as int, m, c as int);
  }

  /** The same with one more byte, byte(h >> (16-j)); next = h >> (24-j). */
  method ThreeBytes(t: int64, h: int64, j: nat, ghost m: int, c: int64)
    returns (b0: byte, b1: byte, b2: byte, next: int64)
    requires j <= 8 && m == Pow2(j) && 0 < c <= 0x100 && m * c as int == 0x100
    requires 0 <= t as int < m && 0 <= h <= 0x20_0000
    ensures t as int + m * h as int
            == b0 as int + 0x100 * b1 as int + 0x1_0000 * b2 as int + 0x100_0000 * next as int
    ensures 0 <= next && (c as int * 0x1_0000) * next as int <= h as int
  {
    hide Pow2, Join64;
    DivShrinks(h as int, c as int);
    DivShrinks(h as int, c as int * 0x100);
    DivShrinks(h as int, c as int * 0x1_0000);
    b0 := Join64(t, h, j);
    b1 := LowByte((h / c) as int);
    b2 := LowByte((h / (c * 0x100)) as int);
    next := h / (c * 0x1_0000);
    LimbBytes(t as int, h as int, m, c as int);
  }

  /**
   Ten bytes and the four bits t3 hold four limbs; the t's are the bits of a limb that the next one shares a byte
   with.
   */
  lemma PackedHead(b: seq<byte>, s0: int, s1: int, s2: int, s3: int, t0: int, t1: int, t2: int, t3: int)
    requires |b| == 10
    requires s0 == b[0] as int + 0x100 * b[1] as int + 0x1_0000 * t0
    requires t0 + 32 * s1 == b[2] as int + 0x100 * b[3] as int + 0x1_0000 * b[4] as int + 0x100_0000 * t1
    requires t1 + 4 * s2 == b[5] as int + 0x100 * b[6] as int + 0x1_0000 * t2
    requires t2 + 128 * s3 == b[7] as int + 0x100 * b[8] as int + 0x1_0000 * b[9] as int + 0x100_0000 * t3
    ensures LeAt(b, 0, 10) + 0x1_0000_0000_0000_0000_0000 * t3 == s0 + V1 * s1 + V2 * s2 + V3 * s3
  {
    hide LeAt;
    FourBytes(b, 0, 6);
    FourBytes(b, 4, 2);
    LastTwo(b, 8);
  }

  lemma LastTwo(b: seq<byte>, i: nat)
    requires i + 2 <= |b|
    ensures LeAt(b, i, 2) == b[i] as int + 0x100 * b[i + 1] as int
  {
    OneByte(b, i + 1);
  }

  lemma PackedRest(b: seq<byte>, t3: int, s4: int, s5: int, s6: int, s7: int, t4: int, t5: int, t6: int)
    requires |b| == 11
    requires t3 + 16 * s4 == b[0] as int + 0x100 * b[1] as int + 0x1_0000 * b[2] as int + 0x100_0000 * t4
    requires t4 + 2 * s5 == b[3] as int + 0x100 * b[4] as int + 0x1_0000 * t5
    requires t5 + 64 * s6 == b[5] as int + 0x100 * b[6] as int + 0x1_0000 * b[7] as int + 0x100_0000 * t6
    requires t6 + 8 * s7 == b[8] as int + 0x100 * b[9] as int + 0x1_0000 * b[10] as int
    ensures LeAt(b, 0, 11) == t3 + 16 * (s4 + V1 * s5 + V2 * s6 + V3 * s7)
  {
    hide LeAt;
    FourBytes(b, 0, 7);
    FourBytes(b, 4, 3);
    LeThree(b, 8);
  }

  method PackHead(s0: int64, s1: int64, s2: int64, s3: int64) returns (b: seq<byte>, t3: int64)
    requires 0 <= s0 < 0x20_0000 && 0 <= s1 < 0x20_0000 && 0 <= s2 < 0x20_0000 && 0 <= s3 <= 0x20_0000
    ensures |b| == 10 && 0 <= t3 && 0x2_0000 * t3 as int <= s3 as int
    ensures LeAt(b, 0, 10) + 0x1_0000_0000_0000_0000_0000 * t3 as int == s0 as int + V1 * s1 as int + V2 * s2 as int
            + V3 * s3 as int
  {
    hide LeAt, Pow2;
    SmallPowers();
    var b0, b1, t0 := TwoBytes(0, s0, 0, 1, 256);
    var b2, b3, b4, t1 := ThreeBytes(t0, s1, 5, 32, 8);
    var b5, b6, t2 := TwoBytes(t1, s2, 2, 4, 64);
    var b7, b8, b9;
    b7, b8, b9, t3 := ThreeBytes(t2, s3, 7, 128, 2);
    b := [b0, b1, b2, b3, b4, b5, b6, b7, b8, b9];
    PackedHead(b, s0 as int, s1 as int, s2 as int, s3 as int, t0 as int, t1 as int, t2 as int, t3 as int);
  }

  method PackRest(t3: int64, s4: int64, s5: int64, s6: int64, s7: int64) returns (b: seq<byte>)
    requires 0 <= t3 < 16 && 0 <= s4 < 0x20_0000 && 0 <= s5 < 0x20_0000 && 0 <= s6 < 0x20_0000 && 0 <= s7 < 0x20_0000
    ensures |b| == 11
    ensures LeAt(b, 0, 11) == t3 as int + 16 * (s4 as int + V1 * s5 as int + V2 * s6 as int + V3 * s7 as int)
  {
    hide LeAt, Pow2;
    SmallPowers();
    var b10, b11, b12, t4 := ThreeBytes(t3, s4, 4, 16, 16);
    var b13, b14, t5 := TwoBytes(t4, s5, 1, 2, 128);
    var b15, b16, b17, t6 := ThreeBytes(t5, s6, 6, 64, 4);
    var b18, b19, b20, t7 := ThreeBytes(t6, s7, 3, 8, 32);
    b := [b10, b11, b12, b13, b14, b15, b16, b17, b18, b19, b20];
    PackedRest(b, t3 as int, s4 as int, s5 as int, s6 as int, s7 as int, t4 as int, t5 as int, t6 as int);
  }

  lemma Pow256Of10()
    ensures Pow256(10) == 0x1_0000_0000_0000_0000_0000
  {
    assert Pow256(5) == 0x100_0000_0000;
  }

  method PackBlock(s0: int64, s1: int64, s2: int64, s3: int64, s4: int64, s5: int64, s6: int64,
                   s7: int64) returns (b: seq<byte>)
    requires 0 <= s0 < 0x20_0000 && 0 <= s1 < 0x20_0000 && 0 <= s2 < 0x20_0000 && 0 <= s3 < 0x20_0000
             && 0 <= s4 < 0x20_0000 && 0 <= s5 < 0x20_0000 && 0 <= s6 < 0x20_0000 && 0 <= s7 < 0x20_0000
    ensures |b| == 21
    ensures LeAt(b, 0, 21) == s0 as int + V1 * s1 as int + V2 * s2 as int + V3 * s3 as int + V4 * s4 as int
            + V5 * s5 as int + V6 * s6 as int + V7 * s7 as int
  {
    hide LeAt, Pow256;
    var head, t3 := PackHead(s0, s1, s2, s3);
    var rest := PackRest(t3, s4, s5, s6, s7);
    b := head + rest;
    LeAtConcat(head, rest);
    Pow256Of10();
  }

  method PackTail(s0: int64, s1: int64, s2: int64, s3: int64) returns (b: seq<byte>)
    requires 0 <= s0 < 0x20_0000 && 0 <= s1 < 0x20_0000 && 0 <= s2 < 0x20_0000 && 0 <= s3 <= 0x20_0000
    ensures |b| == 11
    ensures LeAt(b, 0, 11) == s0 as int + V1 * s1 as int + V2 * s2 as int + V3 * s3 as int
  {
    hide LeAt, Pow256;
    var head, t3 := PackHead(s0, s1, s2, s3);
    b := head + [LowByte(t3 as int)];
    LeAtConcat(head, [LowByte(t3 as int)]);
    OneByte([LowByte(t3 as int)], 0);
    Pow256Of10();
  }

  /** The 32 bytes of reduced limbs. */
  method Pack(out: array<byte>, x: Words12)
    requires out.Length == 32
    requires Digits(Ints(x).(l11 := 0)) && 0 <= x.l11 <= 0x20_0000
    modifies out
    ensures LeAt(out[..], 0, 32) == Eval(Ints(x))
  {
    hide LeAt, Pow256;
    var block := PackBlock(x.l0, x.l1, x.l2, x.l3, x.l4, x.l5, x.l6, x.l7);
    var tail := PackTail(x.l8, x.l9, x.l10, x.l11);
    var bytes := block + tail;
    forall i | 0 <= i < 32 {
      out[i] := bytes[i];
    }
    assert out[..] == bytes;
    LeAtConcat(block, tail);
    Pow256Of21();
    AtEight(Ints(x));
  }

  // ---------- the exported operations ----------

  method Reduce(lo: Words12, hi: Words12) returns (r: Words12)
    requires Bounded(Ints(lo), 0x4000_0000) && Bounded(Ints(hi), 0x4000_0000)
    ensures Digits(Ints(r).(l11 := 0)) && 0 <= r.l11 <= 0x20_0000
    ensures Eval(Ints(r)) == (Eval(Ints(lo)) + TWO252 * Eval(Ints(hi))) % L
  {
    hide Eval;
    var s0, s1, s2, s3, s4, s5, s6, s7, s8, s9, s10, s11 :=
      ReduceAll(Ints(lo), Ints(hi), lo.l0, lo.l1, lo.l2, lo.l3, lo.l4, lo.l5, lo.l6, lo.l7, lo.l8, lo.l9, lo.l10,
          lo.l11, hi.l0, hi.l1, hi.l2, hi.l3, hi.l4, hi.l5, hi.l6, hi.l7, hi.l8, hi.l9, hi.l10, hi.l11);
    r := Words12(s0, s1, s2, s3, s4, s5, s6, s7, s8, s9, s10, s11);
  }

  /** out becomes the 64-byte number s modulo l, in [0, l). */
  method ScReduce(out: array<byte>, s: array<byte>)
    requires out.Length == 32 && s.Length == 64
    modifies out
    ensures LeAt(out[..], 0, 32) == old(LeAt(s[..], 0, 64)) % L
  {
    hide LeAt, Eval, LowWords, HighWords;
    var input := s[..];
    Load24Value(input);
    var r := Reduce(LowWords(input), HighWords(input));
    Pack(out, r);
  }

  // ---------- ScMulAdd ----------

  predicate Sums(t: Twelve) {
    0 <= t.l0 < 0x4_0000_0000_0000 && 0 <= t.l1 < 0x4_0000_0000_0000 && 0 <= t.l2 < 0x4_0000_0000_0000
        && 0 <= t.l3 < 0x4_0000_0000_0000 && 0 <= t.l4 < 0x4_0000_0000_0000 && 0 <= t.l5 < 0x4_0000_0000_0000
            && 0 <= t.l6 < 0x4_0000_0000_0000 && 0 <= t.l7 < 0x4_0000_0000_0000 && 0 <= t.l8 < 0x4_0000_0000_0000
                && 0 <= t.l9 < 0x4_0000_0000_0000 && 0 <= t.l10 < 0x4_0000_0000_0000 && 0 <= t.l11 < 0x4_0000_0000_0000
  }

  /** Even limbs rounded; odd limbs not negative yet. */
  predicate HalfRounded(t: Twelve) {
    -0x10_0000 <= t.l0 < 0x10_0000 && 0 <= t.l1 < 0x4_0000_4000_0000
    && -0x10_0000 <= t.l2 < 0x10_0000 && 0 <= t.l3 < 0x4_0000_4000_0000
    && -0x10_0000 <= t.l4 < 0x10_0000 && 0 <= t.l5 < 0x4_0000_4000_0000
    && -0x10_0000 <= t.l6 < 0x10_0000 && 0 <= t.l7 < 0x4_0000_4000_0000
    && -0x10_0000 <= t.l8 < 0x10_0000 && 0 <= t.l9 < 0x4_0000_4000_0000
    && -0x10_0000 <= t.l10 < 0x10_0000 && 0 <= t.l11 < 0x4_0000_4000_0000
  }

  /** The rounding carries from the even limbs. */
  method CarryEvens(x: Words12) returns (r: Words12)
    requires Sums(Ints(x))
    ensures HalfRounded(Ints(r)) && (x.l11 == 0 ==> r.l11 <= 0x2000_0001)
    ensures Eval(Ints(r)) == Eval(Ints(x))
  {
    hide Eval;
    var s0, s1, c0 := Round(x.l0, x.l1);
    var s2, s3, c2 := Round(x.l2, x.l3);
    var s4, s5, c4 := Round(x.l4, x.l5);
    var s6, s7, c6 := Round(x.l6, x.l7);
    var s8, s9, c8 := Round(x.l8, x.l9);
    var s10, s11, c10 := Round(x.l10, x.l11);
    r := Words12(s0, s1, s2, s3, s4, s5, s6, s7, s8, s9, s10, s11);
    CarriesTelescope(Ints(x), c0, 0, c2, 0, c4, 0, c6, 0, c8, 0, c10, 0);
  }

  /** The rounding carries from the odd limbs but the last. */
  method CarryOdds(x: Words12) returns (r: Words12)
    requires HalfRounded(Ints(x))
    ensures Eval(Ints(r)) == Eval(Ints(x)) && r.l0 == x.l0 && r.l11 == x.l11
    ensures Bounded(Ints(r).(l11 := 0), 0x3000_0000)
  {
    hide Eval;
    var s1, s2, c1 := Round(x.l1, x.l2);
    var s3, s4, c3 := Round(x.l3, x.l4);
    var s5, s6, c5 := Round(x.l5, x.l6);
    var s7, s8, c7 := Round(x.l7, x.l8);
    var s9, s10, c9 := Round(x.l9, x.l10);
    r := Words12(x.l0, s1, s2, s3, s4, s5, s6, s7, s8, s9, s10, x.l11);
    CarriesTelescope(Ints(x), 0, c1, 0, c3, 0, c5, 0, c7, 0, c9, 0, 0);
  }

  lemma CarryAcross(lo: Twelve, hi: Twelve, c: int)
    ensures Eval(lo.(l11 := lo.l11 - 0x20_0000 * c)) + TWO252 * Eval(hi.(l0 := hi.l0 + c)) == Eval(lo)
            + TWO252 * Eval(hi)
  {
  }

  /** All carries of the first pass: from s0, s2, ..., s22, then from s1, s3, ..., s21. */
  method RoundSums(lo: Words12, hi: Words12) returns (lo': Words12, hi': Words12)
    requires Sums(Ints(lo)) && Sums(Ints(hi)) && hi.l11 == 0
    ensures Bounded(Ints(lo'), 0x4000_0000) && Bounded(Ints(hi'), 0x4000_0000)
    ensures Eval(Ints(lo')) + TWO252 * Eval(Ints(hi')) == Eval(Ints(lo)) + TWO252 * Eval(Ints(hi))
  {
    hide Eval;
    var x := CarryEvens(lo);
    var y := CarryEvens(hi);
    lo' := CarryOdds(x);
    hi' := CarryOdds(y);
    ghost var t, u := Ints(lo'), Ints(hi');
    var s11, s12, c := Round(lo'.l11, hi'.l0);
    lo', hi' := lo'.(l11 := s11), hi'.(l0 := s12);
    CarryAcross(t, u, c);
    assert Ints(lo') == t.(l11 := t.l11 - 0x20_0000 * c) && Ints(hi') == u.(l0 := u.l0 + c);
  }

  method FormSums(a: Words12, b: Words12, c: Words12) returns (lo: Words12, hi: Words12)
    requires Loaded(Ints(a)) && Loaded(Ints(b)) && Loaded(Ints(c))
    ensures Sums(Ints(lo)) && Sums(Ints(hi)) && hi.l11 == 0
    ensures Eval(Ints(lo)) + TWO252 * Eval(Ints(hi)) == Eval(Ints(a)) * Eval(Ints(b)) + Eval(Ints(c))
  {
    hide Eval, LowSums, HighSums, Ints;
    var s0, s1, s2, s3, s4, s5 := Sums0To5(a, b, c);
    var s6, s7, s8 := Sums6To8(a, b, c);
    var s9, s10, s11 := Sums9To11(a, b, c);
    var s12, s13, s14, s15 := Sums12To15(a, b);
    var s16, s17, s18, s19, s20, s21, s22 := Sums16To22(a, b);
    lo := Words12(s0, s1, s2, s3, s4, s5, s6, s7, s8, s9, s10, s11);
    hi := Words12(s12, s13, s14, s15, s16, s17, s18, s19, s20, s21, s22, 0);
    AsInts(lo);
    AsInts(hi);
    NoTopSum(Ints(a), Ints(b));
    SumsValue(Ints(a), Ints(b), Ints(c));
    assert Ints(lo) == LowSums(Ints(a), Ints(b), Ints(c));
    assert Ints(hi) == HighSums(Ints(a), Ints(b));
  }

  lemma AsInts(x: Words12)
    ensures Ints(x) == Twelve(x.l0 as int, x.l1 as int, x.l2 as int, x.l3 as int, x.l4 as int, x.l5 as int,
            x.l6 as int, x.l7 as int, x.l8 as int, x.l9 as int, x.l10 as int, x.l11 as int)
  {
  }

  lemma NoTopSum(a: Twelve, b: Twelve)
    ensures HighSums(a, b).l11 == 0
  {
  }

  /** s becomes ab + c modulo l, in [0, l), for any three 32-byte numbers; s may be one of them. */
  method ScMulAdd(s: array<byte>, a: array<byte>, b: array<byte>, c: array<byte>)
    requires s.Length == 32 && a.Length == 32 && b.Length == 32 && c.Length == 32
    modifies s
    ensures LeAt(s[..], 0, 32) == old(LeAt(a[..], 0, 32) * LeAt(b[..], 0, 32) + LeAt(c[..], 0, 32)) % L
  {
    hide LeAt, Eval, Load12;
    var x := Load12(a[..]);
    var y := Load12(b[..]);
    var z := Load12(c[..]);
    var lo, hi := FormSums(x, y, z);
    lo, hi := RoundSums(lo, hi);
    var r := Reduce(lo, hi);
    Pack(s, r);
  }
}
