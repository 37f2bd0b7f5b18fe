/**
 The addition chains FeInvert and fePow22523 of vrf/edwards25519/edwards25519.go, with their
 temporaries squared and multiplied in place.
 */
module FieldChains {
  import opened Words
  import opened BitOps
  import opened Congruence
  import opened FieldElement
  import opened FieldMultiply

  ghost function Pow(z: int, e: nat): int
    decreases z, e
  {
    if e == 0 then 1 else z * Pow(z, e - 1)
  }

  lemma {:induction false} PowAdds(z: int, d: nat, e: nat)
    ensures Pow(z, d + e) == Pow(z, d) * Pow(z, e)
    decreases d
  {
    if d > 0 {
      PowAdds(z, d - 1, e);
      assert z * (Pow(z, d - 1) * Pow(z, e)) == (z * Pow(z, d - 1)) * Pow(z, e);
    }
  }

  /** f stands for z^e modulo p and may be multiplied. */
  ghost predicate IsPower(f: array<int32>, z: int, e: nat)
    requires IsElement(f)
    reads f
  {
    Loose(f) && Cong(Value(f), Pow(z, e))
  }

  lemma SmallIsLoose(f: array<int32>, n: nat)
    requires IsElement(f) && Small(f, n) && n <= 3
    ensures Loose(f)
  {
  }

  lemma ProductOfPowers(h: int, f: int, g: int, z: int, d: nat, e: nat)
    requires Cong(h, f * g) && Cong(f, Pow(z, d)) && Cong(g, Pow(z, e))
    ensures Cong(h, Pow(z, d + e))
  {
    hide Cong, Pow;
    CongMul(f, Pow(z, d), g, Pow(z, e));
    CongTrans(h, f * g, Pow(z, d) * Pow(z, e));
    PowAdds(z, d, e);
  }

  method MulPowers(h: array<int32>, f: array<int32>, g: array<int32>, ghost z: int, ghost d: nat, ghost e: nat)
    requires IsElement(h) && IsElement(f) && IsElement(g)
    requires IsPower(f, z, d) && IsPower(g, z, e)
    modifies h
    ensures IsPower(h, z, d + e) && Small(h, 1)
  {
    hide Cong, Pow, Value, Small, Loose;
    ghost var x, y := Value(f), Value(g);
    FeMul(h, f, g);
    SmallIsLoose(h, 1);
    ProductOfPowers(Value(h), x, y, z, d, e);
  }

  /** FeSquare(dst, src) followed by n - 1 squarings of dst in place. */
  method SquareTimes(dst: array<int32>, src: array<int32>, n: nat, ghost z: int, ghost e: nat)
    requires IsElement(dst) && IsElement(src)
    requires n >= 1 && IsPower(src, z, e)
    modifies dst
    ensures IsPower(dst, z, e * Pow2(n))
  {
    hide Cong, Pow, Value, Small, Loose;
    ghost var x := Value(src);
    FeSquare(dst, src);
    SmallIsLoose(dst, 1);
    ProductOfPowers(Value(dst), x, x, z, e, e);
    assert e + e == e * Pow2(1);
    for i := 1 to n
      invariant IsPower(dst, z, e * Pow2(i))
    {
      x := Value(dst);
      FeSquare(dst, dst);
      SmallIsLoose(dst, 1);
      ProductOfPowers(Value(dst), x, x, z, e * Pow2(i), e * Pow2(i));
      assert e * Pow2(i) + e * Pow2(i) == e * Pow2(i + 1);
    }
  }

  /** The exponent 2^n - 1. */
  ghost function Ones(n: nat): nat {
    Pow2(n) - 1
  }

  /** Shifting m ones up by n places and adding n ones gives m + n ones. */
  lemma OnesJoin(m: nat, n: nat)
    ensures Ones(m) * Pow2(n) + Ones(n) == Ones(m + n)
  {
    hide Pow2;
    var x, y := Pow2(m), Pow2(n);
    Pow2Adds(m, n);
    assert (x - 1) * y == x * y - y;
  }

  lemma PowOne(f: array<int32>)
    requires IsElement(f) && Loose(f)
    ensures IsPower(f, Value(f), 1)
  {
    var z := Value(f);
    assert Pow(z, 1) == z * Pow(z, 0) == z;
    assert Cong(z, z);
  }

  /** 2^255 - 21, which is p - 2. */
  const INVERT: nat := 0x7FFF_FFFF_FFFF_FFFF_FFFF_FFFF_FFFF_FFFF_FFFF_FFFF_FFFF_FFFF_FFFF_FFFF_FFFF_FFEB

  /** 2^252 - 3, which is (p - 5) / 8. */
  const POW22523: nat := 0xFFF_FFFF_FFFF_FFFF_FFFF_FFFF_FFFF_FFFF_FFFF_FFFF_FFFF_FFFF_FFFF_FFFF_FFFF_FFFD

  lemma ShortPowers()
    ensures Pow2(1) == 2 && Pow2(2) == 4 && Pow2(5) == 32 && Pow2(10) == 0x400
  {
  }

  lemma ChainExponents()
    ensures Pow2(1) == 2 && Pow2(2) == 4 && Pow2(5) == 32
    ensures Ones(5) == 31
    ensures Ones(250) * 32 + 11 == INVERT
    ensures Ones(250) * 4 + 1 == POW22523
  {
    hide Pow2;
    ShortPowers();
    Pow2Adds(10, 5);
    Pow2Adds(10, 15);
    Pow2Adds(25, 25);
    Pow2Adds(50, 50);
    Pow2Adds(100, 100);
    Pow2Adds(200, 50);
  }

  /** Squares u n times into tmp and multiplies by t: from 2^m - 1 and 2^n - 1 ones to 2^(m+n) - 1. */
  method ExtendOnes(out: array<int32>, tmp: array<int32>, u: array<int32>, t: array<int32>, ghost z: int, ghost m: nat,
                    n: nat)
    requires IsElement(out) && IsElement(tmp) && IsElement(u) && IsElement(t)
    requires tmp != t && n >= 1
    requires IsPower(u, z, Ones(m)) && IsPower(t, z, Ones(n))
    modifies out, tmp
    ensures IsPower(out, z, Ones(m + n))
  {
    hide IsPower, Ones, Pow2;
    SquareTimes(tmp, u, n, z, Ones(m));
    MulPowers(out, tmp, t, z, Ones(m) * Pow2(n), Ones(n));
    OnesJoin(m, n);
  }

  /** The first six steps of FeInvert: t0 = z^11 and t1 = z^(2^5 - 1). */
  method InvertStart(t0: array<int32>, t1: array<int32>, t2: array<int32>, z: array<int32>, ghost v: int)
    requires IsElement(t0) && IsElement(t1) && IsElement(t2) && IsElement(z)
    requires t0 != t1 && t0 != t2 && t1 != t2 && z != t0 && z != t1 && z != t2
    requires IsPower(z, v, 1)
    modifies t0, t1, t2
    ensures IsPower(t0, v, 11) && IsPower(t1, v, Ones(5))
  {
    hide IsPower, Ones, Pow2;
    ChainExponents();
    SquareTimes(t0, z, 1, v, 1);
    SquareTimes(t1, t0, 2, v, 2);
    MulPowers(t1, z, t1, v, 1, 8);
    MulPowers(t0, t0, t1, v, 2, 9);
    SquareTimes(t2, t0, 1, v, 11);
    MulPowers(t1, t1, t2, v, 9, 22);
  }

  /** out = z^(p-2) modulo p; out may be z. */
  method FeInvert(out: array<int32>, z: array<int32>)
    requires IsElement(out) && IsElement(z) && Loose(z)
    modifies out
    ensures Cong(Value(out), Pow(old(Value(z)), INVERT))
    ensures Small(out, 1)
  {
    hide IsPower, Ones, Pow2, Cong, Value, Small, Loose, Pow;
    ghost var v := Value(z);
    PowOne(z);
    ChainExponents();
    var t0, t1, t2, t3 := new int32[10], new int32[10], new int32[10], new int32[10];
    InvertStart(t0, t1, t2, z, v);
    ExtendOnes(t1, t2, t1, t1, v, 5, 5);
    ExtendOnes(t2, t2, t1, t1, v, 10, 10);
    ExtendOnes(t2, t3, t2, t2, v, 20, 20);
    ExtendOnes(t1, t2, t2, t1, v, 40, 10);
    ExtendOnes(t2, t2, t1, t1, v, 50, 50);
    ExtendOnes(t2, t3, t2, t2, v, 100, 100);
    ExtendOnes(t1, t2, t2, t1, v, 200, 50);
    SquareTimes(t1, t1, 5, v, Ones(250));
    MulPowers(out, t1, t0, v, Ones(250) * Pow2(5), 11);
    PowerCongruence(out, v, INVERT);
  }

  lemma PowerCongruence(f: array<int32>, z: int, e: nat)
    requires IsElement(f) && IsPower(f, z, e)
    ensures Cong(Value(f), Pow(z, e))
  {
  }

  /** out = z^((p-5)/8) modulo p; out may be z. */
  method fePow22523(out: array<int32>, z: array<int32>)
    requires IsElement(out) && IsElement(z) && Loose(z)
    modifies out
    ensures Cong(Value(out), Pow(old(Value(z)), POW22523))
    ensures Small(out, 1)
  {
    hide IsPower, Ones, Pow2, Cong, Value, Small, Loose, Pow;
    ghost var v := Value(z);
    PowOne(z);
    ChainExponents();
    var t0, t1, t2 := new int32[10], new int32[10], new int32[10];
    SquareTimes(t0, z, 1, v, 1);
    SquareTimes(t1, t0, 2, v, 2);
    MulPowers(t1, z, t1, v, 1, 8);
    MulPowers(t0, t0, t1, v, 2, 9);
    SquareTimes(t0, t0, 1, v, 11);
    MulPowers(t0, t1, t0, v, 9, 22);
    ExtendOnes(t0, t1, t0, t0, v, 5, 5);
    ExtendOnes(t1, t1, t0, t0, v, 10, 10);
    ExtendOnes(t1, t2, t1, t1, v, 20, 20);
    ExtendOnes(t0, t1, t1, t0, v, 40, 10);
    ExtendOnes(t1, t1, t0, t0, v, 50, 50);
    ExtendOnes(t1, t2, t1, t1, v, 100, 100);
    ExtendOnes(t0, t1, t1, t0, v, 200, 50);
    SquareTimes(t0, t0, 2, v, Ones(250));
    MulPowers(out, t0, z, v, Ones(250) * Pow2(2), 1);
    PowerCongruence(out, v, POW22523);
  }
}
