/**
 Field elements of vrf/edwards25519/edwards25519.go: ten signed 32-bit limbs of alternating
 26 and 25 bits, written in place through arrays.
 */
module FieldElement {
  import opened Words
  import opened BitOps

  /** The limbs of a field element, or the ten wide sums the carry chain reduces, as plain integers. */
  datatype Ten = Ten(e0: int, e1: int, e2: int, e3: int, e4: int, e5: int, e6: int, e7: int, e8: int, e9: int)

  // Limb i has weight 2^ceil(25.5 i).
  const W1: int := 0x400_0000
  const W2: int := 0x8_0000_0000_0000
  const W3: int := 0x2000_0000_0000_0000_0000
  const W4: int := 0x40_0000_0000_0000_0000_0000_0000
  const W5: int := 0x1_0000_0000_0000_0000_0000_0000_0000_0000
  const W6: int := 0x200_0000_0000_0000_0000_0000_0000_0000_0000_0000
  const W7: int := 0x8_0000_0000_0000_0000_0000_0000_0000_0000_0000_0000_0000
  const W8: int := 0x1000_0000_0000_0000_0000_0000_0000_0000_0000_0000_0000_0000_0000
  const W9: int := 0x40_0000_0000_0000_0000_0000_0000_0000_0000_0000_0000_0000_0000_0000_0000

  function Eval(t: Ten): int {
    t.e0 + W1*t.e1 + W2*t.e2 + W3*t.e3 + W4*t.e4 + W5*t.e5 + W6*t.e6 + W7*t.e7 + W8*t.e8 + W9*t.e9
  }

  function Plus(s: Ten, t: Ten): Ten {
    Ten(s.e0 + t.e0, s.e1 + t.e1, s.e2 + t.e2, s.e3 + t.e3, s.e4 + t.e4,
        s.e5 + t.e5, s.e6 + t.e6, s.e7 + t.e7, s.e8 + t.e8, s.e9 + t.e9)
  }

  predicate Bounded(t: Ten, even: int, odd: int) {
    && -even <= t.e0 <= even && -odd <= t.e1 <= odd
    && -even <= t.e2 <= even && -odd <= t.e3 <= odd
    && -even <= t.e4 <= even && -odd <= t.e5 <= odd
    && -even <= t.e6 <= even && -odd <= t.e7 <= odd
    && -even <= t.e8 <= even && -odd <= t.e9 <= odd
  }

  /** Limbs at most n times the bound that every multiplication re-establishes: 1.01*2^25 and 1.01*2^24. */
  predicate Within(t: Ten, n: nat) {
    Bounded(t, n * 33889976, n * 16944988)
  }

  ghost predicate IsElement(f: array<int32>) {
    f.Length == 10
  }

  ghost function Limbs(f: array<int32>): Ten
    requires IsElement(f)
    reads f
  {
    Ten(f[0] as int, f[1] as int, f[2] as int, f[3] as int, f[4] as int,
        f[5] as int, f[6] as int, f[7] as int, f[8] as int, f[9] as int)
  }

  /** The integer a field element stands for, before reduction modulo p. */
  ghost function Value(f: array<int32>): int
    requires IsElement(f)
    reads f
  {
    Eval(Limbs(f))
  }

  ghost predicate Small(f: array<int32>, n: nat)
    requires IsElement(f)
    reads f
  {
    Within(Limbs(f), n)
  }

  method FeZero(fe: array<int32>)
    requires IsElement(fe)
    modifies fe
    ensures Value(fe) == 0 && Small(fe, 0)
  {
    forall i | 0 <= i < 10 {
      fe[i] := 0;
    }
  }

  method FeOne(fe: array<int32>)
    requires IsElement(fe)
    modifies fe
    ensures Limbs(fe) == Ten(1, 0, 0, 0, 0, 0, 0, 0, 0, 0)
    ensures Value(fe) == 1 && Small(fe, 1)
  {
    FeZero(fe);
    fe[0] := 1;
  }

  lemma PlusValue(s: Ten, t: Ten)
    ensures Eval(Plus(s, t)) == Eval(s) + Eval(t)
  {
  }

  lemma PlusWithin(s: Ten, t: Ten, n: nat, m: nat)
    requires Within(s, n) && Within(t, m)
    ensures Within(Plus(s, t), n + m)
  {
  }

  function Minus(t: Ten): Ten {
    Ten(-t.e0, -t.e1, -t.e2, -t.e3, -t.e4, -t.e5, -t.e6, -t.e7, -t.e8, -t.e9)
  }

  lemma MinusFacts(t: Ten, n: nat)
    requires Within(t, n)
    ensures Within(Minus(t), n)
    ensures Eval(Minus(t)) == -Eval(t)
  {
  }

  /** Up to 63 units fit in a 32-bit limb. */
  lemma WithinFits(t: Ten, n: nat)
    requires Within(t, n) && n <= 63
    ensures Bounded(t, 0x7FFF_FFFF, 0x7FFF_FFFF)
  {
  }

  /** The limbs brought into 32-bit words. */
  function Wrapped(t: Ten): Ten {
    Ten(Wrap32(t.e0), Wrap32(t.e1), Wrap32(t.e2), Wrap32(t.e3), Wrap32(t.e4),
        Wrap32(t.e5), Wrap32(t.e6), Wrap32(t.e7), Wrap32(t.e8), Wrap32(t.e9))
  }

  lemma NothingWraps(t: Ten, n: nat)
    requires Within(t, n) && n <= 63
    ensures Wrapped(t) == t
  {
    hide Wrap32;
    WithinFits(t, n);
  }

  lemma SumFacts(s: Ten, t: Ten, n: nat, m: nat)
    ensures Within(s, n) && Within(t, m) && n + m <= 63 ==>
              && Wrapped(Plus(s, t)) == Plus(s, t) && Within(Plus(s, t), n + m)
              && Eval(Plus(s, t)) == Eval(s) + Eval(t)
  {
    hide Eval, Within, Plus, Wrapped;
    if Within(s, n) && Within(t, m) && n + m <= 63 {
      PlusValue(s, t);
      PlusWithin(s, t, n, m);
      NothingWraps(Plus(s, t), n + m);
    }
  }

  lemma DifferenceFacts(s: Ten, t: Ten, n: nat, m: nat)
    ensures var d := Plus(s, Minus(t));
            Within(s, n) && Within(t, m) && n + m <= 63 ==>
              Wrapped(d) == d && Within(d, n + m) && Eval(d) == Eval(s) - Eval(t)
  {
    hide Eval, Within, Plus, Minus, Wrapped;
    if Within(s, n) && Within(t, m) && n + m <= 63 {
      MinusFacts(t, m);
      SumFacts(s, Minus(t), n, m);
    }
  }

  /** dst may be a or b. Limbs wrap around in 32 bits, which sums of n and m units never do for n + m <= 63. */
  method FeAdd(dst: array<int32>, a: array<int32>, b: array<int32>, ghost n: nat, ghost m: nat)
    requires IsElement(dst) && IsElement(a) && IsElement(b)
    modifies dst
    ensures Limbs(dst) == Wrapped(Plus(old(Limbs(a)), old(Limbs(b))))
    ensures old(Small(a, n) && Small(b, m)) && n + m <= 63 ==>
              && Value(dst) == old(Value(a)) + old(Value(b))
              && Small(dst, n + m)
              && Limbs(dst) == Plus(old(Limbs(a)), old(Limbs(b)))
  {
    hide Eval, Within, Wrap32;
    SumFacts(Limbs(a), Limbs(b), n, m);
    forall i | 0 <= i < 10 {
      dst[i] := Wrap32(a[i] as int + b[i] as int) as int32;
    }
  }

  method FeSub(dst: array<int32>, a: array<int32>, b: array<int32>, ghost n: nat, ghost m: nat)
    requires IsElement(dst) && IsElement(a) && IsElement(b)
    modifies dst
    ensures Limbs(dst) == Wrapped(Plus(old(Limbs(a)), Minus(old(Limbs(b)))))
    ensures old(Small(a, n) && Small(b, m)) && n + m <= 63 ==>
              && Value(dst) == old(Value(a)) - old(Value(b))
              && Small(dst, n + m)
              && Limbs(dst) == Plus(old(Limbs(a)), Minus(old(Limbs(b))))
  {
    hide Eval, Within, Wrap32;
    DifferenceFacts(Limbs(a), Limbs(b), n, m);
    forall i | 0 <= i < 10 {
      dst[i] := Wrap32(a[i] as int - b[i] as int) as int32;
    }
  }

  method FeCopy(dst: array<int32>, src: array<int32>)
    requires IsElement(dst) && IsElement(src)
    modifies dst
    ensures Limbs(dst) == old(Limbs(src))
  {
    forall i | 0 <= i < 10 {
      dst[i] := src[i];
    }
  }

  method FeNeg(h: array<int32>, f: array<int32>, ghost n: nat)
    requires IsElement(h) && IsElement(f)
    requires Small(f, n) && n <= 63
    modifies h
    ensures Value(h) == -old(Value(f))
    ensures Small(h, n)
  {
    hide Eval, Within;
    MinusFacts(Limbs(f), n);
    WithinFits(Limbs(f), n);
    WithinFits(Minus(Limbs(f)), n);
    forall i | 0 <= i < 10 {
      h[i] := -f[i];
    }
  }

  /** x ^= mask & (x ^ y), on 32-bit words. */
  function Masked(x: int32, y: int32, mask: int32): (r: int32)
    ensures mask == -1 ==> r == y
    ensures mask == 0 ==> r == x
  {
    Pow2Of32();
    Blend(31, x as int, y as int, mask as int) as int32
  }

  method FeCMove(f: array<int32>, g: array<int32>, b: int32)
    requires IsElement(f) && IsElement(g)
    requires b == 0 || b == 1
    modifies f
    ensures Limbs(f) == if b == 1 then old(Limbs(g)) else old(Limbs(f))
  {
    hide Masked;
    forall i | 0 <= i < 10 {
      f[i] := Masked(f[i], g[i], -b);
    }
  }
}
