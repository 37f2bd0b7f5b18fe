/**
 Arithmetic modulo the group order l = 2^252 + 27742317777372353535851937790883648493 in
 vrf/edwards25519/edwards25519.go: ScReduce and ScMulAdd on limbs of 21 bits.
 */
module ScalarField {
  import opened Words
  import opened Division

  const L: int := 0x1000_0000_0000_0000_0000_0000_0000_0000_14DE_F9DE_A2F7_9CD6_5812_631A_5CF5_D3ED
  const TWO252: int := 0x1000_0000_0000_0000_0000_0000_0000_0000_0000_0000_0000_0000_0000_0000_0000_0000
  const TWO126: int := 0x4000_0000_0000_0000_0000_0000_0000_0000

  // Limb i has weight 2^(21 i).
  const V1: int := 0x20_0000
  const V2: int := 0x400_0000_0000
  const V3: int := 0x8000_0000_0000_0000
  const V4: int := 0x10_0000_0000_0000_0000_0000
  const V5: int := 0x200_0000_0000_0000_0000_0000_0000
  const V6: int := 0x4000_0000_0000_0000_0000_0000_0000_0000
  const V7: int := 0x8_0000_0000_0000_0000_0000_0000_0000_0000_0000
  const V8: int := 0x100_0000_0000_0000_0000_0000_0000_0000_0000_0000_0000
  const V9: int := 0x2000_0000_0000_0000_0000_0000_0000_0000_0000_0000_0000_0000
  const V10: int := 0x4_0000_0000_0000_0000_0000_0000_0000_0000_0000_0000_0000_0000_0000
  const V11: int := 0x80_0000_0000_0000_0000_0000_0000_0000_0000_0000_0000_0000_0000_0000_0000

  /** Twelve limbs of 21 bits. */
  datatype Twelve = Twelve(l0: int, l1: int, l2: int, l3: int, l4: int, l5: int, l6: int, l7: int, l8: int, l9: int,
                           l10: int, l11: int)

  function Eval(t: Twelve): int {
    t.l0 + V1*t.l1 + V2*t.l2 + V3*t.l3 + V4*t.l4 + V5*t.l5 + V6*t.l6 + V7*t.l7 + V8*t.l8 + V9*t.l9 + V10*t.l10
        + V11*t.l11
  }

  predicate Bounded(t: Twelve, m: int) {
    && -m <= t.l0 <= m && -m <= t.l1 <= m && -m <= t.l2 <= m
    && -m <= t.l3 <= m && -m <= t.l4 <= m && -m <= t.l5 <= m
    && -m <= t.l6 <= m && -m <= t.l7 <= m && -m <= t.l8 <= m
    && -m <= t.l9 <= m && -m <= t.l10 <= m && -m <= t.l11 <= m
  }

  predicate Digits(t: Twelve) {
    && 0 <= t.l0 < 0x20_0000 && 0 <= t.l1 < 0x20_0000 && 0 <= t.l2 < 0x20_0000
    && 0 <= t.l3 < 0x20_0000 && 0 <= t.l4 < 0x20_0000 && 0 <= t.l5 < 0x20_0000
    && 0 <= t.l6 < 0x20_0000 && 0 <= t.l7 < 0x20_0000 && 0 <= t.l8 < 0x20_0000
    && 0 <= t.l9 < 0x20_0000 && 0 <= t.l10 < 0x20_0000 && 0 <= t.l11 < 0x20_0000
  }

  // ---------- carries ----------

  method Round(x: int64, y: int64) returns (x': int64, y': int64, ghost c: int)
    requires -0x2000_0000_0000_0000 <= x <= 0x2000_0000_0000_0000
    requires -0x2000_0000_0000_0000 <= y <= 0x2000_0000_0000_0000
    ensures x' as int == x as int - 0x20_0000 * c && y' as int == y as int + c
    ensures -0x10_0000 <= x' < 0x10_0000
  {
    var carry := (x + 0x10_0000) / 0x20_0000;
    x', y', c := x - carry * 0x20_0000, y + carry, carry as int;
  }

  method Floor(x: int64, y: int64) returns (x': int64, y': int64, ghost c: int)
    requires -0x2000_0000_0000_0000 <= x <= 0x2000_0000_0000_0000
    requires -0x2000_0000_0000_0000 <= y <= 0x2000_0000_0000_0000
    ensures x' as int == x as int - 0x20_0000 * c && y' as int == y as int + c
    ensures 0 <= x' < 0x20_0000
  {
    var carry := x / 0x20_0000;
    x', y', c := x - carry * 0x20_0000, y + carry, carry as int;
  }

  /** Carries between neighbours keep the value, whatever their order; c11 leaves at the top. */
  lemma CarriesTelescope(t: Twelve, c0: int, c1: int, c2: int, c3: int, c4: int, c5: int, c6: int, c7: int, c8: int,
                         c9: int, c10: int, c11: int)
    ensures Eval(Twelve(t.l0 - 0x20_0000 * c0, t.l1 + c0 - 0x20_0000 * c1,
                        t.l2 + c1 - 0x20_0000 * c2,
                        t.l3 + c2 - 0x20_0000 * c3,
                        t.l4 + c3 - 0x20_0000 * c4,
                        t.l5 + c4 - 0x20_0000 * c5,
                        t.l6 + c5 - 0x20_0000 * c6,
                        t.l7 + c6 - 0x20_0000 * c7,
                        t.l8 + c7 - 0x20_0000 * c8,
                        t.l9 + c8 - 0x20_0000 * c9,
                        t.l10 + c9 - 0x20_0000 * c10,
                        t.l11 + c10 - 0x20_0000 * c11)) == Eval(t) - TWO252 * c11
  {
  }

  /**
   Rounding carries out of six even places, then out of the odd ones but the last: what the source does on limbs 6
   to 17.
   */
  method RoundMiddle(ghost t: Twelve, s0': int64, s1': int64, s2': int64, s3': int64, s4': int64, s5': int64,
                     s6': int64, s7': int64, s8': int64, s9': int64, s10': int64, s11': int64)
    returns (s0: int64, s1: int64, s2: int64, s3: int64, s4: int64, s5: int64, s6: int64, s7: int64, s8: int64,
             s9: int64, s10: int64, s11: int64)
    requires t == Twelve(s0' as int, s1' as int, s2' as int, s3' as int, s4' as int, s5' as int, s6' as int,
             s7' as int, s8' as int, s9' as int, s10' as int, s11' as int)
    requires Bounded(t, 0x10_0000_0000_0000) && -0x4000_0000 <= t.l11 <= 0x4000_0000
    ensures Bounded(Twelve(s0 as int, s1 as int, s2 as int, s3 as int, s4 as int, s5 as int, s6 as int, s7 as int,
            s8 as int, s9 as int, s10 as int, s11 as int), 0x1_0000_0000)
    ensures Eval(Twelve(s0 as int, s1 as int, s2 as int, s3 as int, s4 as int, s5 as int, s6 as int, s7 as int,
            s8 as int, s9 as int, s10 as int, s11 as int)) == Eval(t)
  {
    hide Eval;
    s0, s1, s2, s3, s4, s5, s6, s7, s8, s9, s10, s11 := s0', s1', s2', s3', s4', s5', s6', s7', s8', s9', s10', s11';
    ghost var c0, c1, c2, c3, c4, c5, c6, c7, c8, c9, c10;
    s0, s1, c0 := Round(s0, s1);
    s2, s3, c2 := Round(s2, s3);
    s4, s5, c4 := Round(s4, s5);
    s6, s7, c6 := Round(s6, s7);
    s8, s9, c8 := Round(s8, s9);
    s10, s11, c10 := Round(s10, s11);
    s1, s2, c1 := Round(s1, s2);
    s3, s4, c3 := Round(s3, s4);
    s5, s6, c5 := Round(s5, s6);
    s7, s8, c7 := Round(s7, s8);
    s9, s10, c9 := Round(s9, s10);
    CarriesTelescope(t, c0, c1, c2, c3, c4, c5, c6, c7, c8, c9, c10, 0);
  }

  // ---------- folding 2^252 = l - 27742317777372353535851937790883648493 ----------

  /** x += a (2^252 mod l), limb by limb: the six updates that replace limb a, twelve places up. */
  method Fold(a: int64, x0': int64, x1': int64, x2': int64, x3': int64, x4': int64, x5': int64)
    returns (x0: int64, x1: int64, x2: int64, x3: int64, x4: int64, x5: int64)
    requires -0x8_0000_0000 <= a <= 0x8_0000_0000
    requires -0x1000_0000_0000_0000 <= x0' <= 0x1000_0000_0000_0000
             && -0x1000_0000_0000_0000 <= x1' <= 0x1000_0000_0000_0000
             && -0x1000_0000_0000_0000 <= x2' <= 0x1000_0000_0000_0000
    requires -0x1000_0000_0000_0000 <= x3' <= 0x1000_0000_0000_0000
             && -0x1000_0000_0000_0000 <= x4' <= 0x1000_0000_0000_0000
             && -0x1000_0000_0000_0000 <= x5' <= 0x1000_0000_0000_0000
    ensures x0 as int == x0' as int + 666643 * a as int
    ensures x1 as int == x1' as int + 470296 * a as int
    ensures x2 as int == x2' as int + 654183 * a as int
    ensures x3 as int == x3' as int - 997805 * a as int
    ensures x4 as int == x4' as int + 136657 * a as int
    ensures x5 as int == x5' as int - 683901 * a as int
  {
    x0 := x0' + a * 666643;
    x1 := x1' + a * 470296;
    x2 := x2' + a * 654183;
    x3 := x3' - a * 997805;
    x4 := x4' + a * 136657;
    x5 := x5' - a * 683901;
  }

  /** Six limbs folded at once. */
  function Folded(b: Twelve, a0: int, a1: int, a2: int, a3: int, a4: int, a5: int): Twelve {
    Twelve(b.l0 + 666643 * a0,
           b.l1 + 470296 * a0 + 666643 * a1,
           b.l2 + 654183 * a0 + 470296 * a1 + 666643 * a2,
           b.l3 - 997805 * a0 + 654183 * a1 + 470296 * a2 + 666643 * a3,
           b.l4 + 136657 * a0 - 997805 * a1 + 654183 * a2 + 470296 * a3 + 666643 * a4,
           b.l5 - 683901 * a0 + 136657 * a1 - 997805 * a2 + 654183 * a3 + 470296 * a4 + 666643 * a5,
           b.l6 - 683901 * a1 + 136657 * a2 - 997805 * a3 + 654183 * a4 + 470296 * a5,
           b.l7 - 683901 * a2 + 136657 * a3 - 997805 * a4 + 654183 * a5,
           b.l8 - 683901 * a3 + 136657 * a4 - 997805 * a5,
           b.l9 - 683901 * a4 + 136657 * a5,
           b.l10 - 683901 * a5,
           b.l11)
  }

  function Six(a0: int, a1: int, a2: int, a3: int, a4: int, a5: int): int {
    a0 + V1*a1 + V2*a2 + V3*a3 + V4*a4 + V5*a5
  }

  lemma FoldedValue(b: Twelve, a0: int, a1: int, a2: int, a3: int, a4: int, a5: int)
    ensures Eval(Folded(b, a0, a1, a2, a3, a4, a5)) == Eval(b) + (TWO252 - L) * Six(a0, a1, a2, a3, a4, a5)
  {
  }

  lemma FoldedBound(b: Twelve, m: int, a0: int, a1: int, a2: int, a3: int, a4: int, a5: int)
    requires 0 <= m && Bounded(b, m) && -m <= a0 <= m && -m <= a1 <= m && -m <= a2 <= m && -m <= a3 <= m
             && -m <= a4 <= m && -m <= a5 <= m
    ensures Bounded(Folded(b, a0, a1, a2, a3, a4, a5), 0x40_0000 * m)
  {
  }

  method FoldSix(ghost b: Twelve, a0: int64, a1: int64, a2: int64, a3: int64, a4: int64, a5: int64, s0': int64,
                 s1': int64, s2': int64, s3': int64, s4': int64, s5': int64, s6': int64, s7': int64, s8': int64,
                 s9': int64, s10': int64, s11': int64)
    returns (s0: int64, s1: int64, s2: int64, s3: int64, s4: int64, s5: int64, s6: int64, s7: int64, s8: int64,
            s9: int64, s10: int64, s11: int64)
    requires b == Twelve(s0' as int, s1' as int, s2' as int, s3' as int, s4' as int, s5' as int, s6' as int,
             s7' as int, s8' as int, s9' as int, s10' as int, s11' as int)
    requires Bounded(b, 0x4_0000_0000)
    requires -0x4_0000_0000 <= a0 <= 0x4_0000_0000 && -0x4_0000_0000 <= a1 <= 0x4_0000_0000
             && -0x4_0000_0000 <= a2 <= 0x4_0000_0000 && -0x4_0000_0000 <= a3 <= 0x4_0000_0000
             && -0x4_0000_0000 <= a4 <= 0x4_0000_0000
             && -0x4_0000_0000 <= a5 <= 0x4_0000_0000
    ensures Twelve(s0 as int, s1 as int, s2 as int, s3 as int, s4 as int, s5 as int, s6 as int, s7 as int, s8 as int,
            s9 as int, s10 as int, s11 as int) == Folded(b, a0 as int, a1 as int, a2 as int, a3 as int, a4 as int,
            a5 as int)
  {
    s0, s1, s2, s3, s4, s5, s6, s7, s8, s9, s10, s11 := s0', s1', s2', s3', s4', s5', s6', s7', s8', s9', s10', s11';
    s5, s6, s7, s8, s9, s10 := Fold(a5, s5, s6, s7, s8, s9, s10);
    s4, s5, s6, s7, s8, s9 := Fold(a4, s4, s5, s6, s7, s8, s9);
    s3, s4, s5, s6, s7, s8 := Fold(a3, s3, s4, s5, s6, s7, s8);
    s2, s3, s4, s5, s6, s7 := Fold(a2, s2, s3, s4, s5, s6, s7);
    s1, s2, s3, s4, s5, s6 := Fold(a1, s1, s2, s3, s4, s5, s6);
    s0, s1, s2, s3, s4, s5 := Fold(a0, s0, s1, s2, s3, s4, s5);
  }

  /** Rounding carries through all twelve limbs, even places first. */
  method RoundAll(ghost t: Twelve, s0': int64, s1': int64, s2': int64, s3': int64, s4': int64, s5': int64, s6': int64,
                  s7': int64, s8': int64, s9': int64, s10': int64, s11': int64)
    returns (s0: int64, s1: int64, s2: int64, s3: int64, s4: int64, s5: int64, s6: int64, s7: int64, s8: int64,
            s9: int64, s10: int64, s11: int64, s12: int64)
    requires t == Twelve(s0' as int, s1' as int, s2' as int, s3' as int, s4' as int, s5' as int, s6' as int,
             s7' as int, s8' as int, s9' as int, s10' as int, s11' as int)
    requires Bounded(t, 0x80_0000_0000_0000)
    ensures Eval(Twelve(s0 as int, s1 as int, s2 as int, s3 as int, s4 as int, s5 as int, s6 as int, s7 as int,
            s8 as int, s9 as int, s10 as int, s11 as int)) == Eval(t) - TWO252 * s12 as int
    ensures Bounded(Twelve(s0 as int, s1 as int, s2 as int, s3 as int, s4 as int, s5 as int, s6 as int, s7 as int,
            s8 as int, s9 as int, s10 as int, s11 as int), 0x8_0000_0000) && -0x10_0000 <= s11 < 0x10_0000
    ensures -0x8_0000_0000 <= s12 <= 0x8_0000_0000
  {
    hide Eval;
    s0, s1, s2, s3, s4, s5, s6, s7, s8, s9, s10, s11 := s0', s1', s2', s3', s4', s5', s6', s7', s8', s9', s10', s11';
    s12 := 0;
    ghost var c0, c1, c2, c3, c4, c5, c6, c7, c8, c9, c10, c11;
    s0, s1, c0 := Round(s0, s1);
    s2, s3, c2 := Round(s2, s3);
    s4, s5, c4 := Round(s4, s5);
    s6, s7, c6 := Round(s6, s7);
    s8, s9, c8 := Round(s8, s9);
    s10, s11, c10 := Round(s10, s11);
    s1, s2, c1 := Round(s1, s2);
    s3, s4, c3 := Round(s3, s4);
    s5, s6, c5 := Round(s5, s6);
    s7, s8, c7 := Round(s7, s8);
    s9, s10, c9 := Round(s9, s10);
    s11, s12, c11 := Round(s11, s12);
    CarriesTelescope(t, c0, c1, c2, c3, c4, c5, c6, c7, c8, c9, c10, c11);
  }

  /** Floor carries through all twelve limbs. */
  method FloorAll(ghost t: Twelve, s0': int64, s1': int64, s2': int64, s3': int64, s4': int64, s5': int64, s6': int64,
                  s7': int64, s8': int64, s9': int64, s10': int64, s11': int64)
    returns (s0: int64, s1: int64, s2: int64, s3: int64, s4: int64, s5: int64, s6: int64, s7: int64, s8: int64,
            s9: int64, s10: int64, s11: int64, s12: int64)
    requires t == Twelve(s0' as int, s1' as int, s2' as int, s3' as int, s4' as int, s5' as int, s6' as int,
             s7' as int, s8' as int, s9' as int, s10' as int, s11' as int)
    requires Bounded(t, 0x80_0000_0000_0000)
    ensures Eval(Twelve(s0 as int, s1 as int, s2 as int, s3 as int, s4 as int, s5 as int, s6 as int, s7 as int,
            s8 as int, s9 as int, s10 as int, s11 as int)) == Eval(t) - TWO252 * s12 as int
    ensures Digits(Twelve(s0 as int, s1 as int, s2 as int, s3 as int, s4 as int, s5 as int, s6 as int, s7 as int,
            s8 as int, s9 as int, s10 as int, s11 as int))
  {
    hide Eval;
    s0, s1, s2, s3, s4, s5, s6, s7, s8, s9, s10, s11 := s0', s1', s2', s3', s4', s5', s6', s7', s8', s9', s10', s11';
    s12 := 0;
    ghost var c0, c1, c2, c3, c4, c5, c6, c7, c8, c9, c10, c11;
    s0, s1, c0 := Floor(s0, s1);
    s1, s2, c1 := Floor(s1, s2);
    s2, s3, c2 := Floor(s2, s3);
    s3, s4, c3 := Floor(s3, s4);
    s4, s5, c4 := Floor(s4, s5);
    s5, s6, c5 := Floor(s5, s6);
    s6, s7, c6 := Floor(s6, s7);
    s7, s8, c7 := Floor(s7, s8);
    s8, s9, c8 := Floor(s8, s9);
    s9, s10, c9 := Floor(s9, s10);
    s10, s11, c10 := Floor(s10, s11);
    s11, s12, c11 := Floor(s11, s12);
    CarriesTelescope(t, c0, c1, c2, c3, c4, c5, c6, c7, c8, c9, c10, c11);
  }

  /** Floor carries without one out of the last limb. */
  method FloorLow(ghost t: Twelve, s0': int64, s1': int64, s2': int64, s3': int64, s4': int64, s5': int64, s6': int64,
                  s7': int64, s8': int64, s9': int64, s10': int64, s11': int64)
    returns (s0: int64, s1: int64, s2: int64, s3: int64, s4: int64, s5: int64, s6: int64, s7: int64, s8: int64,
            s9: int64, s10: int64, s11: int64)
    requires t == Twelve(s0' as int, s1' as int, s2' as int, s3' as int, s4' as int, s5' as int, s6' as int,
             s7' as int, s8' as int, s9' as int, s10' as int, s11' as int)
    requires Bounded(t, 0x80_0000_0000_0000)
    ensures Eval(Twelve(s0 as int, s1 as int, s2 as int, s3 as int, s4 as int, s5 as int, s6 as int, s7 as int,
            s8 as int, s9 as int, s10 as int, s11 as int)) == Eval(t)
    ensures Digits(Twelve(s0 as int, s1 as int, s2 as int, s3 as int, s4 as int, s5 as int, s6 as int, s7 as int,
            s8 as int, s9 as int, s10 as int, s11 as int).(l11 := 0))
  {
    hide Eval;
    s0, s1, s2, s3, s4, s5, s6, s7, s8, s9, s10, s11 := s0', s1', s2', s3', s4', s5', s6', s7', s8', s9', s10', s11';
    ghost var c0, c1, c2, c3, c4, c5, c6, c7, c8, c9, c10;
    s0, s1, c0 := Floor(s0, s1);
    s1, s2, c1 := Floor(s1, s2);
    s2, s3, c2 := Floor(s2, s3);
    s3, s4, c3 := Floor(s3, s4);
    s4, s5, c4 := Floor(s4, s5);
    s5, s6, c5 := Floor(s5, s6);
    s6, s7, c6 := Floor(s6, s7);
    s7, s8, c7 := Floor(s7, s8);
    s8, s9, c8 := Floor(s8, s9);
    s9, s10, c9 := Floor(s9, s10);
    s10, s11, c10 := Floor(s10, s11);
    CarriesTelescope(t, c0, c1, c2, c3, c4, c5, c6, c7, c8, c9, c10, 0);
  }

  // ---------- full reduction ----------

  const NEAR: int := 0x880_0000_0000_0000_0000_0000_0000_0000_0000_0000_0000_0000_0000_0000_0000_0000

  lemma RoundedRange(t: Twelve)
    requires Bounded(t, 0x8_0000_0000) && -0x10_0000 <= t.l11 <= 0x10_0000
    ensures -NEAR <= Eval(t) <= NEAR
  {
  }

  lemma DigitsRange(t: Twelve)
    requires Digits(t)
    ensures 0 <= Eval(t) < TWO252
  {
  }

  /** The first fold leaves a value of size near 2^251, whose floor quotient by 2^252 is 0 or -1. */
  lemma SecondFold(v: int, d: int, q: int)
    requires -NEAR - 0x100_0000_0000_0000_0000_0000_0000_0000_0000_0000_0000_0000_0000 <= v <= NEAR
             + 0x100_0000_0000_0000_0000_0000_0000_0000_0000_0000_0000_0000_0000
    requires 0 <= d < TWO252 && d == v - TWO252 * q
    ensures -1 <= q <= 0 && 0 <= v - L * q < L
  {
  }

  lemma TopDigit(t: Twelve)
    requires Digits(t.(l11 := 0)) && 0 <= Eval(t) < L
    ensures 0 <= t.l11 <= 0x20_0000
  {
  }

  /**
   Twelve limbs of any sign become the limbs of the residue: eleven digits of 21 bits and a last one of at most 2^21.
   */
  method ReduceTwelve(ghost t: Twelve, s0': int64, s1': int64, s2': int64, s3': int64, s4': int64, s5': int64,
                      s6': int64, s7': int64, s8': int64, s9': int64, s10': int64, s11': int64)
    returns (s0: int64, s1: int64, s2: int64, s3: int64, s4: int64, s5: int64, s6: int64, s7: int64, s8: int64,
            s9: int64, s10: int64, s11: int64)
    requires t == Twelve(s0' as int, s1' as int, s2' as int, s3' as int, s4' as int, s5' as int, s6' as int,
             s7' as int, s8' as int, s9' as int, s10' as int, s11' as int) && Bounded(t, 0x80_0000_0000_0000)
    ensures Digits(Twelve(s0 as int, s1 as int, s2 as int, s3 as int, s4 as int, s5 as int, s6 as int, s7 as int,
            s8 as int, s9 as int, s10 as int, s11 as int).(l11 := 0)) && 0 <= s11 <= 0x20_0000
    ensures Eval(Twelve(s0 as int, s1 as int, s2 as int, s3 as int, s4 as int, s5 as int, s6 as int, s7 as int,
            s8 as int, s9 as int, s10 as int, s11 as int)) == Eval(t) % L
  {
    hide Eval;
    var s12: int64;
    s0, s1, s2, s3, s4, s5, s6, s7, s8, s9, s10, s11, s12 := RoundAll(t, s0', s1', s2', s3', s4', s5', s6', s7', s8',
        s9', s10', s11');
    ghost var r, q := Twelve(s0 as int, s1 as int, s2 as int, s3 as int, s4 as int, s5 as int, s6 as int, s7 as int,
        s8 as int, s9 as int, s10 as int, s11 as int), s12 as int;
    RoundedRange(r);
    s0, s1, s2, s3, s4, s5 := Fold(s12, s0, s1, s2, s3, s4, s5);
    FoldedValue(r, q, 0, 0, 0, 0, 0);
    ghost var r' := Twelve(s0 as int, s1 as int, s2 as int, s3 as int, s4 as int, s5 as int, s6 as int, s7 as int,
        s8 as int, s9 as int, s10 as int, s11 as int);
    assert r' == Folded(r, q, 0, 0, 0, 0, 0);
    SixOf(q);
    ghost var v := Eval(r');
    s0, s1, s2, s3, s4, s5, s6, s7, s8, s9, s10, s11, s12 := FloorAll(r', s0, s1, s2, s3, s4, s5, s6, s7, s8, s9, s10,
        s11);
    ghost var d, q' := Twelve(s0 as int, s1 as int, s2 as int, s3 as int, s4 as int, s5 as int, s6 as int, s7 as int,
        s8 as int, s9 as int, s10 as int, s11 as int), s12 as int;
    DigitsRange(d);
    SecondFold(v, Eval(d), q');
    s0, s1, s2, s3, s4, s5 := Fold(s12, s0, s1, s2, s3, s4, s5);
    FoldedValue(d, q', 0, 0, 0, 0, 0);
    SixOf(q');
    ghost var d' := Twelve(s0 as int, s1 as int, s2 as int, s3 as int, s4 as int, s5 as int, s6 as int, s7 as int,
        s8 as int, s9 as int, s10 as int, s11 as int);
    assert d' == Folded(d, q', 0, 0, 0, 0, 0);
    s0, s1, s2, s3, s4, s5, s6, s7, s8, s9, s10, s11 := FloorLow(d', s0, s1, s2, s3, s4, s5, s6, s7, s8, s9, s10, s11);
    TopDigit(Twelve(s0 as int, s1 as int, s2 as int, s3 as int, s4 as int, s5 as int, s6 as int, s7 as int, s8 as int,
        s9 as int, s10 as int, s11 as int));
    DivUnique(Eval(t), L, q + q', Eval(Twelve(s0 as int, s1 as int, s2 as int, s3 as int, s4 as int, s5 as int,
        s6 as int, s7 as int, s8 as int, s9 as int, s10 as int, s11 as int)));
  }

  lemma SixOf(a: int)
    ensures Six(a, 0, 0, 0, 0, 0) == a
  {
  }

  /** V6 is 2^126: the value of eighteen limbs, cut at limb 6. */
  lemma CutAtSix(t: Twelve, a0: int, a1: int, a2: int, a3: int, a4: int, a5: int)
    ensures Six(t.l0, t.l1, t.l2, t.l3, t.l4, t.l5) + TWO126 * Eval(Twelve(t.l6, t.l7, t.l8, t.l9, t.l10, t.l11, a0,
            a1, a2, a3, a4, a5))
            == Eval(t) + TWO252 * Six(a0, a1, a2, a3, a4, a5)
  {
  }

  lemma CutAtTwelve(t: Twelve)
    ensures Eval(t) == Six(t.l0, t.l1, t.l2, t.l3, t.l4, t.l5) + TWO126 * Six(t.l6, t.l7, t.l8, t.l9, t.l10, t.l11)
  {
  }

  /** The limbs of 24 places are folded six at a time, carried, folded again and reduced. */
  method ReduceAll(ghost lo: Twelve, ghost hi: Twelve, s0': int64, s1': int64, s2': int64, s3': int64, s4': int64,
                   s5': int64, s6': int64, s7': int64, s8': int64, s9': int64, s10': int64, s11': int64, s12': int64,
                   s13': int64, s14': int64, s15': int64, s16': int64, s17': int64, s18': int64, s19': int64,
                   s20': int64, s21': int64, s22': int64, s23': int64)
    returns (s0: int64, s1: int64, s2: int64, s3: int64, s4: int64, s5: int64, s6: int64, s7: int64, s8: int64,
            s9: int64, s10: int64, s11: int64)
    requires lo == Twelve(s0' as int, s1' as int, s2' as int, s3' as int, s4' as int, s5' as int, s6' as int,
             s7' as int, s8' as int, s9' as int, s10' as int, s11' as int)
    requires hi == Twelve(s12' as int, s13' as int, s14' as int, s15' as int, s16' as int, s17' as int, s18' as int,
             s19' as int, s20' as int, s21' as int, s22' as int, s23' as int)
    requires Bounded(lo, 0x4000_0000) && Bounded(hi, 0x4000_0000)
    ensures Digits(Twelve(s0 as int, s1 as int, s2 as int, s3 as int, s4 as int, s5 as int, s6 as int, s7 as int,
            s8 as int, s9 as int, s10 as int, s11 as int).(l11 := 0)) && 0 <= s11 <= 0x20_0000
    ensures Eval(Twelve(s0 as int, s1 as int, s2 as int, s3 as int, s4 as int, s5 as int, s6 as int, s7 as int,
            s8 as int, s9 as int, s10 as int, s11 as int)) == (Eval(lo) + TWO252 * Eval(hi)) % L
  {
    hide Eval, Six, Folded;
    var s12: int64, s13: int64, s14: int64, s15: int64, s16: int64, s17: int64;
    s0, s1, s2, s3, s4, s5, s6, s7, s8, s9, s10, s11 := s0', s1', s2', s3', s4', s5', s6', s7', s8', s9', s10', s11';
    ghost var m0 := Twelve(lo.l6, lo.l7, lo.l8, lo.l9, lo.l10, lo.l11, hi.l0, hi.l1, hi.l2, hi.l3, hi.l4, hi.l5);
    s6, s7, s8, s9, s10, s11, s12, s13, s14, s15, s16, s17 := FoldSix(m0, s18', s19', s20', s21', s22', s23', s6', s7',
        s8', s9', s10', s11', s12', s13', s14', s15', s16', s17');
    ghost var a := Six(hi.l6, hi.l7, hi.l8, hi.l9, hi.l10, hi.l11);
    ghost var m1 := Folded(m0, hi.l6, hi.l7, hi.l8, hi.l9, hi.l10, hi.l11);
    FoldedValue(m0, hi.l6, hi.l7, hi.l8, hi.l9, hi.l10, hi.l11);
    FoldedBound(m0, 0x4000_0000, hi.l6, hi.l7, hi.l8, hi.l9, hi.l10, hi.l11);
    assert m1.l11 == hi.l5 by { TopUnfolded(m0, hi.l6, hi.l7, hi.l8, hi.l9, hi.l10, hi.l11); }
    s6, s7, s8, s9, s10, s11, s12, s13, s14, s15, s16, s17 := RoundMiddle(m1, s6, s7, s8, s9, s10, s11, s12, s13, s14,
        s15, s16, s17);
    ghost var m2 := Twelve(s6 as int, s7 as int, s8 as int, s9 as int, s10 as int, s11 as int, s12 as int, s13 as int,
        s14 as int, s15 as int, s16 as int, s17 as int);
    ghost var t := Twelve(lo.l0, lo.l1, lo.l2, lo.l3, lo.l4, lo.l5, m2.l0, m2.l1, m2.l2, m2.l3, m2.l4, m2.l5);
    ghost var b := Six(m2.l6, m2.l7, m2.l8, m2.l9, m2.l10, m2.l11);
    CutAtSix(lo, hi.l0, hi.l1, hi.l2, hi.l3, hi.l4, hi.l5);
    CutAtTwelve(hi);
    CutAtSix(t, m2.l6, m2.l7, m2.l8, m2.l9, m2.l10, m2.l11);
    FoldedValue(t, m2.l6, m2.l7, m2.l8, m2.l9, m2.l10, m2.l11);
    FoldedBound(t, 0x1_0000_0000, m2.l6, m2.l7, m2.l8, m2.l9, m2.l10, m2.l11);
    s0, s1, s2, s3, s4, s5, s6, s7, s8, s9, s10, s11 := FoldSix(t, s12, s13, s14, s15, s16, s17, s0, s1, s2, s3, s4,
        s5, s6, s7, s8, s9, s10, s11);
    ghost var t' := Folded(t, m2.l6, m2.l7, m2.l8, m2.l9, m2.l10, m2.l11);
    s0, s1, s2, s3, s4, s5, s6, s7, s8, s9, s10, s11 := ReduceTwelve(t', s0, s1, s2, s3, s4, s5, s6, s7, s8, s9, s10,
        s11);
    SameMod(Eval(lo) + TWO252 * Eval(hi), Eval(t'), TWO126 * a + b);
  }

  lemma TopUnfolded(t: Twelve, a0: int, a1: int, a2: int, a3: int, a4: int, a5: int)
    ensures Folded(t, a0, a1, a2, a3, a4, a5).l11 == t.l11
  {
  }

  lemma SameMod(v: int, w: int, k: int)
    requires v == w + L * k
    ensures v % L == w % L
  {
    DivUnique(v, L, w / L + k, w % L);
  }
}
