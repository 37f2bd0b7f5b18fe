/**
 Field elements as byte strings: FeFromBytes, FeToBytes, FeIsNegative and FeIsNonZero of
 vrf/edwards25519/edwards25519.go.
 */
module FieldBytes {
  import opened Words
  import opened BitOps
  import opened ByteStrings
  import opened Congruence
  import opened Division
  import opened FieldElement
  import opened FieldMultiply

  const TWO255: int := 0x8000_0000_0000_0000_0000_0000_0000_0000_0000_0000_0000_0000_0000_0000_0000_0000

  /** Limbs within 1.1*2^26 and 1.1*2^25. */
  ghost predicate Printable(f: array<int32>)
    requires IsElement(f)
    reads f
  {
    Bounded(Limbs(f), 73819750, 36909875)
  }

  // ---------- the quotient q ----------

  predicate Digits(t: Ten) {
    && 0 <= t.e0 < 0x400_0000 && 0 <= t.e1 < 0x200_0000
    && 0 <= t.e2 < 0x400_0000 && 0 <= t.e3 < 0x200_0000
    && 0 <= t.e4 < 0x400_0000 && 0 <= t.e5 < 0x200_0000
    && 0 <= t.e6 < 0x400_0000 && 0 <= t.e7 < 0x200_0000
    && 0 <= t.e8 < 0x400_0000 && 0 <= t.e9 < 0x200_0000
  }

  lemma DigitsRange(t: Ten)
    requires Digits(t)
    ensures 0 <= Eval(t) < TWO255
  {
  }

  /** Floor carries from limb to limb move weight 2^26 or 2^25; c0 enters at the bottom, c10 leaves at the top. */
  lemma FloorsTelescope(t: Ten, c0: int, c1: int, c2: int, c3: int, c4: int, c5: int, c6: int, c7: int, c8: int,
                        c9: int, c10: int)
    ensures Eval(Ten(t.e0 + c0 - 0x400_0000 * c1, t.e1 + c1 - 0x200_0000 * c2, t.e2 + c2 - 0x400_0000 * c3,
                     t.e3 + c3 - 0x200_0000 * c4, t.e4 + c4 - 0x400_0000 * c5, t.e5 + c5 - 0x200_0000 * c6,
                     t.e6 + c6 - 0x400_0000 * c7, t.e7 + c7 - 0x200_0000 * c8, t.e8 + c8 - 0x400_0000 * c9,
                     t.e9 + c9 - 0x200_0000 * c10))
            == Eval(t) + c0 - TWO255 * c10
  {
  }

  /**
   The rounding argument of FeToBytes: carrying round(19 h9 / 2^25) through the limbs gives floor(h / p).
   */
  lemma QuotientIsExact(v: int, h9: int, c0: int, q: int)
    requires -W9 - W9 / 4 <= v - W9 * h9 <= W9 + W9 / 4
    requires 0x200_0000 * c0 <= 19 * h9 + 0x100_0000 < 0x200_0000 * c0 + 0x200_0000
    requires 0 <= v + c0 - TWO255 * q < TWO255
    requires -32 <= c0 <= 32
    ensures 0 <= v - P * q < P
  {
    var d, s := v + c0 - TWO255 * q, c0 - 19 * q;
    assert v - P * q == d - s;
    // s is 19 d / 2^255, rounded
    assert TWO255 * s <= 19 * d - 19 * c0 + TWO255 / 2 + 24 * W9;
    assert TWO255 * s >= 19 * d - 19 * c0 - TWO255 / 2 - 24 * W9;
    RoundedShare(d, s, c0);
  }

  lemma RoundedShare(d: int, s: int, c0: int)
    requires 0 <= d < TWO255 && -32 <= c0 <= 32
    requires TWO255 * s <= 19 * d - 19 * c0 + TWO255 / 2 + 24 * W9
    requires TWO255 * s >= 19 * d - 19 * c0 - TWO255 / 2 - 24 * W9
    ensures 0 <= d - s < P
  {
  }

  lemma TopLimb(t: Ten)
    requires Bounded(t, 73819750, 36909875)
    ensures -W9 - W9 / 4 <= Eval(t) - W9 * t.e9 <= W9 + W9 / 4
  {
  }

  lemma QuotientFacts(t: Ten, c0: int, c1: int, c2: int, c3: int, c4: int, c5: int, c6: int, c7: int, c8: int, c9: int,
                      c10: int)
    requires Bounded(t, 73819750, 36909875) && -32 <= c0 <= 32
    requires 0 <= 19 * t.e9 + 0x100_0000 - 0x200_0000 * c0 < 0x200_0000
    requires Digits(Ten(t.e0 + c0 - 0x400_0000 * c1, t.e1 + c1 - 0x200_0000 * c2, t.e2 + c2 - 0x400_0000 * c3, t.e3
             + c3 - 0x200_0000 * c4, t.e4 + c4 - 0x400_0000 * c5, t.e5 + c5 - 0x200_0000 * c6, t.e6
             + c6 - 0x400_0000 * c7, t.e7 + c7 - 0x200_0000 * c8, t.e8 + c8 - 0x400_0000 * c9, t.e9
             + c9 - 0x200_0000 * c10))
    ensures 0 <= Eval(t) - P * c10 < P
  {
    hide Eval, Digits, Bounded;
    FloorsTelescope(t, c0, c1, c2, c3, c4, c5, c6, c7, c8, c9, c10);
    DigitsRange(Ten(t.e0 + c0 - 0x400_0000 * c1, t.e1 + c1 - 0x200_0000 * c2, t.e2 + c2 - 0x400_0000 * c3, t.e3
        + c3 - 0x200_0000 * c4, t.e4 + c4 - 0x400_0000 * c5, t.e5 + c5 - 0x200_0000 * c6, t.e6 + c6 - 0x400_0000 * c7,
        t.e7 + c7 - 0x200_0000 * c8, t.e8 + c8 - 0x400_0000 * c9, t.e9 + c9 - 0x200_0000 * c10));
    TopLimb(t);
    QuotientIsExact(Eval(t), t.e9, c0, c10);
  }

  method Shift26(x: int32) returns (q: int32)
    ensures 0 <= x as int - 0x400_0000 * q as int < 0x400_0000
    ensures -32 <= q <= 31
  {
    q := x / 0x400_0000;
  }

  method Shift25(x: int32) returns (q: int32)
    requires -0x4000_0000 <= x < 0x4000_0000
    ensures 0 <= x as int - 0x200_0000 * q as int < 0x200_0000
    ensures -32 <= q <= 31
  {
    q := x / 0x200_0000;
  }

  /** The chain of shifts that gives floor(h / p). */
  method QuotientChain(ghost t: Ten, h0: int32, h1: int32, h2: int32, h3: int32, h4: int32, h5: int32, h6: int32,
                       h7: int32, h8: int32, h9: int32)
    returns (q: int32)
    requires t == Ten(h0 as int, h1 as int, h2 as int, h3 as int, h4 as int, h5 as int, h6 as int, h7 as int,
             h8 as int, h9 as int)
    requires Bounded(t, 73819750, 36909875)
    ensures -32 <= q <= 32
    ensures 0 <= Eval(t) - P * q as int < P
  {
    hide Eval;
    var c0 := Shift25(19 * h9 + 0x100_0000);
    var c1 := Shift26(h0 + c0);
    var c2 := Shift25(h1 + c1);
    var c3 := Shift26(h2 + c2);
    var c4 := Shift25(h3 + c3);
    var c5 := Shift26(h4 + c4);
    var c6 := Shift25(h5 + c5);
    var c7 := Shift26(h6 + c6);
    var c8 := Shift25(h7 + c7);
    var c9 := Shift26(h8 + c8);
    q := Shift25(h9 + c9);
    QuotientFacts(t, c0 as int, c1 as int, c2 as int, c3 as int, c4 as int, c5 as int, c6 as int, c7 as int, c8 as int,
        c9 as int, q as int);
  }

  /** q = floor(h / p), for every sign of h. */
  method Quotient(h: array<int32>) returns (q: int32)
    requires IsElement(h) && Printable(h)
    ensures -32 <= q <= 32
    ensures 0 <= Value(h) - P * q as int < P
  {
    hide Eval;
    q := QuotientChain(Limbs(h), h[0], h[1], h[2], h[3], h[4], h[5], h[6], h[7], h[8], h[9]);
  }

  // ---------- canonical limbs ----------

  method Floor26(x: int32, y: int32) returns (x': int32, y': int32, ghost c: int)
    requires -0x1000_0000 <= x <= 0x1000_0000 && -0x1000_0000 <= y <= 0x1000_0000
    ensures x' as int == x as int - 0x400_0000 * c && y' as int == y as int + c
    ensures 0 <= x' < 0x400_0000
    ensures -8 <= c <= 8
  {
    var carry := x / 0x400_0000;
    x', y', c := x - carry * 0x400_0000, y + carry, carry as int;
  }

  method Floor25(x: int32, y: int32) returns (x': int32, y': int32, ghost c: int)
    requires -0x1000_0000 <= x <= 0x1000_0000 && -0x1000_0000 <= y <= 0x1000_0000
    ensures x' as int == x as int - 0x200_0000 * c && y' as int == y as int + c
    ensures 0 <= x' < 0x200_0000
    ensures -8 <= c <= 8
  {
    var carry := x / 0x200_0000;
    x', y', c := x - carry * 0x200_0000, y + carry, carry as int;
  }

  lemma CarryIsQuotient(v: int, q: int, c: int)
    requires 0 <= v + 19 * q - TWO255 * c < TWO255
    requires 0 <= v - P * q < P
    ensures c == q
  {
  }

  method FloorChain(ghost t: Ten, q: int32, h0': int32, h1': int32, h2': int32, h3': int32, h4': int32, h5': int32,
                    h6': int32, h7': int32, h8': int32, h9': int32)
    returns (h0: int32, h1: int32, h2: int32, h3: int32, h4: int32, h5: int32, h6: int32, h7: int32, h8: int32,
            h9: int32, ghost c: int)
    requires t == Ten(h0' as int, h1' as int, h2' as int, h3' as int, h4' as int, h5' as int, h6' as int, h7' as int,
             h8' as int, h9' as int)
    requires Bounded(t, 73819750, 36909875) && -32 <= q <= 32
    ensures Digits(Ten(h0 as int, h1 as int, h2 as int, h3 as int, h4 as int, h5 as int, h6 as int, h7 as int,
            h8 as int, h9 as int))
    ensures Eval(Ten(h0 as int, h1 as int, h2 as int, h3 as int, h4 as int, h5 as int, h6 as int, h7 as int, h8 as int,
            h9 as int)) == Eval(t) + 19 * q as int - TWO255 * c
  {
    hide Eval;
    h0, h1, h2, h3, h4, h5, h6, h7, h8, h9 := h0', h1', h2', h3', h4', h5', h6', h7', h8', h9';
    ghost var c0, c1, c2, c3, c4, c5, c6, c7, c8;
    h0 := h0 + 19 * q;
    h0, h1, c0 := Floor26(h0, h1);
    h1, h2, c1 := Floor25(h1, h2);
    h2, h3, c2 := Floor26(h2, h3);
    h3, h4, c3 := Floor25(h3, h4);
    h4, h5, c4 := Floor26(h4, h5);
    h5, h6, c5 := Floor25(h5, h6);
    h6, h7, c6 := Floor26(h6, h7);
    h7, h8, c7 := Floor25(h7, h8);
    h8, h9, c8 := Floor26(h8, h9);
    var carry9 := h9 / 0x200_0000;
    h9 := h9 - carry9 * 0x200_0000;
    c := carry9 as int;
    FloorsTelescope(t, 19 * q as int, c0, c1, c2, c3, c4, c5, c6, c7, c8, c);
  }

  /** Subtracts q p from h and leaves h as the canonical limbs of what remains. */
  method Canonicalize(h: array<int32>, q: int32)
    requires IsElement(h) && Printable(h)
    requires -32 <= q <= 32
    requires 0 <= Value(h) - P * q as int < P
    modifies h
    ensures Digits(Limbs(h))
    ensures Value(h) == old(Value(h)) - P * q as int
  {
    hide Eval, Digits, Bounded;
    ghost var v := Value(h);
    var r0, r1, r2, r3, r4, r5, r6, r7, r8, r9, c :=
      FloorChain(Limbs(h), q, h[0], h[1], h[2], h[3], h[4], h[5], h[6], h[7], h[8], h[9]);
    ghost var d := Ten(r0 as int, r1 as int, r2 as int, r3 as int, r4 as int, r5 as int, r6 as int, r7 as int,
        r8 as int, r9 as int);
    DigitsRange(d);
    CarryIsQuotient(v, q as int, c);
    h[0] := r0;
    h[1] := r1;
    h[2] := r2;
    h[3] := r3;
    h[4] := r4;
    h[5] := r5;
    h[6] := r6;
    h[7] := r7;
    h[8] := r8;
    h[9] := r9;
    assert Limbs(h) == d;
  }

  // ---------- packing ----------

  /** x << j in a 32-bit word, which drops the bits that leave the word. */
  function Shl32(x: int32, j: nat): int32 {
    Wrap32(x as int * Pow2(j)) as int32
  }

  /** Dropping high bits keeps both the low zeros and the low byte. */
  lemma ShiftedWord(x: int, j: nat) returns (y: int)
    requires j <= 8
    ensures Wrap32(x * Pow2(j)) == y * Pow2(j)
    ensures (Wrap32(x * Pow2(j)) - x * Pow2(j)) % 0x100 == 0
  {
    hide Pow2, Wrap32;
    var m, c := Pow2(j), Pow2(32 - j);
    var w := Wrap32(x * m);
    var k := WrapDrops(x * m);
    Pow2Of32();
    Pow2Adds(j, 32 - j);
    y := x + c * k;
    assert y * m == x * m + (m * c) * k;
    assert w - x * m == 0x100 * (0x100_0000 * k);
  }

  /** byte(lo | hi << j), for lo below 2^j: the operands share no bit. */
  function Join(lo: int32, hi: int32, j: nat): byte
    requires j <= 8 && 0 <= lo as int < Pow2(j)
  {
    Pow2Of32();
    (Or(31, lo as int, Shl32(hi, j) as int) % 0x100) as byte
  }

  lemma JoinAdds(lo: int32, hi: int32, j: nat)
    requires j <= 8 && 0 <= lo as int < Pow2(j)
    ensures Join(lo, hi, j) as int == (lo as int + Pow2(j) * hi as int) % 0x100
  {
    hide Or, Pow2, Wrap32;
    Pow2Of32();
    var y := ShiftedWord(hi as int, j);
    var w, z := Shl32(hi, j) as int, hi as int * Pow2(j);
    OrDisjoint(31, j, lo as int, y);
    assert Join(lo, hi, j) as int == (lo as int + w) % 0x100;
    assert (w - z) % 0x100 == 0;
    hide Join, Shl32;
    SameByte(lo as int + w, lo as int + z);
    assert z == Pow2(j) * hi as int;
  }

  lemma SameByte(a: int, b: int)
    requires (a - b) % 0x100 == 0
    ensures a % 0x100 == b % 0x100
  {
  }

  /** The sixteen bytes of limbs 0 to 4; the t's are the bits of a limb that the next one shares a byte with. */
  lemma PackLow(b: seq<byte>, h0: int, h1: int, h2: int, h3: int, h4: int, t0: int, t1: int, t2: int, t3: int)
    requires |b| == 16
    requires h0 == b[0] as int + 0x100 * b[1] as int + 0x1_0000 * b[2] as int + 0x100_0000 * t0
    requires t0 + 4 * h1 == b[3] as int + 0x100 * b[4] as int + 0x1_0000 * b[5] as int + 0x100_0000 * t1
    requires t1 + 8 * h2 == b[6] as int + 0x100 * b[7] as int + 0x1_0000 * b[8] as int + 0x100_0000 * t2
    requires t2 + 32 * h3 == b[9] as int + 0x100 * b[10] as int + 0x1_0000 * b[11] as int + 0x100_0000 * t3
    requires t3 + 64 * h4 == b[12] as int + 0x100 * b[13] as int + 0x1_0000 * b[14] as int + 0x100_0000 * b[15] as int
    ensures LeAt(b, 0, 16) == h0 + 0x400_0000 * h1 + 0x8_0000_0000_0000 * h2 + 0x2000_0000_0000_0000_0000 * h3
            + 0x40_0000_0000_0000_0000_0000_0000 * h4
  {
    hide LeAt;
    LeAtNone(b, 16);
    FourBytes(b, 0, 12);
    FourBytes(b, 4, 8);
    FourBytes(b, 8, 4);
    FourBytes(b, 12, 0);
  }

  /** The sixteen bytes of limbs 5 to 9; the t's are the bits of a limb that the next one shares a byte with. */
  lemma PackHigh(b: seq<byte>, h5: int, h6: int, h7: int, h8: int, h9: int, t5: int, t6: int, t7: int, t8: int)
    requires |b| == 16
    requires h5 == b[0] as int + 0x100 * b[1] as int + 0x1_0000 * b[2] as int + 0x100_0000 * t5
    requires t5 + 2 * h6 == b[3] as int + 0x100 * b[4] as int + 0x1_0000 * b[5] as int + 0x100_0000 * t6
    requires t6 + 8 * h7 == b[6] as int + 0x100 * b[7] as int + 0x1_0000 * b[8] as int + 0x100_0000 * t7
    requires t7 + 16 * h8 == b[9] as int + 0x100 * b[10] as int + 0x1_0000 * b[11] as int + 0x100_0000 * t8
    requires t8 + 64 * h9 == b[12] as int + 0x100 * b[13] as int + 0x1_0000 * b[14] as int + 0x100_0000 * b[15] as int
    ensures LeAt(b, 0, 16) == h5 + 0x200_0000 * h6 + 0x8_0000_0000_0000 * h7 + 0x1000_0000_0000_0000_0000 * h8
            + 0x40_0000_0000_0000_0000_0000_0000 * h9
  {
    hide LeAt;
    LeAtNone(b, 16);
    FourBytes(b, 0, 12);
    FourBytes(b, 4, 8);
    FourBytes(b, 8, 4);
    FourBytes(b, 12, 0);
  }

  /**
   byte(t | h << j), byte(h >> (8-j)) and byte(h >> (16-j)), where m = 2^j and c = 2^(8-j);
   next = h >> (24-j) shares a byte with the limb above.
   */
  method LimbToBytes(t: int32, h: int32, j: nat, ghost m: int, c: int32)
    returns (b0: byte, b1: byte, b2: byte, next: int32)
    requires j <= 8 && m == Pow2(j) && 0 < c <= 0x100 && m * c as int == 0x100
    requires 0 <= t as int < m && 0 <= h
    ensures t as int + m * h as int
            == b0 as int + 0x100 * b1 as int + 0x1_0000 * b2 as int + 0x100_0000 * next as int
    ensures 0 <= next && (c as int * 0x1_0000) * next as int <= h as int
  {
    hide Pow2, Join;
    DivShrinks(h as int, c as int);
    DivShrinks(h as int, c as int * 0x100);
    DivShrinks(h as int, c as int * 0x1_0000);
    b0 := Join(t, h, j);
    b1 := LowByte((h / c) as int);
    b2 := LowByte((h / (c * 0x100)) as int);
    next := h / (c * 0x1_0000);
    JoinAdds(t, h, j);
    LimbBytes(t as int, h as int, m, c as int);
  }

  method LowHalf(h0: int32, h1: int32, h2: int32, h3: int32, h4: int32) returns (bs: seq<byte>)
    requires 0 <= h0 < 0x400_0000 && 0 <= h1 < 0x200_0000 && 0 <= h2 < 0x400_0000 && 0 <= h3 < 0x200_0000
             && 0 <= h4 < 0x400_0000
    ensures |bs| == 16
    ensures LeAt(bs, 0, 16) == h0 as int + 0x400_0000 * h1 as int + 0x8_0000_0000_0000 * h2 as int
            + 0x2000_0000_0000_0000_0000 * h3 as int + 0x40_0000_0000_0000_0000_0000_0000 * h4 as int
  {
    hide LeAt, Pow2;
    SmallPowers();
    var b0, b1, b2, t0 := LimbToBytes(0, h0, 0, 1, 256);
    var b3, b4, b5, t1 := LimbToBytes(t0, h1, 2, 4, 64);
    var b6, b7, b8, t2 := LimbToBytes(t1, h2, 3, 8, 32);
    var b9, b10, b11, t3 := LimbToBytes(t2, h3, 5, 32, 8);
    var b12, b13, b14, t4 := LimbToBytes(t3, h4, 6, 64, 4);
    var b15 := LowByte(t4 as int);
    bs := [b0, b1, b2, b3, b4, b5, b6, b7, b8, b9, b10, b11, b12, b13, b14, b15];
    PackLow(bs, h0 as int, h1 as int, h2 as int, h3 as int, h4 as int, t0 as int, t1 as int, t2 as int, t3 as int);
  }

  method HighHalf(h5: int32, h6: int32, h7: int32, h8: int32, h9: int32) returns (bs: seq<byte>)
    requires 0 <= h5 < 0x200_0000 && 0 <= h6 < 0x400_0000 && 0 <= h7 < 0x200_0000 && 0 <= h8 < 0x400_0000
             && 0 <= h9 < 0x200_0000
    ensures |bs| == 16
    ensures LeAt(bs, 0, 16) == h5 as int + 0x200_0000 * h6 as int + 0x8_0000_0000_0000 * h7 as int
            + 0x1000_0000_0000_0000_0000 * h8 as int + 0x40_0000_0000_0000_0000_0000_0000 * h9 as int
  {
    hide LeAt, Pow2;
    SmallPowers();
    var b16, b17, b18, t5 := LimbToBytes(0, h5, 0, 1, 256);
    var b19, b20, b21, t6 := LimbToBytes(t5, h6, 1, 2, 128);
    var b22, b23, b24, t7 := LimbToBytes(t6, h7, 3, 8, 32);
    var b25, b26, b27, t8 := LimbToBytes(t7, h8, 4, 16, 16);
    var b28, b29, b30, t9 := LimbToBytes(t8, h9, 6, 64, 4);
    var b31 := LowByte(t9 as int);
    bs := [b16, b17, b18, b19, b20, b21, b22, b23, b24, b25, b26, b27, b28, b29, b30, b31];
    PackHigh(bs, h5 as int, h6 as int, h7 as int, h8 as int, h9 as int, t5 as int, t6 as int, t7 as int, t8 as int);
  }

  /** The 32 bytes of canonical limbs. */
  method Pack(s: array<byte>, h: array<int32>)
    requires s.Length == 32 && IsElement(h)
    requires Digits(Limbs(h))
    modifies s
    ensures LeAt(s[..], 0, 32) == Value(h)
  {
    hide LeAt, Pow256;
    var low := LowHalf(h[0], h[1], h[2], h[3], h[4]);
    var high := HighHalf(h[5], h[6], h[7], h[8], h[9]);
    var bytes := low + high;
    forall i | 0 <= i < 32 {
      s[i] := bytes[i];
    }
    assert s[..] == bytes;
    LeAtConcat(low, high);
    Pow256Of16();
  }

  lemma Pow256Of16()
    ensures Pow256(16) == W5
  {
    assert Pow256(8) == 0x1_0000_0000_0000_0000;
  }

  // ---------- the exported operations ----------

  /** s becomes the canonical bytes of h, and h itself becomes the canonical limbs of the same element. */
  method FeToBytes(s: array<byte>, h: array<int32>)
    requires s.Length == 32 && IsElement(h) && Printable(h)
    modifies s, h
    ensures LeAt(s[..], 0, 32) == old(Value(h)) % P
    ensures Value(h) == old(Value(h)) % P && Digits(Limbs(h))
  {
    hide LeAt, Value, Digits, Printable;
    var q := Quotient(h);
    ghost var v := Value(h);
    DivUnique(v, P, q as int, v - P * q as int);
    Canonicalize(h, q);
    Pack(s, h);
  }

  method FeIsNegative(f: array<int32>) returns (r: byte)
    requires IsElement(f) && Printable(f)
    modifies f
    ensures r as int == old(Value(f)) % P % 2
    ensures Value(f) == old(Value(f)) % P && Digits(Limbs(f))
  {
    hide Value, Digits, Printable, LeAt;
    var s := new byte[32](i => 0);
    FeToBytes(s, f);
    r := s[0] % 2;
    LeAtParity(s[..], 32);
  }

  lemma LeAtParity(s: seq<byte>, n: nat)
    requires 0 < n <= |s|
    ensures LeAt(s, 0, n) % 2 == s[0] as int % 2
  {
    var x := LeAt(s, 1, n - 1);
    assert LeAt(s, 0, n) == s[0] as int + 2 * (0x80 * x);
  }

  /** 1 exactly when the element is not zero modulo p. */
  method FeIsNonZero(f: array<int32>) returns (r: int32)
    requires IsElement(f) && Printable(f)
    modifies f
    ensures r == if old(Value(f)) % P == 0 then 0 else 1
    ensures Value(f) == old(Value(f)) % P && Digits(Limbs(f))
  {
    hide Value, Digits, Printable, LeAt;
    var s := new byte[32](i => 0);
    FeToBytes(s, f);
    var x: bv8 := 0;
    for i := 0 to 32
      invariant x == 0 <==> forall k :: 0 <= k < i ==> s[k] == 0
    {
      x := x | (s[i] as int as bv8);
    }
    AllZero(s[..], 0, 32);
    FoldBits(x);
    x := x | (x >> 4);
    x := x | (x >> 2);
    x := x | (x >> 1);
    r := if x & 1 == 1 then 1 else 0;
  }

  lemma FoldBits(x: bv8)
    ensures var y := x | (x >> 4);
            var z := y | (y >> 2);
            (z | (z >> 1)) & 1 == 1 <==> x != 0
  {
  }

  lemma {:induction false} AllZero(s: seq<byte>, i: nat, n: nat)
    requires i + n <= |s|
    ensures LeAt(s, i, n) == 0 <==> forall k :: i <= k < i + n ==> s[k] == 0
    decreases n
  {
    if n > 0 {
      AllZero(s, i + 1, n - 1);
      LeAtRange(s, i + 1, n - 1);
    }
  }

  /** The ten loads of FeFromBytes cut the string into disjoint pieces that cover it. */
  lemma Pieces(s: seq<byte>)
    requires |s| == 32
    ensures LeAt(s, 0, 32) ==
              LeAt(s, 0, 4) + W1 * (0x40 * LeAt(s, 4, 3)) + W2 * (0x20 * LeAt(s, 7, 3)) + W3 * (0x8 * LeAt(s, 10, 3))
              + W4 * (0x4 * LeAt(s, 13, 3)) + W5 * LeAt(s, 16, 4) + W6 * (0x80 * LeAt(s, 20, 3)) + W7 * (0x20 * LeAt(s,
                  23, 3))
              + W8 * (0x10 * LeAt(s, 26, 3)) + W9 * (0x4 * LeAt(s, 29, 3))
  {
    hide LeAt;
    assert Pow256(3) == 0x100_0000 && Pow256(4) == 0x1_0000_0000;
    LeAtSplit(s, 0, 4, 28);
    LeAtSplit(s, 4, 3, 25);
    LeAtSplit(s, 7, 3, 22);
    LeAtSplit(s, 10, 3, 19);
    LeAtSplit(s, 13, 3, 16);
    LeAtSplit(s, 16, 4, 12);
    LeAtSplit(s, 20, 3, 9);
    LeAtSplit(s, 23, 3, 6);
    LeAtSplit(s, 26, 3, 3);
  }

  /** The top bit of the string is ignored. */
  method FeFromBytes(dst: array<int32>, src: array<byte>)
    requires IsElement(dst) && src.Length == 32
    modifies dst
    ensures Cong(Value(dst), LeAt(src[..], 0, 32) % TWO255)
    ensures Small(dst, 1)
  {
    hide Cong, LeAt, Eval, Load3, Load4;
    var s := src[..];
    var h0 := Load4(s, 0);
    var h1 := Load3(s, 4) * 0x40;
    var h2 := Load3(s, 7) * 0x20;
    var h3 := Load3(s, 10) * 0x8;
    var h4 := Load3(s, 13) * 0x4;
    var h5 := Load4(s, 16);
    var h6 := Load3(s, 20) * 0x80;
    var h7 := Load3(s, 23) * 0x20;
    var h8 := Load3(s, 26) * 0x10;
    var h9 := Load3(s, 29) % 0x80_0000 * 0x4;
    ghost var t := Ten(h0 as int, h1 as int, h2 as int, h3 as int, h4 as int,
                       h5 as int, h6 as int, h7 as int, h8 as int, h9 as int);
    LoadsValue(s, t);
    FeCombine(dst, t, h0, h1, h2, h3, h4, h5, h6, h7, h8, h9);
    assert src[..] == s;
  }

  lemma LoadsValue(s: seq<byte>, t: Ten)
    requires |s| == 32
    requires t == Ten(Load4(s, 0) as int, 0x40 * Load3(s, 4) as int, 0x20 * Load3(s, 7) as int, 0x8 * Load3(s,
             10) as int,
                      0x4 * Load3(s, 13) as int, Load4(s, 16) as int, 0x80 * Load3(s, 20) as int,
                      0x20 * Load3(s, 23) as int, 0x10 * Load3(s, 26) as int, 0x4 * (Load3(s, 29) as int % 0x80_0000))
    ensures Eval(t) == LeAt(s, 0, 32) % TWO255
  {
    hide LeAt, Load3, Load4;
    Pieces(s);
    DropTopBit(t, LeAt(s, 29, 3), LeAt(s, 0, 32));
  }

  lemma DropTopBit(t: Ten, top: int, v: int)
    requires v == Eval(t.(e9 := 0x4 * top)) && t.e9 == top % 0x80_0000 * 0x4
    requires 0 <= Eval(t) < TWO255
    ensures Eval(t) == v % TWO255
  {
    assert v == Eval(t) + TWO255 * (top / 0x80_0000);
    DivUnique(v, TWO255, top / 0x80_0000, Eval(t));
  }

  /**
   Decoding and encoding again reduces the low 255 bits modulo p, so it returns the string itself
   exactly when the string is already the number of a residue.
   */
  method Reencode(src: array<byte>, out: array<byte>)
    requires src.Length == 32 && out.Length == 32 && src != out
    modifies out
    ensures LeAt(out[..], 0, 32) == LeAt(src[..], 0, 32) % TWO255 % P
    ensures out[..] == src[..] <==> LeAt(src[..], 0, 32) < P
  {
    hide Value, LeAt, Cong, Limbs;
    var fe := new int32[10](i => 0);
    FeFromBytes(fe, src);
    assert Printable(fe) by {
      SmallIsPrintable(fe, 1);
    }
    ghost var v, n := Value(fe), LeAt(src[..], 0, 32);
    FeToBytes(out, fe);
    SameResidue(v, n % TWO255);
    LeAtRange(src[..], 0, 32);
    CanonicalNumber(n);
    if LeAt(out[..], 0, 32) == n {
      LeAtInjective(out[..], src[..], 0, 32);
      assert out[..] == out[..][0..32] && src[..] == src[..][0..32];
    }
  }

  lemma SmallIsPrintable(f: array<int32>, n: nat)
    requires IsElement(f) && Small(f, n) && n <= 2
    ensures Printable(f)
  {
  }

  lemma SameResidue(a: int, b: int)
    requires Cong(a, b)
    ensures a % P == b % P
  {
    hide Cong;
    var k := CongQuotient(a, b);
    DivUnique(a, P, b / P + k, b % P);
  }

  lemma CanonicalNumber(n: int)
    requires 0 <= n
    ensures n % TWO255 % P == n <==> n < P
  {
  }
}
