/** Quotients, remainders and base-256 digits, in the small steps the packing proofs need. */
module Division {

  /** A product that proofs over many of them can hide. */
  function Mul(x: int, y: int): int {
    x * y
  }

  lemma MulMono(d: int, x: int, y: int)
    requires d > 0 && x <= y
    ensures d * x <= d * y
  {
  }

  lemma DivUnique(h: int, d: int, q: int, r: int)
    requires d > 0 && 0 <= r < d && h == d * q + r
    ensures h / d == q && h % d == r
  {
    var q' := h / d;
    assert d * q' <= h < d * q' + d;
    if q' > q {
      MulMono(d, q + 1, q');
      assert false;
    }
    if q' < q {
      MulMono(d, q' + 1, q);
      assert false;
    }
  }

  lemma DivShrinks(h: int, d: int)
    requires 0 <= h && d > 0
    ensures 0 <= h / d <= h
  {
    MulMono(h / d + 1, 1, d);
  }

  lemma DivDiv(h: int, a: int, b: int)
    requires a > 0 && b > 0
    ensures h / a / b == h / (a * b)
  {
    var q, s := h / a, h % a;
    var r, t := q / b, q % b;
    MulMono(a, t, b - 1);
    assert a * q == a * (b * r) + a * t;
    assert h == (a * b) * r + (a * t + s);
    DivUnique(h, a * b, r, a * t + s);
  }

  /** Shifting a limb in above t, and back down by a byte, leaves the limb shifted down by the rest of the byte. */
  lemma JoinDigit(t: int, h: int, m: int, c: int)
    requires 0 <= t < m && m * c == 0x100 && c > 0
    ensures (t + m * h) / 0x100 == h / c
  {
    var q, r := h / c, h % c;
    assert h == c * q + r;
    MulMono(m, r, c - 1);
    assert m * h == m * c * q + m * r;
    assert m * (c - 1) == 0x100 - m;
    DivUnique(t + m * h, 0x100, q, t + m * r);
  }

  /** t bits left over from the limb below, then limb h: a joint byte, two more, and what is left over. */
  lemma LimbBytes(t: int, h: int, m: int, c: int)
    requires 0 <= t < m && m * c == 0x100 && c > 0
    ensures t + m * h == (t + m * h) % 0x100 + 0x100 * (h / c % 0x100)
                         + 0x1_0000 * (h / (c * 0x100) % 0x100) + 0x100_0000 * (h / (c * 0x1_0000))
  {
    LimbPair(t, h, m, c);
    var b := h / (c * 0x100);
    assert b == 0x100 * (b / 0x100) + b % 0x100;
    DivDiv(h, c * 0x100, 0x100);
    assert c * 0x100 * 0x100 == c * 0x1_0000;
  }

  /** The same with one byte after the joint byte. */
  lemma LimbPair(t: int, h: int, m: int, c: int)
    requires 0 <= t < m && m * c == 0x100 && c > 0
    ensures t + m * h == (t + m * h) % 0x100 + 0x100 * (h / c % 0x100) + 0x1_0000 * (h / (c * 0x100))
  {
    var x, a := t + m * h, h / c;
    JoinDigit(t, h, m, c);
    assert x == 0x100 * a + x % 0x100;
    assert a == 0x100 * (a / 0x100) + a % 0x100;
    DivDiv(h, c, 0x100);
  }

  /** One step of a positional sum: weight m, digit d, the rest x in base c. */
  lemma PositionalStep(m: int, d: int, c: int, x: int)
    ensures m * (d + c * x) == d * m + (c * m) * x
  {
    var y := c * x;
    assert m * (d + y) == m * d + m * y;
    assert m * (c * x) == (c * m) * x;
  }

  lemma ScaleProduct(c: int, x: int, w: int)
    ensures c * (x * w) == x * (c * w)
  {
    assert c * (x * w) == (c * x) * w;
  }
}
