/**
 Why one weight per voter and step is an assumption: verifySort drops the verdict on the proof, so the sub-users of a
 vote are what its sender's choice of VRF output makes them.
 */
module VoteWeights {
  import opened Words
  import opened BitOps
  import opened ByteStrings
  import opened Octets
  import opened Binomial
  import opened CachedBinomial
  import opened Sortition
  import opened Groups
  import opened PointArithmetic
  import opened VrfGroup
  import opened VrfProofs
  import opened Votes
  import opened VoteCount

  // ---------- two outputs ----------

  /** The largest number of n octets. */
  function Largest(n: nat): (r: seq<byte>)
    ensures |r| == n
  {
    seq(n, _ => 0xFF)
  }

  lemma {:induction false} LargestValue(n: nat)
    ensures OS2IP(Largest(n)) == Pow256(n) - 1
  {
    if n > 0 {
      assert Largest(n)[..n - 1] == Largest(n - 1);
      LargestValue(n - 1);
    }
  }

  /** 2^256, which no honest output reaches. */
  function TooLarge(): seq<byte> {
    [1] + Zeros(32)
  }

  lemma TooLargeDraw()
    ensures Draw(TooLarge()) == 1.0
  {
    hide Pow2, Pow256, OS2IP, Zeros;
    OS2IPConcat([1], Zeros(32));
    ZerosValue(32);
    Pow256IsPow2(32);
    OneOctet();
    OneLess(Pow2(256));
  }

  lemma OneOctet()
    ensures OS2IP([1]) == 1
  {
    assert [1][..0] == [];
  }

  lemma LargestDraw()
    ensures Draw(Largest(32)) == 1.0 - 1.0 / Pow2(256) as real
  {
    hide Pow2, Pow256, OS2IP;
    LargestValue(32);
    Pow256IsPow2(32);
    OneLess(Pow2(256));
  }

  lemma OneLess(m: int)
    requires m > 0
    ensures (m - 1) as real / m as real == 1.0 - 1.0 / m as real
    ensures m as real / m as real == 1.0
  {
    var y := m as real;
    assert (y - 1.0) / y == 1.0 - 1.0 / y && y / y == 1.0;
  }

  // ---------- CDF(1) stays away from 1 ----------

  /** With a larger stake, at most one sub-user is less likely. */
  lemma CdfOneFalls(n: nat, e: int, t: int)
    requires 0 <= e <= t && t > 0
    ensures CdfOf(n + 1, e, t, 1) <= CdfOf(n, e, t, 1)
  {
    hide Hit, Miss, SumTo;
    HitOrMiss(e, t);
    var p, q := Hit(e, t), Miss(e, t);
    SumStep(n, 1, p, q);
    SumMonotone(n, 0, 1, p, q);
    Average(p, q, SumTo(n, 0, p, q), SumTo(n, 1, p, q));
  }

  lemma Average(p: real, q: real, x: real, y: real)
    requires p >= 0.0 && p + q == 1.0 && x <= y
    ensures p * x + q * y <= y
  {
    assert p * (y - x) >= 0.0;
    assert p * (y - x) == p * y - p * x;
    assert (p + q) * y == p * y + q * y;
  }

  lemma ProbOfTwo(e: int, t: int)
    requires t > 0
    ensures ProbOf(2, e, t, 2) == Hit(e, t) * Hit(e, t)
  {
    var p := Hit(e, t);
    hide Hit, Miss, Choose;
    ChooseAll(2);
    assert Power(p, 2) == p * Power(p, 1);
    assert Power(p, 1) == p * Power(p, 0);
  }

  /** CDF(1) <= 1 - p^2 for every stake of at least two. */
  lemma {:induction false} CdfOneBelow(n: nat, e: int, t: int)
    requires n >= 2 && 0 <= e <= t && t > 0
    ensures CdfOf(n, e, t, 1) <= 1.0 - Hit(e, t) * Hit(e, t)
  {
    hide CdfOf, ProbOf, Hit;
    if n == 2 {
      CdfBeyond(2, e, t, 2);
      CdfStep(2, e, t, 2);
      ProbOfTwo(e, t);
    } else {
      CdfOneBelow(n - 1, e, t);
      CdfOneFalls(n - 1, e, t);
    }
  }

  /** 1/t^2 <= p^2 */
  lemma SmallestChance(e: int, t: int)
    requires 1 <= e && t > 0
    ensures Hit(e, t) * Hit(e, t) >= 1.0 / (t * t) as real
  {
    var x, y := e as real, t as real;
    ProductAsReal(t, t);
    var p, r := x / y, 1.0 / y;
    assert p >= r > 0.0;
    assert p * p >= r * r;
    assert r * r == 1.0 / (y * y);
  }

  lemma Squares(t: int)
    requires 0 < t <= Pow2(127)
    ensures 0 < t * t <= Pow2(256)
  {
    hide Pow2;
    Pow2Adds(127, 127);
    Pow2Adds(254, 2);
    SmallPowers();
    SquareMono(t, Pow2(127));
  }

  lemma SquareMono(t: int, m: int)
    requires 0 < t <= m
    ensures 0 < t * t <= m * m
  {
    assert t * t <= t * m && t * m <= m * m;
  }

  lemma Reciprocals(a: int, m: int)
    requires 0 < a <= m
    ensures 1.0 / a as real >= 1.0 / m as real
  {
    var x, y := a as real, m as real;
    var s, q := 1.0 / y, y / x;
    assert q >= 1.0;
    assert s * q == 1.0 / x;
    assert s * (q - 1.0) >= 0.0;
  }

  /** So the largest output is past CDF(1), for every total that fits 127 bits. */
  lemma LargestPassesOne(n: nat, e: int, t: int)
    requires n >= 2 && 1 <= e <= t <= Pow2(127)
    ensures CdfOf(n, e, t, 1) <= Draw(Largest(32)) < 1.0
  {
    hide Pow2, CdfOf, Hit, Draw;
    CdfOneBelow(n, e, t);
    SmallestChance(e, t);
    Squares(t);
    Reciprocals(t * t, Pow2(256));
    LargestDraw();
    assert 1.0 / Pow2(256) as real > 0.0;
  }

  // ---------- when no output selects anybody ----------

  lemma NobodyExpected(n: nat, t: int)
    requires t > 0
    ensures CdfOf(n, 0, t, 0) == 1.0
  {
    assert CdfOf(n, 0, t, -1) == 0.0;
    hide ProbOf, Power, CdfOf, Miss;
    CdfStep(n, 0, t, 0);
    ProbOfNone(n, 0, t);
    NobodyMissed(t);
    PowerOfOne(n);
  }

  lemma NobodyMissed(t: int)
    requires t > 0
    ensures Miss(0, t) == 1.0
  {
    var y := t as real;
    assert y / y == 1.0;
  }

  lemma NobodySelected(n: nat, e: int, t: int, h: real)
    requires t > 0 && 0 <= e <= t && (n <= 1 || e == 0)
    ensures Search(n, e, t, h, 0) == 0
  {
    hide CdfOf, Search, Passed;
    SearchFinds(n, e, t, h, 0);
    if n == 1 {
      SelectedBelowWeight(n, e, t, h);
    } else if n > 1 && h < 1.0 {
      NobodyExpected(n, t);
      CdfMonotone(n, 0, t, 0, 1);
      PassedIsPrefix(n, e, t, h, n, 0);
    }
  }

  // ---------- the sender's choice ----------

  /** Two versions of a vote, alike but for VRF output and proof, that are processed and differ in weight. */
  ghost predicate Choice(b: Ballot, m: VoteMessage, v: seq<byte>, p: seq<byte>, v': seq<byte>, p': seq<byte>,
                         g: Group<Point>, B: Point)
    requires Proper(b) && Ed25519(g, B) && Vrf.Digests(b.sha, 32)
  {
    var x, y := m.(vrf := v, proof := p), m.(vrf := v', proof := p');
    !Crashes(b, x, g, B) && !Crashes(b, y, g, B) && VotesOf(b, x) != VotesOf(b, y)
  }

  /** The weight is decided by the VRF output alone. */
  lemma WeightOf(b: Ballot, m: VoteMessage, v: seq<byte>, p: seq<byte>)
    requires Proper(b) && m.signed && m.parentHash == b.tip
    ensures VotesOf(b, m.(vrf := v, proof := p)) == Search(b.weight, b.expectedNum, b.total, Draw(v), 0)
  {
    hide Search, Draw;
  }

  lemma TwoWeights(b: Ballot)
    requires Proper(b) && b.weight >= 2 && 1 <= b.expectedNum <= b.total <= Pow2(127)
    ensures Search(b.weight, b.expectedNum, b.total, Draw(Largest(32)), 0) >= 1
    ensures Search(b.weight, b.expectedNum, b.total, Draw(TooLarge()), 0) == 0
  {
    hide Pow2, CdfOf, Search, Passed, Draw;
    var n, e, t := b.weight, b.expectedNum, b.total;
    TooLargeDraw();
    LargestPassesOne(n, e, t);
    SearchFinds(n, e, t, Draw(TooLarge()), 0);
    SearchFinds(n, e, t, Draw(Largest(32)), 0);
    PassedBounds(n, e, t, Draw(Largest(32)), n);
  }

  /** A proof with a wrong sign octet is refused without a panic. */
  lemma RefusedProof(b: Ballot, m: VoteMessage, v: seq<byte>, g: Group<Point>, B: Point)
    requires Ed25519(g, B) && Vrf.Digests(b.sha, 32) && |m.pubkey| >= 32
    ensures !Crashes(b, m.(vrf := v, proof := [0]), g, B)
  {
    hide Ed25519, Vrf.Digests, Decode, Vrf.Buffer;
    assert Gamma([0]).Failed?;
    hide Gamma;
  }

  /**
   A sender has a choice between two weights if and only if the weight of a node is at least two and the committee is
   not empty; for every probability expectedNum/total with a total of at most 2^127.
   */
  lemma SenderChoosesWeight(b: Ballot, m: VoteMessage, g: Group<Point>, B: Point)
    requires Proper(b) && Ed25519(g, B) && Vrf.Digests(b.sha, 32)
    requires m.signed && m.parentHash == b.tip && |m.pubkey| >= 32 && 0 <= b.expectedNum <= b.total <= Pow2(127)
    ensures (exists v, p, v', p' :: Choice(b, m, v, p, v', p', g, B)) <==> b.weight >= 2 && b.expectedNum >= 1
  {
    hide Pow2, Search, Draw, Ed25519, Vrf.Digests, Crashes, VotesOf;
    if b.weight >= 2 && b.expectedNum >= 1 {
      TwoWeights(b);
      WeightOf(b, m, Largest(32), [0]);
      WeightOf(b, m, TooLarge(), [0]);
      RefusedProof(b, m, Largest(32), g, B);
      RefusedProof(b, m, TooLarge(), g, B);
      assert Choice(b, m, Largest(32), [0], TooLarge(), [0], g, B);
    } else {
      forall v, p, v', p' ensures !Choice(b, m, v, p, v', p', g, B) {
        WeightOf(b, m, v, p);
        WeightOf(b, m, v', p');
        NobodySelected(b.weight, b.expectedNum, b.total, Draw(v));
        NobodySelected(b.weight, b.expectedNum, b.total, Draw(v'));
      }
    }
  }
}
