/**
 Honest proofs verify, their hash does not depend on the nonce, and two answers to one commitment give the secret
 away.
 */
module VrfCompleteness {
  import opened Options
  import opened Words
  import opened BitOps
  import opened ByteStrings
  import opened Groups
  import opened PointArithmetic
  import opened PointDecoding
  import opened Recoding
  import opened DoubleScalar
  import opened ScalarField
  import opened Octets
  import opened VrfGroup
  import opened Vrf
  import opened VrfProofs

  // ---------- the encoding of proofs ----------

  lemma OrderFits()
    ensures L < Pow256(32) && L < Pow2(255)
  {
    hide Pow256, Pow2;
    Pow256Of32();
    Pow256IsPow2(32);
    Pow2Adds(1, 255);
    SmallPowers();
  }

  lemma Slices(a: seq<byte>, b: seq<byte>, c: seq<byte>)
    requires |a| == 33 && |b| == 16 && |c| == 32
    ensures (a + b + c)[1..33] == a[1..] && (a + b + c)[33..49] == b && (a + b + c)[49..81] == c
    ensures (a + b + c)[0] == a[0]
  {
  }

  /** A proof decodes to the gamma, c and s it was made of. */
  lemma ProofRoundTrip(gamma: Point, c: nat, s: nat)
    requires PrimeField() && Canonical(gamma) && c < Pow256(16) && s < Pow256(32)
    ensures var pi := Octets81(gamma, c, s);
            && Gamma(pi) == Done(gamma) && ProofC(pi) == c && ProofS(pi) == s
            && ECVRF_proof2hash(pi) == Encode(gamma)
  {
    hide PrimeField, Canonical, Encode, Decode, Pow256, I2OSP, OS2IP, Buffer;
    var e := Encode(gamma);
    Slices(S2OS(e), I2OSP(c, 16), I2OSP(s, 32));
    I2OSPRoundTrip(c, 16);
    I2OSPRoundTrip(s, 32);
    DecodeEncode(gamma);
    BufferKeepsSign(e);
  }

  // ---------- the group equations ----------

  lemma {:induction false} ManyZeros<G(!new)>(g: Group<G>, n: nat)
    requires Abelian(g)
    ensures Times(g, n, g.zero) == g.zero
  {
    hide Commutes, Associates, HasInverses;
    if n > 0 {
      ManyZeros(g, n - 1);
      Neutral(g, g.zero);
    }
  }

  /** A multiple of a number that annihilates A annihilates A. */
  lemma Annihilates<G(!new)>(g: Group<G>, t: int, q: int, A: G)
    requires Abelian(g) && A in g.carrier && Times(g, q, A) == g.zero
    ensures Times(g, t * q, A) == g.zero
  {
    hide Commutes, Associates, HasInverses, Times;
    var n := if t < 0 then -t else t;
    TimesTimes(g, n, q, A);
    ManyZeros(g, n);
    if t < 0 {
      TimesNegates(g, n * q, A);
      Inverse(g, g.zero);
      Neutral(g, g.neg(g.zero));
      assert t * q == -(n * q);
    }
  }

  lemma SameMultiple<G(!new)>(g: Group<G>, a: int, b: int, t: int, q: int, A: G)
    requires Abelian(g) && A in g.carrier && Times(g, q, A) == g.zero && a == b + t * q
    ensures Times(g, a, A) == Times(g, b, A)
  {
    hide Commutes, Associates, HasInverses, Times;
    Annihilates(g, t, q, A);
    TimesSum(g, b, t * q, A);
    Neutral(g, Times(g, b, A));
  }

  /** c (x A) + (k - c x mod l) A = k A, where l A = 0. */
  lemma ResponseOpens<G(!new)>(g: Group<G>, A: G, x: nat, k: nat, c: nat)
    requires Abelian(g) && A in g.carrier && Times(g, L, A) == g.zero
    ensures Combination(g, c, Times(g, x, A), Response(k, c, x), A) == Times(g, k, A)
  {
    hide Commutes, Associates, HasInverses, Times;
    var s, t := Response(k, c, x), (k - c * x) / L;
    TimesTimes(g, c, x, A);
    TimesSum(g, c * x, s, A);
    SameMultiple(g, k, c * x + s, t, L, A);
  }

  lemma CofactorCleared(g: Group<Point>, B: Point, Q: Point)
    requires Ed25519(g, B) && Q in g.carrier
    ensures Abelian(g) && Times(g, L, Times(g, 8, Q)) == g.zero
  {
    hide Closed, Commutes, Associates, HasInverses, PrimeField, Times;
    assert Annihilated(g, Q);
    TimesTimes(g, L, 8, Q);
    assert L * 8 == 8 * L;
  }

  lemma GeneratorOrder(g: Group<Point>, B: Point)
    requires Ed25519(g, B)
    ensures Abelian(g) && B in g.carrier && Times(g, L, B) == g.zero
  {
    hide Closed, PrimeField;
  }

  lemma InCarrier(g: Group<Point>, B: Point, p: Point)
    requires Ed25519(g, B) && p in g.carrier
    ensures Canonical(p)
  {
  }

  // ---------- completeness ----------

  lemma HonestCheck(sha: Hash, g: Group<Point>, B: Point, H: Point, x: nat, k: nat, pk: seq<byte>, kp: seq<byte>,
                    c: nat)
    requires Ed25519(g, B) && Digests(sha, 32) && Closed(g) && H in g.carrier && Times(g, L, H) == g.zero
    requires |pk| >= 32 && kp == Encode(Times(g, k, B))
    requires c == Challenge(sha, B, H, pk, Times(g, x, H), S2OS(kp), S2OS(Encode(Times(g, k, H))))
    ensures Checks(sha, g, B, H, pk, Times(g, x, B), Times(g, x, H), c, Response(k, c, x))
  {
    hide Ed25519, Closed, Abelian, Times, Combination, Challenge, Recoded, Response, Encode, S2OS, Digests, Checks;
    GeneratorOrder(g, B);
    ResponseOpens(g, B, x, k, c);
    ResponseOpens(g, H, x, k, c);
    var s := Response(k, c, x);
    ResponseIsExact(s);
    OpenedCheck(sha, g, B, H, pk, Times(g, x, B), Times(g, x, H), c, s, Times(g, k, B), Times(g, k, H));
  }

  lemma OpenedCheck(sha: Hash, g: Group<Point>, B: Point, H: Point, pk: seq<byte>, Y: Point, gamma: Point, c: nat,
                    s: nat, U: Point, V: Point)
    requires Ed25519(g, B) && Digests(sha, 32) && |pk| >= 32 && Closed(g) && Recoded(s) == s
    requires B in g.carrier && H in g.carrier && Y in g.carrier && gamma in g.carrier
    requires U == Combination(g, c, Y, s, B) && V == Combination(g, c, gamma, s, H)
    requires c == Challenge(sha, B, H, pk, gamma, S2OS(Encode(U)), S2OS(Encode(V)))
    ensures Checks(sha, g, B, H, pk, Y, gamma, c, s)
  {
    hide Ed25519, Closed, Combination, Challenge, Recoded, Encode, S2OS, Digests;
  }

  lemma ResponseIsExact(s: nat)
    requires s < L
    ensures Recoded(s) == s
  {
    hide Pow2, NafRest;
    OrderFits();
    Pow2Adds(1, 255);
    SmallPowers();
    SlideIsExact(s);
  }

  /** Every proof that ECVRF_prove makes is accepted by ECVRF_verify, for every message, key and nonce. */
  lemma Completeness(sha: Hash, g: Group<Point>, B: Point, m: seq<byte>, x: nat, k: nat, pk: seq<byte>, kp: seq<byte>)
    requires Ed25519(g, B) && Digests(sha, 32) && Closed(g) && B in g.carrier
    requires pk == Encode(Times(g, x, B)) && kp == Encode(Times(g, k, B))
    requires HashToPoint(sha, g, B, m, pk, 0).Some?
    ensures var H := HashToPoint(sha, g, B, m, pk, 0).value;
            var pi := Proof(sha, g, B, H, x, k, pk, kp);
            && Verdict(sha, g, B, pk, pi, m) == Done(true)
            && ECVRF_proof2hash(pi) == Encode(Times(g, x, H))
  {
    hide Ed25519, Closed, Times, Combination, Challenge, Response, Encode, S2OS, Digests, HashToPoint, Checks;
    hide Decode, Buffer, ProofC, ProofS, Gamma, Octets81, Pow256, ECVRF_proof2hash, PrimeField, Canonical;
    var H := HashToPoint(sha, g, B, m, pk, 0).value;
    var Q := HashToPointIsMultiple(sha, g, B, m, pk, 0);
    Basics(g, B);
    var gamma, Y := Times(g, x, H), Times(g, x, B);
    var c := Challenge(sha, B, H, pk, gamma, S2OS(kp), S2OS(Encode(Times(g, k, H))));
    CofactorCleared(g, B, Q);
    HonestCheck(sha, g, B, H, x, k, pk, kp, c);
    InCarrier(g, B, gamma);
    InCarrier(g, B, Y);
    OrderFits();
    ProofRoundTrip(gamma, c, Response(k, c, x));
    DecodeEncode(Y);
    BufferKeepsSign(pk);
  }

  /** gamma is x H; and c and s open both commitments to the nonce k. */
  ghost predicate OpensTo(g: Group<Point>, B: Point, H: Point, x: nat, k: nat, pi: seq<byte>)
    requires Closed(g) && B in g.carrier && H in g.carrier && |pi| >= 81
  {
    var gamma, c, s := Times(g, x, H), OS2IP(pi[33..49]), OS2IP(pi[49..81]);
    && Gamma(pi) == Done(gamma)
    && 0 <= s < L && (s + c * x - k) % L == 0
    && Combination(g, c, Times(g, x, B), Recoded(s), B) == Times(g, k, B)
    && Combination(g, c, gamma, s, H) == Times(g, k, H)
  }

  lemma ProofOpens(sha: Hash, g: Group<Point>, B: Point, H: Point, x: nat, k: nat, pk: seq<byte>, kp: seq<byte>)
    requires Ed25519(g, B) && Digests(sha, 32) && Closed(g) && B in g.carrier && H in g.carrier
    requires Times(g, L, H) == g.zero && |pk| >= 32 && |kp| >= 32
    ensures var pi := Proof(sha, g, B, H, x, k, pk, kp);
            |pi| == 81 && OpensTo(g, B, H, x, k, pi)
  {
    hide Ed25519, Closed, Times, Combination, Challenge, Encode, S2OS, Digests, OS2IP, Gamma, Octets81, Pow256,
        PrimeField, Canonical, Abelian, Recoded, Response;
    Basics(g, B);
    var gamma := Times(g, x, H);
    var c := Challenge(sha, B, H, pk, gamma, S2OS(kp), S2OS(Encode(Times(g, k, H))));
    InCarrier(g, B, gamma);
    OrderFits();
    ProofRoundTrip(gamma, c, Response(k, c, x));
    GeneratorOrder(g, B);
    ResponseOpens(g, B, x, k, c);
    ResponseOpens(g, H, x, k, c);
    ResponseIsExact(Response(k, c, x));
    ResponseSolves(k, c, x);
  }

  lemma ResponseSolves(k: nat, c: nat, x: nat)
    ensures (Response(k, c, x) + c * x - k) % L == 0
  {
    MultipleOfL(Response(k, c, x) + c * x - k, -((k - c * x) / L));
  }

  /**
   With keys from key generation, ECVRF_prove panics if none of the 100 digests decodes, and otherwise gives a proof
   that ECVRF_verify accepts, with the gamma of the secret key and commitments to the drawn nonce.
   */
  lemma AnswerIsAccepted(sha256: Hash, sha512: Hash, g: Group<Point>, B: Point, pk: seq<byte>, sk: seq<byte>,
                         m: seq<byte>, kp: seq<byte>, ks: seq<byte>)
    requires Ed25519(g, B) && Digests(sha256, 32) && Digests(sha512, 64) && Closed(g) && B in g.carrier
    requires |sk| >= 32 && pk == Encode(Times(g, Secret(sha512, sk), B))
    requires |ks| >= 32 && kp == Encode(Times(g, Secret(sha512, ks), B))
    ensures var r := Answer(sha256, sha512, g, B, pk, sk, m, Some((kp, ks)));
            && (r.Done? <==> exists i: nat :: i < 100 && DigestDecodes(sha256, m, pk, i))
            && (r.Done? || r == Panic)
            && (r.Done? ==>
                  && HashToPoint(sha256, g, B, m, pk, 0).Some? && |r.value| == 81
                  && OpensTo(g, B, HashToPoint(sha256, g, B, m, pk, 0).value, Secret(sha512, sk), Secret(sha512, ks),
                             r.value)
                  && Verdict(sha256, g, B, pk, r.value, m) == Done(true))
  {
    hide Ed25519, Closed, Times, Encode, Digests, HashToPoint, Proof, Verdict, Secret, ECVRF_proof2hash, DigestDecodes,
        OpensTo;
    HashesIff(sha256, g, B, m, pk);
    if HashToPoint(sha256, g, B, m, pk, 0).Some? {
      Completeness(sha256, g, B, m, Secret(sha512, sk), Secret(sha512, ks), pk, kp);
      HashedOrder(sha256, g, B, m, pk);
      var H := HashToPoint(sha256, g, B, m, pk, 0).value;
      ProofOpens(sha256, g, B, H, Secret(sha512, sk), Secret(sha512, ks), pk, kp);
    }
  }

  lemma HashedOrder(sha: Hash, g: Group<Point>, B: Point, m: seq<byte>, pk: seq<byte>)
    requires Ed25519(g, B) && HashToPoint(sha, g, B, m, pk, 0).Some? && Closed(g)
    ensures Times(g, L, HashToPoint(sha, g, B, m, pk, 0).value) == g.zero
  {
    hide Ed25519, Closed, Times, HashToPoint;
    var Q := HashToPointIsMultiple(sha, g, B, m, pk, 0);
    CofactorCleared(g, B, Q);
  }

  /** The hash of a proof depends on the key and the message only, not on the nonce. */
  lemma HashIsNonceFree(sha: Hash, g: Group<Point>, B: Point, H: Point, x: nat, pk: seq<byte>, k: nat, kp: seq<byte>,
                        k': nat, kp': seq<byte>)
    requires Ed25519(g, B) && Digests(sha, 32) && Closed(g) && H in g.carrier && |pk| >= 32 && |kp| >= 32 && |kp'| >= 32
    ensures ECVRF_proof2hash(Proof(sha, g, B, H, x, k, pk, kp)) == ECVRF_proof2hash(Proof(sha, g, B, H, x, k', pk, kp'))
  {
    hide Ed25519, Closed, Times, Challenge, Response, Encode, S2OS, Digests, Octets81, Pow256, ECVRF_proof2hash,
        PrimeField, Canonical;
    hide ProofC, ProofS, Gamma;
    Basics(g, B);
    var gamma := Times(g, x, H);
    InCarrier(g, B, gamma);
    OrderFits();
    var c := Challenge(sha, B, H, pk, gamma, S2OS(kp), S2OS(Encode(Times(g, k, H))));
    var c' := Challenge(sha, B, H, pk, gamma, S2OS(kp'), S2OS(Encode(Times(g, k', H))));
    ProofRoundTrip(gamma, c, Response(k, c, x));
    ProofRoundTrip(gamma, c', Response(k', c', x));
  }

  // ---------- two answers to one commitment ----------

  lemma Rearranged<G(!new)>(g: Group<G>, c: int, s: int, c': int, s': int, Y: G, B: G)
    requires Abelian(g) && Y in g.carrier && B in g.carrier
    requires Combination(g, c, Y, s, B) == Combination(g, c', Y, s', B)
    ensures Times(g, c - c', Y) == Times(g, s' - s, B)
  {
    hide Commutes, Associates, HasInverses, Times;
    CombinationSum(g, c, s, -c', -s, Y, B);
    CombinationSum(g, c', s', -c', -s, Y, B);
    NothingOf(g, B);
    NothingOf(g, Y);
    Neutral(g, Times(g, c - c', Y));
    Neutral(g, Times(g, s' - s, B));
  }

  lemma NothingOf<G(!new)>(g: Group<G>, A: G)
    requires Abelian(g) && A in g.carrier
    ensures Times(g, 0, A) == g.zero
  {
  }

  /** d (c - c') = 1 + e q: A, times any q-annihilated factor, is the extracted multiple of B. */
  lemma Extract<G(!new)>(g: Group<G>, n: int, r: int, d: nat, e: int, q: int, A: G, B: G)
    requires Abelian(g) && A in g.carrier && B in g.carrier
    requires Times(g, n, A) == Times(g, r, B) && d * n == 1 + e * q && Times(g, q, A) == g.zero
    ensures A == Times(g, d * r, B)
  {
    hide Commutes, Associates, HasInverses, Times;
    TimesTimes(g, d, n, A);
    TimesTimes(g, d, r, B);
    SameMultiple(g, d * n, 1, e, q, A);
    TimesOne(g, A);
  }

  /**
   If two challenges c, c' whose difference is invertible modulo l are answered for the same u and v, as ECVRF_verify
   computes them, then the answers explain the public key and gamma up to the cofactor, for every key and gamma of the
   group: 8 Y = w (8 B) and 8 gamma = w' (8 H), where w is made of what slide keeps of the answers and w' of the
   answers themselves.
   */
  lemma SpecialSoundness(g: Group<Point>, B: Point, H: Point, Y: Point, gamma: Point,
                         c: int, s: int, c': int, s': int, d: nat, e: int)
    requires Ed25519(g, B) && Abelian(g) && B in g.carrier && H in g.carrier && Y in g.carrier && gamma in g.carrier
    requires d * (c - c') == 1 + e * L
    requires Combination(g, c, Y, Recoded(s), B) == Combination(g, c', Y, Recoded(s'), B)
    requires Combination(g, c, gamma, s, H) == Combination(g, c', gamma, s', H)
    ensures Times(g, 8, Y) == Times(g, d * (Recoded(s') - Recoded(s)), Times(g, 8, B))
    ensures Times(g, 8, gamma) == Times(g, d * (s' - s), Times(g, 8, H))
  {
    hide Recoded;
    ExtractLifted(g, B, c, Recoded(s), c', Recoded(s'), d, e, Y, B);
    ExtractLifted(g, B, c, s, c', s', d, e, gamma, H);
  }

  /** One equation, multiplied by the cofactor. */
  lemma ExtractLifted(g: Group<Point>, B: Point, c: int, s: int, c': int, s': int, d: nat, e: int, A: Point, G: Point)
    requires Ed25519(g, B) && Abelian(g) && A in g.carrier && G in g.carrier && d * (c - c') == 1 + e * L
    requires Combination(g, c, A, s, G) == Combination(g, c', A, s', G)
    ensures Times(g, 8, A) == Times(g, d * (s' - s), Times(g, 8, G))
  {
    hide Ed25519, Commutes, Associates, HasInverses, Times, Combination;
    Rearranged(g, c, s, c', s', A, G);
    CofactorCleared(g, B, A);
    Lift(g, 8, c - c', A);
    Lift(g, 8, s' - s, G);
    Extract(g, c - c', s' - s, d, e, L, Times(g, 8, A), Times(g, 8, G));
  }

  /** For a key without a component of small order, the secret explains the key itself: Y = w B. */
  lemma SoundnessForPrimeOrderKeys(g: Group<Point>, B: Point, Y: Point, c: int, s: int, c': int, s': int,
                                   d: nat, e: int)
    requires Ed25519(g, B) && Abelian(g) && B in g.carrier && Y in g.carrier && d * (c - c') == 1 + e * L
    requires Times(g, L, Y) == g.zero
    requires Combination(g, c, Y, Recoded(s), B) == Combination(g, c', Y, Recoded(s'), B)
    ensures Y == Times(g, d * (Recoded(s') - Recoded(s)), B)
  {
    hide Ed25519, Commutes, Associates, HasInverses, Times, Combination, Recoded;
    Rearranged(g, c, Recoded(s), c', Recoded(s'), Y, B);
    Extract(g, c - c', Recoded(s') - Recoded(s), d, e, L, Y, B);
  }

  /** The two are one secret modulo l exactly when slide loses the carry of both answers or of neither. */
  lemma OneSecret(s: nat, s': nat, n: int, d: nat, e: int)
    requires s < Pow2(256) && s' < Pow2(256) && d * n == 1 + e * L
    ensures (d * (Recoded(s') - Recoded(s)) - d * (s' - s)) % L == 0 <==> NafRest(s, 256) == NafRest(s', 256)
  {
    hide NafRest, Pow2;
    SlideIsExact(s);
    SlideIsExact(s');
    var k, m := NafRest(s, 256) - NafRest(s', 256), Pow2(256);
    var x := d * (Recoded(s') - Recoded(s)) - d * (s' - s);
    assert Recoded(s') - Recoded(s) == (s' - s) + m * k;
    assert x == d * (m * k) by {
      assert d * ((s' - s) + m * k) == d * (s' - s) + d * (m * k);
    }
    if k != 0 {
      LostCarryShows(x, m, k, n, d, e);
    }
  }

  /** 2^256 is not a multiple of l, nor is its product with an invertible number. */
  lemma LostCarryShows(x: int, m: int, k: int, n: int, d: nat, e: int)
    requires x == d * (m * k) && m == Pow2(256) && (k == 1 || k == -1) && d * n == 1 + e * L
    ensures x % L != 0
  {
    hide Pow2;
    TwoTo256();
    if x % L == 0 {
      var q := x / L;
      var p := m * k;
      assert n * x == (d * n) * p;
      assert (1 + e * L) * p == p + L * (e * p);
      assert n * (L * q) == L * (n * q);
      MultipleOfL(p, n * q - e * p);
    }
  }

  lemma MultipleOfL(p: int, q: int)
    requires p == L * q
    ensures p % L == 0
  {
  }

  lemma TwoTo256()
    ensures Pow2(256) % L != 0 && -Pow2(256) % L != 0
  {
    hide Pow2, Pow256;
    Pow256Of32();
    Pow256IsPow2(32);
  }

  /** 8 (n A) = n (8 A), for any integer n. */
  lemma Lift<G(!new)>(g: Group<G>, m: nat, n: int, A: G)
    requires Abelian(g) && A in g.carrier
    ensures Times(g, m, Times(g, n, A)) == Times(g, n, Times(g, m, A))
  {
    hide Commutes, Associates, HasInverses, Times;
    TimesTimes(g, m, n, A);
    if n >= 0 {
      TimesTimes(g, n, m, A);
      assert n * m == m * n;
    } else {
      TimesTimes(g, -n, m, A);
      TimesNegates(g, -n * m, A);
      TimesNegates(g, -n, Times(g, m, A));
      assert -(-n * m) == m * n;
    }
  }
}
