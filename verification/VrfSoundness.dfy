/**
 What ECVRF_verify accepts, octet by octet, and what two accepted proofs give away; and in exactly which cases
 ECVRF_prove makes a proof.
 */
module VrfSoundness {
  import opened Options
  import opened Words
  import opened ByteStrings
  import opened Groups
  import opened PointArithmetic
  import opened PointDecoding
  import opened DoubleScalar
  import opened ScalarField
  import opened Octets
  import opened VrfGroup
  import opened Vrf
  import opened VrfProofs
  import opened VrfCompleteness

  // ---------- what is hashed ----------

  /**
   The six strings one after the other, for u = c Y + s B, where slide may lose a carry of s, and v = c gamma + s H.
   */
  ghost function Query(g: Group<Point>, B: Point, H: Point, pk: seq<byte>, Y: Point, gamma: Point, c: nat,
                       s: nat): seq<byte>
    requires Closed(g) && B in g.carrier && H in g.carrier && Y in g.carrier && gamma in g.carrier && |pk| >= 32
  {
    var u := g.add(Times(g, c, Y), Times(g, Recoded(s), B));
    var v := g.add(Times(g, c, gamma), Times(g, s, H));
    S2OS(Encode(B)) + S2OS(Encode(H)) + S2OS(pk) + S2OS(Encode(gamma)) + S2OS(Encode(u)) + S2OS(Encode(v))
  }

  lemma ConcatSix(a: seq<byte>, b: seq<byte>, c: seq<byte>, d: seq<byte>, e: seq<byte>, f: seq<byte>)
    ensures Concat([a, b, c, d, e, f]) == a + b + c + d + e + f
  {
    hide Concat;
    ConcatOne(a);
    ConcatMore([a], b);
    ConcatMore([a] + [b], c);
    ConcatMore([a] + [b] + [c], d);
    ConcatMore([a] + [b] + [c] + [d], e);
    ConcatMore([a] + [b] + [c] + [d] + [e], f);
    assert [a] + [b] + [c] + [d] + [e] + [f] == [a, b, c, d, e, f];
  }

  lemma ConcatMore(ps: seq<seq<byte>>, p: seq<byte>)
    ensures Concat(ps + [p]) == Concat(ps) + p
  {
    hide Concat;
    ConcatOne(p);
    ConcatJoins(ps, [p]);
  }

  lemma ChecksOctets(sha: Hash, g: Group<Point>, B: Point, H: Point, pk: seq<byte>, Y: Point, gamma: Point,
                     cs: seq<byte>, s: nat)
    requires Ed25519(g, B) && Digests(sha, 32) && |pk| >= 32 && |cs| == 16
    requires Closed(g) && B in g.carrier && H in g.carrier && Y in g.carrier && gamma in g.carrier
    ensures Checks(sha, g, B, H, pk, Y, gamma, OS2IP(cs), s)
            <==> cs == sha(Query(g, B, H, pk, Y, gamma, OS2IP(cs), s))[..16]
  {
    hide Ed25519, Closed, Times, Recoded, Encode, S2OS, OS2IP, Concat, Pow256;
    var c := OS2IP(cs);
    var u := Combination(g, c, Y, Recoded(s), B);
    var v := Combination(g, c, gamma, s, H);
    ConcatSix(S2OS(Encode(B)), S2OS(Encode(H)), S2OS(pk), S2OS(Encode(gamma)), S2OS(Encode(u)), S2OS(Encode(v)));
    var d := sha(Query(g, B, H, pk, Y, gamma, c, s));
    if OS2IP(cs) == OS2IP(d[..16]) {
      OS2IPInjective(cs, d[..16]);
    }
  }

  // ---------- what is accepted ----------

  /** The key that a public key string stands for. */
  ghost function Key(pk: seq<byte>): Option<Point>
    requires |pk| >= 32
  {
    Decode(Buffer(pk, pk[31] / 128))
  }

  /** Proof and key can be read, and the message hashes to the curve. */
  ghost predicate Readable(sha: Hash, g: Group<Point>, B: Point, pk: seq<byte>, pi: seq<byte>, m: seq<byte>)
    requires Ed25519(g, B)
  {
    Gamma(pi).Done? && |pk| >= 32 && Key(pk).Some? && HashToPoint(sha, g, B, m, pk, 0).Some?
  }

  lemma ReadablePoints(sha: Hash, g: Group<Point>, B: Point, pk: seq<byte>, pi: seq<byte>, m: seq<byte>)
    requires Ed25519(g, B) && Readable(sha, g, B, pk, pi, m)
    ensures Closed(g) && B in g.carrier && Key(pk).value in g.carrier && Gamma(pi).value in g.carrier
    ensures HashToPoint(sha, g, B, m, pk, 0).value in g.carrier
  {
    hide Ed25519, Closed, Decode, Buffer;
    Basics(g, B);
    DecodeInCarrier(g, B, Buffer(pk, pk[31] / 128));
    DecodeInCarrier(g, B, Buffer(pi[1..33], pi[0] - 2));
  }

  /** What ECVRF_verify hashes for a proof. */
  ghost function Asked(sha: Hash, g: Group<Point>, B: Point, pk: seq<byte>, pi: seq<byte>, m: seq<byte>): seq<byte>
    requires Ed25519(g, B) && Readable(sha, g, B, pk, pi, m)
  {
    ReadablePoints(sha, g, B, pk, pi, m);
    Query(g, B, HashToPoint(sha, g, B, m, pk, 0).value, pk, Key(pk).value, Gamma(pi).value,
          OS2IP(pi[33..49]), OS2IP(pi[49..81]))
  }

  /**
   Accepted are exactly the readable proofs whose octets 33 to 48 begin the hash of what is asked for them; all other
   readable proofs are rejected.
   */
  lemma AcceptedIff(sha: Hash, g: Group<Point>, B: Point, pk: seq<byte>, pi: seq<byte>, m: seq<byte>)
    requires Ed25519(g, B) && Digests(sha, 32)
    ensures Verdict(sha, g, B, pk, pi, m) == Done(true)
            <==> Readable(sha, g, B, pk, pi, m) && pi[33..49] == sha(Asked(sha, g, B, pk, pi, m))[..16]
    ensures Verdict(sha, g, B, pk, pi, m) == Done(false)
            <==> Readable(sha, g, B, pk, pi, m) && pi[33..49] != sha(Asked(sha, g, B, pk, pi, m))[..16]
  {
    hide Ed25519, Closed, Gamma, Decode, Buffer, HashToPoint, Checks, Query, OS2IP, Pow256;
    if Readable(sha, g, B, pk, pi, m) {
      ReadablePoints(sha, g, B, pk, pi, m);
      ChecksOctets(sha, g, B, HashToPoint(sha, g, B, m, pk, 0).value, pk, Key(pk).value, Gamma(pi).value, pi[33..49],
                   OS2IP(pi[49..81]));
    }
  }

  /** All other outcomes: the order of the errors and panics. */
  lemma VerdictCases(sha: Hash, g: Group<Point>, B: Point, pk: seq<byte>, pi: seq<byte>, m: seq<byte>)
    requires Ed25519(g, B) && Digests(sha, 32)
    ensures var r := Verdict(sha, g, B, pk, pi, m);
            && (r.Done? <==> Readable(sha, g, B, pk, pi, m))
            && (r == Failed(DecodeError) <==> Gamma(pi).Failed?)
            && (r == Failed(MalformedInput) <==> Gamma(pi).Done? && |pk| >= 32 && Key(pk).None?)
            && r != Failed(KeyError)
  {
    hide Ed25519, Closed, Decode, Buffer, HashToPoint, Checks;
  }

  // ---------- two accepted proofs ----------

  lemma Peel(s: seq<byte>, t: seq<byte>, s': seq<byte>, t': seq<byte>)
    requires |t| == |t'| && s + t == s' + t'
    ensures s == s' && t == t'
  {
    assert s == (s + t)[..|s|] && t == (s + t)[|s|..];
    assert s' == (s' + t')[..|s'|] && t' == (s' + t')[|s'|..];
  }

  lemma SameOctets(p: Point, q: Point)
    requires PrimeField() && Canonical(p) && Canonical(q) && S2OS(Encode(p)) == S2OS(Encode(q))
    ensures p == q
  {
    hide PrimeField, Canonical, Encode, Decode;
    assert Encode(p) == S2OS(Encode(p))[1..] && Encode(q) == S2OS(Encode(q))[1..];
    DecodeEncode(p);
    DecodeEncode(q);
  }

  /** What is asked for a proof determines h, gamma and the two commitments. */
  lemma QueryIff(g: Group<Point>, B: Point, pk: seq<byte>, Y: Point, H: Point, gamma: Point, c: nat, s: nat,
                 H': Point, gamma': Point, c': nat, s': nat)
    requires Ed25519(g, B) && Closed(g) && B in g.carrier && Y in g.carrier && |pk| >= 32
    requires H in g.carrier && gamma in g.carrier && H' in g.carrier && gamma' in g.carrier
    ensures Query(g, B, H, pk, Y, gamma, c, s) == Query(g, B, H', pk, Y, gamma', c', s')
            <==> && H == H' && gamma == gamma'
                 && Combination(g, c, Y, Recoded(s), B) == Combination(g, c', Y, Recoded(s'), B)
                 && Combination(g, c, gamma, s, H) == Combination(g, c', gamma', s', H')
  {
    hide Ed25519, Closed, Times, Recoded, Encode;
    var u, v := Combination(g, c, Y, Recoded(s), B), Combination(g, c, gamma, s, H);
    var u', v' := Combination(g, c', Y, Recoded(s'), B), Combination(g, c', gamma', s', H');
    if Query(g, B, H, pk, Y, gamma, c, s) == Query(g, B, H', pk, Y, gamma', c', s') {
      PeelSix(S2OS(Encode(B)), S2OS(Encode(H)), S2OS(pk), S2OS(Encode(gamma)), S2OS(Encode(u)), S2OS(Encode(v)),
              S2OS(Encode(H')), S2OS(Encode(gamma')), S2OS(Encode(u')), S2OS(Encode(v')));
      SameInGroup(g, B, H, H');
      SameInGroup(g, B, gamma, gamma');
      SameInGroup(g, B, u, u');
      SameInGroup(g, B, v, v');
    }
  }

  lemma SameInGroup(g: Group<Point>, B: Point, p: Point, q: Point)
    requires Ed25519(g, B) && p in g.carrier && q in g.carrier && S2OS(Encode(p)) == S2OS(Encode(q))
    ensures p == q
  {
    hide Ed25519, PrimeField, Canonical, Encode;
    Basics(g, B);
    InCarrier(g, B, p);
    InCarrier(g, B, q);
    SameOctets(p, q);
  }

  lemma PeelSix(a: seq<byte>, b: seq<byte>, c: seq<byte>, d: seq<byte>, e: seq<byte>, f: seq<byte>,
                b': seq<byte>, d': seq<byte>, e': seq<byte>, f': seq<byte>)
    requires |b| == |b'| && |d| == |d'| && |e| == |e'| && |f| == |f'|
    requires a + b + c + d + e + f == a + b' + c + d' + e' + f'
    ensures b == b' && d == d' && e == e' && f == f'
  {
    Peel(a + b + c + d + e, f, a + b' + c + d' + e', f');
    Peel(a + b + c + d, e, a + b' + c + d', e');
    Peel(a + b + c, d, a + b' + c, d');
    Peel(a + b, c, a + b', c);
    Peel(a, b, a, b');
  }

  /**
   Soundness of the verdict. If two proofs for one public key and message are accepted under hash functions that are
   asked the same and answer with c and c', whose difference is invertible modulo l, then both proofs hold one gamma,
   and their answers explain the key and gamma up to the cofactor: 8 Y = w (8 B) and 8 gamma = w' (8 H).
   */
  lemma AcceptedProofsGiveTheSecret(sha: Hash, sha': Hash, g: Group<Point>, B: Point, pk: seq<byte>, m: seq<byte>,
                                    pi: seq<byte>, pi': seq<byte>, d: nat, e: int)
    requires Ed25519(g, B) && Digests(sha, 32) && Digests(sha', 32)
    requires Verdict(sha, g, B, pk, pi, m) == Done(true) && Verdict(sha', g, B, pk, pi', m) == Done(true)
    requires AskedAlike(sha, sha', g, B, pk, m, pi, pi')
    requires var q := Asked(sha, g, B, pk, pi, m);
             d * (OS2IP(sha(q)[..16]) - OS2IP(sha'(q)[..16])) == 1 + e * L
    ensures Gamma(pi) == Gamma(pi') && Closed(g) && B in g.carrier
    ensures var Y, H, gamma := Key(pk).value, HashToPoint(sha, g, B, m, pk, 0).value, Gamma(pi).value;
            var s, s' := OS2IP(pi[49..81]), OS2IP(pi'[49..81]);
            && Y in g.carrier && H in g.carrier && gamma in g.carrier
            && HashToPoint(sha', g, B, m, pk, 0) == Some(H)
            && Times(g, 8, Y) == Times(g, d * (Recoded(s') - Recoded(s)), Times(g, 8, B))
            && Times(g, 8, gamma) == Times(g, d * (s' - s), Times(g, 8, H))
  {
    hide Ed25519, Closed, Digests, Gamma, Decode, Buffer, HashToPoint, Query, OS2IP, Verdict, Times, Recoded,
        Combination, Abelian;
    AcceptedIff(sha, g, B, pk, pi, m);
    AcceptedIff(sha', g, B, pk, pi', m);
    ReadablePoints(sha, g, B, pk, pi, m);
    ReadablePoints(sha', g, B, pk, pi', m);
    var Y, H, gamma := Key(pk).value, HashToPoint(sha, g, B, m, pk, 0).value, Gamma(pi).value;
    var H', gamma' := HashToPoint(sha', g, B, m, pk, 0).value, Gamma(pi').value;
    var c, s, c', s' := OS2IP(pi[33..49]), OS2IP(pi[49..81]), OS2IP(pi'[33..49]), OS2IP(pi'[49..81]);
    QueryIff(g, B, pk, Y, H, gamma, c, s, H', gamma', c', s');
    Basics(g, B);
    SpecialSoundness(g, B, H, Y, gamma, c, s, c', s', d, e);
  }

  /** Both proofs can be read, and the hash functions are asked the same for them. */
  ghost predicate AskedAlike(sha: Hash, sha': Hash, g: Group<Point>, B: Point, pk: seq<byte>, m: seq<byte>,
                             pi: seq<byte>, pi': seq<byte>)
    requires Ed25519(g, B)
  {
    && Readable(sha, g, B, pk, pi, m) && Readable(sha', g, B, pk, pi', m)
    && Asked(sha, g, B, pk, pi, m) == Asked(sha', g, B, pk, pi', m)
  }

  // ---------- which proofs can be read ----------

  /** The string of gamma's y, its sign bit taken from the first octet. */
  function SignedOctets(pi: seq<byte>): (r: seq<byte>)
    requires |pi| >= 33 && (pi[0] == 2 || pi[0] == 3)
    ensures |r| == 32
  {
    pi[1..32] + [128 * (pi[0] - 2) + pi[32] % 128]
  }

  /** A proof is readable for exactly one gamma or none; it fails or panics in exactly the other cases. */
  lemma GammaIff(pi: seq<byte>, p: Point)
    requires PrimeField()
    ensures Gamma(pi) == Done(p)
            <==> |pi| >= 81 && (pi[0] == 2 || pi[0] == 3) && Decodes(SignedOctets(pi), p)
    ensures Gamma(pi).Failed?
            <==> pi != [] && (pi[0] == 2 || pi[0] == 3 ==> |pi| >= 33 && forall q :: !Decodes(SignedOctets(pi), q))
    ensures Gamma(pi).Failed? ==> Gamma(pi).error == DecodeError
  {
    hide PrimeField, Decodes;
    if |pi| >= 33 && (pi[0] == 2 || pi[0] == 3) {
      assert Buffer(pi[1..33], pi[0] - 2) == SignedOctets(pi);
      if Decodes(SignedOctets(pi), p) {
        DecodeIs(SignedOctets(pi), p);
      }
    }
  }

  // ---------- when a proof is made ----------

  /**
   ECVRF_prove makes a proof exactly if some of 100 digests decodes, key generation succeeds and neither key is too
   short; it gives the error of key generation, or it panics, in exactly these other cases.
   */
  lemma AnswerCases(sha256: Hash, sha512: Hash, g: Group<Point>, B: Point, pk: seq<byte>, sk: seq<byte>, m: seq<byte>,
                    key: Option<(seq<byte>, seq<byte>)>)
    requires Ed25519(g, B) && Digests(sha256, 32) && Digests(sha512, 64)
    requires key.Some? ==> |key.value.0| >= 32 && |key.value.1| >= 32
    ensures var r := Answer(sha256, sha512, g, B, pk, sk, m, key);
            var hashes := |sk| >= 32 && exists i: nat :: i < 100 && DigestDecodes(sha256, m, pk, i);
            && (r.Done? <==> hashes && key.Some? && |pk| >= 32)
            && (r == Failed(KeyError) <==> hashes && key.None?)
            && (r == Panic <==> !hashes || (key.Some? && |pk| < 32))
  {
    hide DigestDecodes, Ed25519, HashToPoint, Proof, Secret;
    HashesIff(sha256, g, B, m, pk);
  }
}
