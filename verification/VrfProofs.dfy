/** ECVRF_prove, ECVRF_decode_proof, ECVRF_verify and ECVRF_proof2hash of vrf/vrf_ed25519.go. */
module VrfProofs {
  import opened Options
  import opened Words
  import opened BitOps
  import opened ByteStrings
  import opened Division
  import opened FieldElement
  import opened FieldBytes
  import opened CurvePoints
  import opened CurveOps
  import opened Groups
  import opened PointArithmetic
  import opened PointEncoding
  import opened PointDecoding
  import opened DoubleScalar
  import opened VariableMultiple
  import opened ScalarField
  import opened Octets
  import opened VrfGroup
  import opened Vrf

  // ---------- secrets ----------

  /** The first half of the digest, with the three lowest bits cleared, the top bit cleared and the next one set. */
  function Clamp(digest: seq<byte>): (r: seq<byte>)
    requires |digest| == 64
    ensures |r| == 32
  {
    [digest[0] / 8 * 8] + digest[1..31] + [digest[31] % 64 + 64]
  }

  /** The secret scalar of a key. */
  ghost function Secret(sha512: Hash, sk: seq<byte>): (x: int)
    requires Digests(sha512, 64) && |sk| >= 32
    ensures x >= 0
  {
    var c := Clamp(sha512(sk[..32]));
    LeAtRange(c, 0, 32);
    LeAt(c, 0, 32)
  }

  /** A multiple of the cofactor with its highest bit in place 254. */
  lemma ClampedScalar(digest: seq<byte>)
    requires |digest| == 64
    ensures LeAt(Clamp(digest), 0, 32) % 8 == 0
    ensures TWO255 / 2 <= LeAt(Clamp(digest), 0, 32) < TWO255
  {
    hide LeAt, Pow256;
    var c := Clamp(digest);
    LowBits(c, digest[0] as int / 8);
    LastByte(c);
    LeAtRange(c, 0, 31);
    Pow256Of31();
  }

  /** With n the little-endian number of the first half: n modulo 2^254, rounded down to a multiple of 8, plus 2^254. */
  lemma ClampValue(digest: seq<byte>)
    requires |digest| == 64
    ensures LeAt(Clamp(digest), 0, 32) == LeAt(digest, 0, 32) % (TWO255 / 2) / 8 * 8 + TWO255 / 2
  {
    hide LeAt, Pow256;
    var c, m := Clamp(digest), LeAt(digest, 1, 30);
    MiddleBytes(digest);
    MiddleBytes(c);
    assert c[1..31] == digest[1..31];
    LeAtPrefix(c, digest, 1, 1, 30);
    ClampedNumber(digest[0] as int, m, digest[31] as int);
  }

  lemma MiddleBytes(s: seq<byte>)
    requires |s| >= 32
    ensures LeAt(s, 0, 32) == s[0] as int + 0x100 * LeAt(s, 1, 30) + TWO255 / 128 * s[31] as int
    ensures 0 <= LeAt(s, 1, 30) && 0x100 * LeAt(s, 1, 30) + 0x100 <= TWO255 / 128
  {
    hide LeAt, Pow256;
    LeAtSplit(s, 0, 31, 1);
    OneByte(s, 31);
    LeAtStep(s, 0, 30);
    LeAtRange(s, 1, 30);
    Pow256Of31();
    Pow256Up(30);
  }

  lemma ClampedNumber(low: int, m: int, high: int)
    requires 0 <= low < 0x100 && 0 <= high < 0x100 && 0 <= m && 0x100 * m + 0x100 <= TWO255 / 128
    ensures (low + 0x100 * m + TWO255 / 128 * high) % (TWO255 / 2) / 8 * 8 + TWO255 / 2
            == low / 8 * 8 + 0x100 * m + TWO255 / 128 * (high % 64 + 64)
  {
    var k, q, r := TWO255 / 1024, high / 64, high % 64;
    var n := low + 0x100 * m + 8 * (k * r);
    MulMono(k, r, 63);
    ShiftedBits(k, q, r);
    DivUnique(low + 0x100 * m + TWO255 / 128 * high, TWO255 / 2, q, n);
    DivUnique(n, 8, low / 8 + 0x20 * m + k * r, low % 8);
  }

  lemma ShiftedBits(k: int, q: int, r: int)
    ensures 8 * k * (64 * q + r) == 512 * k * q + 8 * (k * r)
    ensures 8 * k * (r + 64) == 8 * (k * r) + 512 * k
  {
  }

  lemma LowBits(c: seq<byte>, q: int)
    requires |c| >= 1 && c[0] as int == 8 * q
    ensures LeAt(c, 0, |c|) % 8 == 0
  {
    var rest := LeAt(c, 1, |c| - 1);
    hide LeAt;
    assert c[0] as int + 0x100 * rest == 8 * (q + 0x20 * rest);
  }

  /** False stands for the panic of slicing a key of fewer than 32 octets. */
  method expandSecret(sha512: Hash, sk: seq<byte>) returns (ok: bool, h: array<byte>)
    requires Digests(sha512, 64)
    ensures ok <==> |sk| >= 32
    ensures fresh(h) && h.Length == 32
    ensures ok ==> h[..] == Clamp(sha512(sk[..32])) && LeAt(h[..], 0, 32) == Secret(sha512, sk)
    ensures ok ==> LeAt(h[..], 0, 32) == LeAt(sha512(sk[..32]), 0, 32) % (TWO255 / 2) / 8 * 8 + TWO255 / 2
  {
    hide LeAt;
    if |sk| < 32 {
      ok, h := false, new byte[32];
      return;
    }
    ok := true;
    var digest := sha512(sk[..32]);
    digest := digest[0 := digest[0] / 8 * 8];
    digest := digest[31 := digest[31] % 128];
    digest := digest[31 := digest[31] % 64 + 64];
    h := new byte[32](i requires 0 <= i < 32 => digest[i]);
    assert h[..] == Clamp(sha512(sk[..32]));
    ClampValue(sha512(sk[..32]));
  }

  // ---------- proofs ----------

  /** The challenge: a hash of g, h, the public key, gamma and the two commitments. */
  ghost function Challenge(sha: Hash, B: Point, H: Point, pk: seq<byte>, gamma: Point, u: seq<byte>,
                           v: seq<byte>): (c: nat)
    requires Digests(sha, 32) && |pk| >= 32
    ensures c < Pow256(16)
  {
    var ps := [S2OS(Encode(B)), S2OS(Encode(H)), S2OS(pk), S2OS(Encode(gamma)), u, v];
    OS2IPRange(sha(Concat(ps))[..16]);
    HashPoints(sha, ps)
  }

  /** pi = gamma || I2OSP(c, N) || I2OSP(s, 2N) */
  function Assemble(r: seq<byte>, c: nat, s: nat): (pi: seq<byte>)
    ensures |pi| == |r| + 48
  {
    r + I2OSP(c, 16) + I2OSP(s, 32)
  }

  /** gamma, c and s as the 81 octets of a proof. */
  ghost function Octets81(gamma: Point, c: nat, s: nat): (pi: seq<byte>)
    ensures |pi| == 81
  {
    Assemble(S2OS(Encode(gamma)), c, s)
  }

  /** s = k - c x mod q, not negative (big.Int.Mod). */
  function Response(k: nat, c: nat, x: nat): (s: nat)
    ensures s < L
  {
    (k - c * x) % L
  }

  /** The proof for the secret x, with the nonce k whose public key is kp. */
  ghost function Proof(sha: Hash, g: Group<Point>, B: Point, H: Point, x: nat, k: nat, pk: seq<byte>,
                       kp: seq<byte>): seq<byte>
    requires Digests(sha, 32) && |pk| >= 32 && |kp| >= 32 && Closed(g) && H in g.carrier
  {
    var gamma := Times(g, x, H);
    var c := Challenge(sha, B, H, pk, gamma, S2OS(kp), S2OS(Encode(Times(g, k, H))));
    Octets81(gamma, c, Response(k, c, x))
  }

  lemma ProofIs(sha: Hash, g: Group<Point>, B: Point, H: Point, x: nat, k: nat, pk: seq<byte>, kp: seq<byte>,
                gamma: Point, c: nat)
    requires Digests(sha, 32) && |pk| >= 32 && |kp| >= 32 && Closed(g) && H in g.carrier
    requires gamma == Times(g, x, H) && c == Challenge(sha, B, H, pk, gamma, S2OS(kp), S2OS(Encode(Times(g, k, H))))
    ensures Proof(sha, g, B, H, x, k, pk, kp) == Assemble(S2OS(Encode(gamma)), c, Response(k, c, x))
  {
    hide Digests, Closed, Times, Challenge, S2OS, Encode, I2OSP, Response;
  }

  /** What ECVRF_prove answers; key is the pair that was drawn, if one was. */
  ghost function Answer(sha256: Hash, sha512: Hash, g: Group<Point>, B: Point, pk: seq<byte>, sk: seq<byte>,
                        m: seq<byte>,
                        key: Option<(seq<byte>, seq<byte>)>): Outcome<seq<byte>>
    requires Ed25519(g, B) && Digests(sha256, 32) && Digests(sha512, 64)
    requires key.Some? ==> |key.value.0| >= 32 && |key.value.1| >= 32
  {
    hide EdwardsGroup, PrimeField, HashToPoint, Proof, Secret;
    var H := HashToPoint(sha256, g, B, m, pk, 0);
    if |sk| < 32 || H.None? then Panic
    else if key.None? then Failed(KeyError)
    else if |pk| < 32 then Panic
    else Done(Proof(sha256, g, B, H.value, Secret(sha512, sk), Secret(sha512, key.value.1), pk, key.value.0))
  }

  method ECVRF_prove(t: Package, sha256: Hash, sha512: Hash, pk: seq<byte>, sk: seq<byte>, m: seq<byte>,
                     key: Option<(seq<byte>, seq<byte>)>, ghost g: Group<Point>, ghost B: Point)
    returns (r: Outcome<seq<byte>>)
    requires Ed25519(g, B) && t.Ready(g, B) && Digests(sha256, 32) && Digests(sha512, 64)
    requires key.Some? ==> |key.value.0| >= 32 && |key.value.1| >= 32
    ensures r == Answer(sha256, sha512, g, B, pk, sk, m, key)
  {
    hide Ed25519, EdwardsGroup, Closed, Is, Encode, t.Ready, HashToPoint, Times, I2OSP, Secret, Digests, LeAt, Concat,
        S2OS;
    Basics(g, B);
    var some, x := expandSecret(sha512, sk);
    if !some {
      return Panic;
    }
    var ok, h := ECVRF_hash_to_curve(t, sha256, m, pk, g, B);
    if !ok {
      return Panic;
    }
    if key.None? {
      return Failed(KeyError);
    }
    var kp, ks := key.value.0, key.value.1;
    var more, k := expandSecret(sha512, ks);
    if |pk| < 32 {
      return Panic;
    }
    var pi := Respond(t, sha256, pk, h, x, k, kp, g, B, HashToPoint(sha256, g, B, m, pk, 0).value);
    return Done(pi);
  }

  /** The rest of ECVRF_prove, once h, the secret x and the nonce k are there. */
  method Respond(t: Package, sha256: Hash, pk: seq<byte>, h: Extended, x: array<byte>, k: array<byte>, kp: seq<byte>,
                 ghost g: Group<Point>, ghost B: Point, ghost H: Point) returns (pi: seq<byte>)
    requires Ed25519(g, B) && t.Ready(g, B) && Digests(sha256, 32) && Closed(g) && H in g.carrier
    requires |pk| >= 32 && |kp| >= 32 && Is(h, H) && x.Length == 32 && k.Length == 32
    ensures LeAt(x[..], 0, 32) >= 0 && LeAt(k[..], 0, 32) >= 0
    ensures pi == Proof(sha256, g, B, H, LeAt(x[..], 0, 32), LeAt(k[..], 0, 32), pk, kp)
  {
    hide Ed25519, EdwardsGroup, Closed, Is, Encode, t.Ready, Times, I2OSP, Digests, LeAt, S2OS, Limbs, Challenge,
        Response, Proof, Assemble, Pow256;
    Basics(g, B);
    LeAtRange(x[..], 0, 32);
    LeAtRange(k[..], 0, 32);
    ghost var gamma := Times(g, LeAt(x[..], 0, 32), H);
    var r := EncodedMultiple(t, h, x, g, B, H);
    var v := EncodedMultiple(t, h, k, g, B, H);
    var c := ComputeChallenge(t, sha256, pk, h, r, S2OS(kp), v, g, B, H, gamma);
    var kn := F2IP(k);
    var xn := F2IP(x);
    var s := Response(kn, c, xn);
    pi := Assemble(r, c, s);
    ProofIs(sha256, g, B, H, xn, kn, pk, kp, gamma, c);
  }

  /** ECP2OS(GeScalarMult(h, a)) */
  method EncodedMultiple(t: Package, h: Extended, a: array<byte>, ghost g: Group<Point>, ghost B: Point, ghost H: Point)
    returns (os: seq<byte>)
    requires Ed25519(g, B) && t.Ready(g, B) && Closed(g) && H in g.carrier && Is(h, H) && a.Length == 32
    ensures os == S2OS(Encode(Times(g, LeAt(a[..], 0, 32), H)))
  {
    hide Ed25519, EdwardsGroup, Closed, Is, Encode, t.Ready, Times, LeAt, S2OS, Limbs;
    Basics(g, B);
    ConstantD2(t, g, B);
    var e := GeScalarMult(h, a, t.d2, g, H);
    os := ECP2OS(e, Times(g, LeAt(a[..], 0, 32), H));
  }

  /** The call of ECVRF_hash_points in both ECVRF_prove and ECVRF_verify. */
  method ComputeChallenge(t: Package, sha256: Hash, pk: seq<byte>, h: Extended, r: seq<byte>, u: seq<byte>,
                          v: seq<byte>,
                          ghost g: Group<Point>, ghost B: Point, ghost H: Point, ghost gamma: Point) returns (c: nat)
    requires Ed25519(g, B) && t.Ready(g, B) && Digests(sha256, 32)
    requires |pk| >= 32 && Is(h, H) && r == S2OS(Encode(gamma))
    ensures c == Challenge(sha256, B, H, pk, gamma, u, v)
  {
    hide Ed25519, EdwardsGroup, Closed, Is, Encode, t.Ready, S2OS, Concat;
    Basics(g, B);
    var base := G(t, g, B);
    var gs := ECP2OS(base, B);
    var hs := ECP2OS(h, H);
    c := ECVRF_hash_points(sha256, [gs, hs, S2OS(pk), r, u, v]);
  }

  lemma ConstantD2(t: Package, g: Group<Point>, B: Point)
    requires Closed(g) && B in g.carrier && t.Ready(g, B)
    ensures IsElement(t.d2) && Limbs(t.d2) == D2_LIMBS && |t.bi| == 8 && PreComputedTable(t.bi, t.oddMultiples, g, B)
  {
  }

  /** The hash that a proof stands for: the encoding of gamma. */
  function ECVRF_proof2hash(pi: seq<byte>): (r: seq<byte>)
    requires |pi| >= 33
    ensures |r| == 32
  {
    pi[1..33]
  }

  // ---------- verification ----------

  /** Where ECVRF_decode_proof reads c and s. */
  function ProofC(pi: seq<byte>): (c: nat)
    requires |pi| >= 81
    ensures c < Pow256(16)
  {
    OS2IPRange(pi[33..49]);
    OS2IP(pi[33..49])
  }

  function ProofS(pi: seq<byte>): nat
    requires |pi| >= 81
  {
    OS2IP(pi[49..81])
  }

  /** The gamma of a proof, or how decoding fails: the panics are indices past the end of the proof. */
  ghost function Gamma(pi: seq<byte>): (r: Outcome<Point>)
    ensures r.Done? ==> |pi| >= 81
  {
    if pi == [] then Panic
    else if pi[0] != 2 && pi[0] != 3 then Failed(DecodeError)
    else if |pi| < 33 then Panic
    else
      var p := Decode(Buffer(pi[1..33], pi[0] - 2));
      if p.None? then Failed(DecodeError) else if |pi| < 81 then Panic else Done(p.value)
  }

  /** n octets of pi from i on, last first, into the low bytes of a zeroed array. */
  method Swap(pi: seq<byte>, i: nat, n: nat) returns (c: array<byte>)
    requires i + n <= |pi| && n <= 32
    ensures fresh(c) && c.Length == 32
    ensures LeAt(c[..], 0, 32) == OS2IP(pi[i..i + n])
  {
    hide LeAt, OS2IP, Pow256;
    c := new byte[32](_ => 0);
    var j, at := n - 1, i;
    while j >= 0
      invariant -1 <= j < n && at == i + n - 1 - j
      invariant forall l :: j < l < n ==> c[l] == pi[i + n - 1 - l]
      invariant forall l :: n <= l < 32 ==> c[l] == 0
    {
      c[j] := pi[at];
      at := at + 1;
      j := j - 1;
    }
    SwappedValue(pi[i..i + n], c[..]);
  }

  lemma SwappedValue(os: seq<byte>, c: seq<byte>)
    requires |os| <= 32 && |c| == 32 && HoldsLow(c, os)
    ensures LeAt(c, 0, 32) == OS2IP(os)
  {
    hide LeAt, OS2IP, Pow256, HoldsLow;
    LowOctets(os, c);
    OS2IPRange(os);
    Pow256Mono(|os|, 32);
    DivUnique(OS2IP(os), Pow256(32), 0, OS2IP(os));
  }

  datatype Parts = Parts(r: Extended, c: array<byte>, s: array<byte>)

  ghost predicate PartsOf(d: Parts, pi: seq<byte>)
    requires |pi| >= 81 && Gamma(pi).Done?
    reads d.r.X, d.r.Y, d.r.Z, d.r.T, d.c, d.s
  {
    && Is(d.r, Gamma(pi).value)
    && d.c.Length == 32 && LeAt(d.c[..], 0, 32) == ProofC(pi)
    && d.s.Length == 32 && LeAt(d.s[..], 0, 32) == ProofS(pi)
  }

  method ECVRF_decode_proof(t: Package, pi: seq<byte>, ghost g: Group<Point>,
                            ghost B: Point) returns (d: Outcome<Parts>)
    requires Ed25519(g, B) && t.Ready(g, B)
    ensures d.Done? <==> Gamma(pi).Done?
    ensures d.Panic? <==> Gamma(pi).Panic?
    ensures d.Failed? <==> Gamma(pi).Failed?
    ensures d.Failed? ==> d.error == Gamma(pi).error
    ensures d.Done? ==> Gamma(pi).value in g.carrier && PartsOf(d.value, pi)
  {
    hide Ed25519, EdwardsGroup, Closed, Is, Decode, Buffer, t.Ready, LeAt, OS2IP;
    Basics(g, B);
    if |pi| < 1 {
      return Panic;
    }
    var sign := pi[0];
    if sign != 2 && sign != 3 {
      return Failed(DecodeError);
    }
    if |pi| < 33 {
      return Panic;
    }
    var ok, r := OS2ECP(t, pi[1..33], sign - 2, g, B);
    if !ok {
      return Failed(DecodeError);
    }
    if |pi| < 81 {
      return Panic;
    }
    var c := Swap(pi, 33, 16);
    var s := Swap(pi, 49, 32);
    return Done(Parts(r, c, s));
  }

  /** What ECVRF_verify answers. */
  ghost function Verdict(sha: Hash, g: Group<Point>, B: Point, pk: seq<byte>, pi: seq<byte>,
                         m: seq<byte>): Outcome<bool>
    requires Ed25519(g, B) && Digests(sha, 32)
  {
    hide Ed25519, Digests, Gamma, Decode, Buffer, HashToPoint, Checks, ProofC, ProofS;
    match Gamma(pi)
    case Panic => Panic
    case Failed(e) => Failed(e)
    case Done(gamma) =>
      if |pk| < 32 then Panic else
        var Y, H := Decode(Buffer(pk, pk[31] / 128)), HashToPoint(sha, g, B, m, pk, 0);
        if Y.None? then Failed(MalformedInput)
        else if H.None? then Panic
        else Done(Checks(sha, g, B, H.value, pk, Y.value, gamma, ProofC(pi), ProofS(pi)))
  }

  /** Whether c is the challenge for u = c Y + s B and v = c gamma + s H. */
  ghost predicate Checks(sha: Hash, g: Group<Point>, B: Point, H: Point, pk: seq<byte>, Y: Point, gamma: Point, c: nat,
                         s: nat)
    requires Ed25519(g, B) && Digests(sha, 32) && |pk| >= 32
  {
    H in g.carrier && Y in g.carrier && gamma in g.carrier &&
    var u := Combination(g, c, Y, Recoded(s), B);
    var v := Combination(g, c, gamma, s, H);
    Challenge(sha, B, H, pk, gamma, S2OS(Encode(u)), S2OS(Encode(v))) == c
  }

  method ECVRF_verify(t: Package, sha256: Hash, pk: seq<byte>, pi: seq<byte>, m: seq<byte>,
                      ghost g: Group<Point>, ghost B: Point) returns (r: Outcome<bool>)
    requires Ed25519(g, B) && t.Ready(g, B) && Digests(sha256, 32)
    ensures r == Verdict(sha256, g, B, pk, pi, m)
  {
    hide Ed25519, EdwardsGroup, Closed, Is, Decode, Buffer, t.Ready, LeAt, HashToPoint, Checks, Digests;
    hide Gamma, ProofC, ProofS, Pow256;
    Basics(g, B);
    var d := ECVRF_decode_proof(t, pi, g, B);
    if d.Panic? {
      return Panic;
    }
    if d.Failed? {
      return Failed(d.error);
    }
    if |pk| < 32 {
      return Panic;
    }
    var found, Y := OS2ECP(t, pk, pk[31] / 128, g, B);
    if !found {
      return Failed(MalformedInput);
    }
    var hashed, h := ECVRF_hash_to_curve(t, sha256, m, pk, g, B);
    if !hashed {
      return Panic;
    }
    var accept := Check(t, sha256, pk, h, Y, d.value.r, d.value.c, d.value.s, g, B,
                        HashToPoint(sha256, g, B, m, pk, 0).value, Decode(Buffer(pk, pk[31] / 128)).value,
                        Gamma(pi).value, ProofC(pi), ProofS(pi));
    return Done(accept);
  }

  lemma ChallengeIsExact(c: seq<byte>)
    requires |c| == 32 && LeAt(c, 0, 32) < Pow256(16)
    ensures Recoded(LeAt(c, 0, 32)) == LeAt(c, 0, 32)
  {
    hide LeAt, Pow256, Pow2, Recoded;
    ExactBelow(c);
    Pow256IsPow2(16);
    Pow2Adds(128, 127);
    MulMono(Pow2(128), 1, Pow2(127));
  }

  /** u, v and the comparison of the two challenges. */
  method Check(t: Package, sha256: Hash, pk: seq<byte>, h: Extended, e: Extended, r: Extended, c: array<byte>,
               s: array<byte>,
               ghost g: Group<Point>, ghost B: Point, ghost H: Point, ghost Y: Point, ghost gamma: Point,
                   ghost cn: nat, ghost sn: nat)
    returns (accept: bool)
    requires Ed25519(g, B) && t.Ready(g, B) && Digests(sha256, 32) && |pk| >= 32
    requires H in g.carrier && Y in g.carrier && gamma in g.carrier && Is(h, H) && Is(e, Y) && Is(r, gamma)
    requires c.Length == 32 && LeAt(c[..], 0, 32) == cn && s.Length == 32 && LeAt(s[..], 0, 32) == sn && cn < Pow256(16)
    ensures accept <==> Checks(sha256, g, B, H, pk, Y, gamma, cn, sn)
  {
    hide Ed25519, EdwardsGroup, Closed, Is, Encode, t.Ready, Combination, Digests, LeAt, S2OS, Challenge, Recoded,
        Pow256;
    Basics(g, B);
    ChallengeIsExact(c[..]);
    var us := CommitmentU(t, e, c, s, g, B, Y);
    var vs := CommitmentV(t, h, r, c, s, g, B, H, gamma);
    var rs := ECP2OS(r, gamma);
    var c2 := ComputeChallenge(t, sha256, pk, h, rs, us, vs, g, B, H, gamma);
    var c' := F2IP(c);
    accept := c2 == c';
  }

  /** u = c Y + s B */
  method CommitmentU(t: Package, e: Extended, c: array<byte>, s: array<byte>, ghost g: Group<Point>, ghost B: Point,
                     ghost Y: Point)
    returns (us: seq<byte>)
    requires Ed25519(g, B) && t.Ready(g, B) && Y in g.carrier && Is(e, Y) && c.Length == 32 && s.Length == 32
    ensures Closed(g) && B in g.carrier
    ensures us == S2OS(Encode(Combination(g, Recoded(LeAt(c[..], 0, 32)), Y, Recoded(LeAt(s[..], 0, 32)), B)))
  {
    hide Ed25519, EdwardsGroup, Closed, Is, IsProjective, Encode, t.Ready, Combination, LeAt, S2OS, Limbs;
    hide PreComputedTable, Recoded, Pow2;
    Basics(g, B);
    ConstantD2(t, g, B);
    var u := new Projective();
    GeDoubleScalarMultVartime(u, c, e, s, t.bi, t.d2, t.oddMultiples, g, Y, B);
    us := ECP2OSProj(u, Combination(g, Recoded(LeAt(c[..], 0, 32)), Y, Recoded(LeAt(s[..], 0, 32)), B));
  }

  /** v = c gamma + s h */
  method CommitmentV(t: Package, h: Extended, r: Extended, c: array<byte>, s: array<byte>,
                     ghost g: Group<Point>, ghost B: Point, ghost H: Point, ghost gamma: Point) returns (vs: seq<byte>)
    requires Ed25519(g, B) && t.Ready(g, B) && H in g.carrier && gamma in g.carrier && Is(h, H) && Is(r, gamma)
    requires c.Length == 32 && s.Length == 32
    ensures Closed(g)
    ensures vs == S2OS(Encode(Combination(g, LeAt(c[..], 0, 32), gamma, LeAt(s[..], 0, 32), H)))
  {
    hide Ed25519, EdwardsGroup, Closed, Is, Encode, t.Ready, Times, LeAt, S2OS, Limbs;
    Basics(g, B);
    ConstantD2(t, g, B);
    var v1 := GeScalarMult(r, c, t.d2, g, gamma);
    var v2 := GeScalarMult(h, s, t.d2, g, H);
    var v := GeAdd(v1, v2, t.d2, g, Times(g, LeAt(c[..], 0, 32), gamma), Times(g, LeAt(s[..], 0, 32), H));
    vs := ECP2OS(v, Combination(g, LeAt(c[..], 0, 32), gamma, LeAt(s[..], 0, 32), H));
  }
}
