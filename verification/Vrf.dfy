/**
 The VRF of vrf/vrf_ed25519.go, on the point arithmetic of this project: hashing to the curve, proofs, their
 encoding and their verification. The hash functions are parameters, and so is the fresh key that the
 prover draws.
 */
module Vrf {
  import opened Options
  import opened Words
  import opened ByteStrings
  import opened Congruence
  import opened Division
  import opened FieldElement
  import opened FieldBytes
  import opened CurvePoints
  import opened CurveOps
  import opened Groups
  import opened PointArithmetic
  import opened PointEncoding
  import opened PointDecoding
  import opened DoubleScalar
  import opened BaseMultiple
  import opened VariableMultiple
  import opened Octets
  import opened VrfGroup

  datatype Failure = DecodeError | MalformedInput | KeyError

  datatype Outcome<T> = Done(value: T) | Failed(error: Failure) | Panic

  type Hash = seq<byte> -> seq<byte>

  ghost predicate Digests(sha: Hash, n: nat) {
    forall x :: |sha(x)| == n
  }

  // ---------- points as octet strings ----------

  /** A sign octet, 2 or 3, before the string. */
  function S2OS(s: seq<byte>): (r: seq<byte>)
    requires |s| >= 32
    ensures |r| == |s| + 1 && r[0] == s[31] / 128 + 2 && r[1..] == s
  {
    [s[31] / 128 + 2] + s
  }

  /** The 32-byte buffer that OS2ECP decodes: padded or cut, its sign bit replaced by a sign of 0 or 1. */
  function Buffer(os: seq<byte>, sign: byte): (r: seq<byte>)
    ensures |r| == 32 && forall i :: 0 <= i < 31 ==> r[i] == (if i < |os| then os[i] else 0)
    ensures r[31] % 128 == (if |os| > 31 then os[31] else 0) % 128
    ensures r[31] / 128 == (if sign == 0 || sign == 1 then sign else if |os| > 31 then os[31] / 128 else 0)
  {
    var b := if |os| >= 32 then os[..32] else os + Zeros(32 - |os|);
    if sign == 0 || sign == 1 then b[31 := 128 * sign + b[31] % 128] else b
  }

  lemma BufferKeepsSign(s: seq<byte>)
    requires |s| == 32
    ensures Buffer(s, s[31] / 128) == s
  {
    assert s[..32] == s;
    assert 128 * (s[31] / 128) + s[31] % 128 == s[31];
  }

  lemma DecodeMissing(s: seq<byte>)
    requires PrimeField() && |s| == 32 && !HasRoot(LeAt(s, 0, 32) % TWO255)
    ensures Decode(s) == None
  {
    hide PrimeField, OnCurve, LeAt, Cong, HasRoot;
    var y := LeAt(s, 0, 32) % TWO255;
    if p :| Decodes(s, p) {
      ResidueCong(y);
      CurveCong(p.x, p.y, y);
      RootIsFound(p.x, y);
    }
  }

  lemma DecodeInCarrier(g: Group<Point>, B: Point, s: seq<byte>)
    requires Ed25519(g, B)
    ensures Decode(s).Some? ==> Decode(s).value in g.carrier
  {
  }

  method OS2ECP(k: Package, os: seq<byte>, sign: byte, ghost g: Group<Point>, ghost B: Point)
    returns (ok: bool, p: Extended)
    requires Ed25519(g, B) && k.Ready(g, B)
    ensures fresh(p) && fresh(p.Repr())
    ensures ok <==> Decode(Buffer(os, sign)).Some?
    ensures ok ==> Decode(Buffer(os, sign)).value in g.carrier && Is(p, Decode(Buffer(os, sign)).value)
  {
    hide EdwardsGroup, Closed, PrimeField, Limbs, Decode, LeAt, HasRoot, Cong, Value, OnCurve, Times, Num, Den, Unit,
        Small, Affine;
    p := new Extended();
    var buf := new byte[32];
    forall i | 0 <= i < 32 {
      buf[i] := if i < |os| then os[i] else 0;
    }
    if sign == 0 || sign == 1 {
      buf[31] := 128 * sign + buf[31] % 128;
    }
    assert buf[..] == Buffer(os, sign);
    ok := FromBytes(p, buf, k.d, k.sqrtM1);
    DecodeInCarrier(g, B, buf[..]);
    if ok {
      ghost var x, y := Value(p.X), Value(p.Y);
      ghost var q := Point(x % P, y % P);
      ResidueOf(x);
      ResidueOf(y);
      ResidueCong(x);
      RootIsOnCurve(x, y);
      SquareOfOpposite(Den(y), x, q.x, Num(y));
      RootIsOnCurve(q.x, y);
      CurveCong(q.x, y, q.y);
      SameFromResidue(y, LeAt(buf[..], 0, 32) % TWO255);
      assert Decodes(buf[..], q);
      DecodeIs(buf[..], q);
      StandsCong(x, y, Value(p.Z), Value(p.T), x, y, q.x, q.y);
    } else {
      DecodeMissing(buf[..]);
    }
  }

  lemma ResidueOf(x: int)
    ensures Cong(x, x % P)
  {
    hide Cong;
    ResidueCong(x);
    CongSym(x % P, x);
  }

  method ECP2OS(p: Extended, ghost q: Point) returns (os: seq<byte>)
    requires PrimeField() && Is(p, q)
    ensures os == S2OS(Encode(q))
  {
    hide LeAt, Value, Encode, PrimeField, Fermat;
    UnitIsFermat(Value(p.Z));
    var s := new byte[32];
    ToBytes(p, s, q);
    EncodeIs(s[..], q);
    os := S2OS(s[..]);
  }

  method ECP2OSProj(p: Projective, ghost q: Point) returns (os: seq<byte>)
    requires PrimeField() && IsProjective(p, q)
    ensures os == S2OS(Encode(q))
  {
    hide LeAt, Value, Encode, PrimeField, Fermat;
    UnitIsFermat(Value(p.Z));
    var s := new byte[32];
    ProjectiveToBytes(p, s, q);
    EncodeIs(s[..], q);
    os := S2OS(s[..]);
  }

  /** The generator, as 1 B from the base table. */
  method G(k: Package, ghost g: Group<Point>, ghost B: Point) returns (e: Extended)
    requires Ed25519(g, B) && k.Ready(g, B)
    ensures fresh(e.Repr()) && Is(e, B)
  {
    hide Ed25519, EdwardsGroup, Abelian, Closed, Is, LeAt, BaseTable, PreComputedTable, Times, Limbs;
    Basics(g, B);
    e := new Extended();
    var s := OneAsBytes();
    TopByte(s[..]);
    TimesOne(g, B);
    GeScalarMultBase(e, s, k.base, k.multiples, g, B);
  }

  method OneAsBytes() returns (s: array<byte>)
    ensures fresh(s) && s.Length == 32 && LeAt(s[..], 0, 32) == 1
  {
    hide LeAt, Limbs, Small;
    var f := new int32[10];
    FeOne(f);
    s := new byte[32];
    SmallIsPrintable(f, 1);
    FeToBytes(s, f);
  }

  // ---------- hashing ----------

  /** The strings written one after the other. */
  function Concat(ps: seq<seq<byte>>): seq<byte> {
    if ps == [] then [] else Concat(ps[..|ps| - 1]) + ps[|ps| - 1]
  }

  function HashPoints(sha: Hash, ps: seq<seq<byte>>): nat
    requires |sha(Concat(ps))| == 32
  {
    OS2IP(sha(Concat(ps))[..16])
  }

  method ECVRF_hash_points(sha: Hash, ps: seq<seq<byte>>) returns (c: nat)
    requires Digests(sha, 32)
    ensures c == HashPoints(sha, ps) && c < Pow256(16)
    ensures c == OS2IP(sha(Concat(ps))) / Pow256(16)
  {
    hide Pow256, OS2IP;
    var written := [];
    for i := 0 to |ps|
      invariant written == Concat(ps[..i])
    {
      assert ps[..i + 1][..i] == ps[..i];
      written := written + ps[i];
    }
    assert ps[..|ps|] == ps;
    hide Concat;
    LeadingOctets(sha(written), 16);
    c := OS2IP(sha(written)[..16]);
  }

  /** The first half of the digest, as the quotient by 2^128. */
  lemma HashPointsValue(sha: Hash, ps: seq<seq<byte>>)
    requires Digests(sha, 32)
    ensures HashPoints(sha, ps) == OS2IP(sha(Concat(ps))) / Pow256(16) < Pow256(16)
  {
    hide Pow256, OS2IP, Concat;
    LeadingOctets(sha(Concat(ps)), 16);
  }

  lemma LeadingOctets(d: seq<byte>, n: nat)
    requires |d| == 2 * n
    ensures OS2IP(d[..n]) == OS2IP(d) / Pow256(n) < Pow256(n)
  {
    hide Pow256, OS2IP;
    assert d == d[..n] + d[n..];
    OS2IPConcat(d[..n], d[n..]);
    OS2IPRange(d[..n]);
    OS2IPRange(d[n..]);
    DivUnique(OS2IP(d), Pow256(n), OS2IP(d[..n]), OS2IP(d[n..]));
  }

  /** One string is hashed as it is. */
  lemma ConcatOne(p: seq<byte>)
    ensures Concat([p]) == p
  {
    assert [p][..0] == [];
  }

  /** And the strings of two lists follow each other in order. */
  lemma {:induction false} ConcatJoins(ps: seq<seq<byte>>, qs: seq<seq<byte>>)
    ensures Concat(ps + qs) == Concat(ps) + Concat(qs)
    decreases |qs|
  {
    if qs == [] {
      assert ps + qs == ps;
    } else {
      var n := |qs| - 1;
      ConcatJoins(ps, qs[..n]);
      assert (ps + qs)[..|ps| + n] == ps + qs[..n];
      assert Concat(ps + qs) == Concat(ps + qs[..n]) + qs[n];
      assert Concat(qs) == Concat(qs[..n]) + qs[n];
    }
  }

  /** The first of 100 digests that decodes to a point, times the cofactor. */
  ghost function HashToPoint(sha: Hash, g: Group<Point>, B: Point, m: seq<byte>, pk: seq<byte>,
                             i: nat): (r: Option<Point>)
    requires Ed25519(g, B)
    ensures r.Some? ==> r.value in g.carrier
    decreases 100 - i
  {
    if i >= 100 then None else
      DecodeInCarrier(g, B, sha(m + pk + I2OSP(i, 4)));
      match Decode(sha(m + pk + I2OSP(i, 4)))
      case Some(Q) => Some(Times(g, 8, Q))
      case None => HashToPoint(sha, g, B, m, pk, i + 1)
  }

  lemma PlainBuffer(s: seq<byte>)
    requires |s| == 32
    ensures Buffer(s, 3) == s
  {
  }

  /** Three doublings. */
  method ClearCofactor(p: Extended, ghost g: Group<Point>, ghost Q: Point) returns (r: Extended)
    requires EdwardsGroup(g) && Closed(g) && Q in g.carrier && Is(p, Q)
    ensures Is(r, Times(g, 8, Q))
  {
    hide EdwardsGroup, Abelian, Closed, Is, Times;
    GroupOf(g);
    TimesOne(g, Q);
    r := p;
    var j := 1;
    while j < 8
      invariant j == 1 || j == 2 || j == 4 || j == 8
      invariant Is(r, Times(g, j, Q))
      decreases 8 - j
    {
      r := GeDouble(r, g, Times(g, j, Q));
      TimesSum(g, j, j, Q);
      j := j * 2;
    }
  }

  /** False stands for the panic after 100 digests without a point. */
  method ECVRF_hash_to_curve(k: Package, sha: Hash, m: seq<byte>, pk: seq<byte>, ghost g: Group<Point>, ghost B: Point)
    returns (ok: bool, h: Extended)
    requires Ed25519(g, B) && k.Ready(g, B) && Digests(sha, 32)
    ensures ok <==> HashToPoint(sha, g, B, m, pk, 0).Some?
    ensures ok ==> Is(h, HashToPoint(sha, g, B, m, pk, 0).value)
  {
    hide Ed25519, EdwardsGroup, Closed, Is, Decode, Buffer, k.Ready, HashToPoint, Times, I2OSP;
    Basics(g, B);
    for i := 0 to 100
      invariant HashToPoint(sha, g, B, m, pk, 0) == HashToPoint(sha, g, B, m, pk, i)
    {
      var digest := sha(m + pk + I2OSP(i, 4));
      PlainBuffer(digest);
      HashToPointStep(sha, g, B, m, pk, i);
      ok, h := OS2ECP(k, digest, 3, g, B);
      if ok {
        h := ClearCofactor(h, g, Decode(digest).value);
        return;
      }
    }
    HashToPointEnds(sha, g, B, m, pk);
    ok := false;
    h := new Extended();
  }

  /** The hashed point is eight times a point. */
  lemma {:induction false} HashToPointIsMultiple(sha: Hash, g: Group<Point>, B: Point, m: seq<byte>, pk: seq<byte>,
                                                 i: nat)
    returns (Q: Point)
    requires Ed25519(g, B) && HashToPoint(sha, g, B, m, pk, i).Some?
    ensures Q in g.carrier && HashToPoint(sha, g, B, m, pk, i).value == Times(g, 8, Q)
    decreases 100 - i
  {
    hide Decode, Closed, EdwardsGroup, PrimeField, I2OSP, Times;
    HashToPointStep(sha, g, B, m, pk, i);
    var d := Decode(sha(m + pk + I2OSP(i, 4)));
    if d.Some? {
      Q := d.value;
    } else {
      Q := HashToPointIsMultiple(sha, g, B, m, pk, i + 1);
    }
  }

  lemma HashToPointStep(sha: Hash, g: Group<Point>, B: Point, m: seq<byte>, pk: seq<byte>, i: nat)
    requires Ed25519(g, B) && i < 100
    ensures var d := Decode(sha(m + pk + I2OSP(i, 4)));
            && (d.None? ==> HashToPoint(sha, g, B, m, pk, i) == HashToPoint(sha, g, B, m, pk, i + 1))
            && (d.Some? ==> d.value in g.carrier && HashToPoint(sha, g, B, m, pk, i) == Some(Times(g, 8, d.value)))
  {
    hide Decode, Closed, EdwardsGroup, PrimeField, I2OSP, Times;
    DecodeInCarrier(g, B, sha(m + pk + I2OSP(i, 4)));
  }

  lemma HashToPointEnds(sha: Hash, g: Group<Point>, B: Point, m: seq<byte>, pk: seq<byte>)
    requires Ed25519(g, B)
    ensures HashToPoint(sha, g, B, m, pk, 100) == None
  {
  }

  ghost predicate DigestDecodes(sha: Hash, m: seq<byte>, pk: seq<byte>, i: nat) {
    Decode(sha(m + pk + I2OSP(i, 4))).Some?
  }

  /** The hashed point comes from the first of the 100 digests that decodes. */
  lemma {:induction false} HashToPointIsFirst(sha: Hash, g: Group<Point>, B: Point, m: seq<byte>, pk: seq<byte>, i: nat,
                                              j: nat)
    requires Ed25519(g, B) && i <= j <= 100 && forall k: nat :: i <= k < j ==> !DigestDecodes(sha, m, pk, k)
    ensures j < 100 && DigestDecodes(sha, m, pk, j) ==>
              var Q := Decode(sha(m + pk + I2OSP(j, 4))).value;
              Q in g.carrier && HashToPoint(sha, g, B, m, pk, i) == Some(Times(g, 8, Q))
    ensures j == 100 ==> HashToPoint(sha, g, B, m, pk, i) == None
    decreases j - i
  {
    hide HashToPoint, Decode, Closed, EdwardsGroup, PrimeField, I2OSP, Times;
    if i < 100 {
      HashToPointStep(sha, g, B, m, pk, i);
    } else {
      HashToPointEnds(sha, g, B, m, pk);
    }
    if i < j {
      assert !DigestDecodes(sha, m, pk, i);
      HashToPointIsFirst(sha, g, B, m, pk, i + 1, j);
    }
  }

  lemma FirstDigest(sha: Hash, m: seq<byte>, pk: seq<byte>, i: nat) returns (j: nat)
    requires i < 100 && DigestDecodes(sha, m, pk, i)
    ensures j <= i && DigestDecodes(sha, m, pk, j) && forall k: nat :: k < j ==> !DigestDecodes(sha, m, pk, k)
  {
    hide DigestDecodes;
    j := 0;
    while !DigestDecodes(sha, m, pk, j)
      invariant j <= i && forall k: nat :: k < j ==> !DigestDecodes(sha, m, pk, k)
      decreases i - j
    {
      j := j + 1;
    }
  }

  lemma HashesIff(sha: Hash, g: Group<Point>, B: Point, m: seq<byte>, pk: seq<byte>)
    requires Ed25519(g, B)
    ensures HashToPoint(sha, g, B, m, pk, 0).Some? <==> exists i: nat :: i < 100 && DigestDecodes(sha, m, pk, i)
  {
    hide DigestDecodes, Ed25519, HashToPoint;
    if i: nat :| i < 100 && DigestDecodes(sha, m, pk, i) {
      var j := FirstDigest(sha, m, pk, i);
      HashToPointIsFirst(sha, g, B, m, pk, 0, j);
    } else {
      HashToPointIsFirst(sha, g, B, m, pk, 0, 100);
    }
  }

  lemma Basics(g: Group<Point>, B: Point)
    requires Ed25519(g, B)
    ensures EdwardsGroup(g) && Abelian(g) && Closed(g) && PrimeField() && B in g.carrier
  {
    hide Closed, PrimeField, Times;
  }
}
