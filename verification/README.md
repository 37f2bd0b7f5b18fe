# Verification of the Algorand demo

A Dafny model of the four parts of this repository where a mistake is hardest to see, with proofs over all
inputs, all histories of calls and all interleavings:

* **Ed25519 arithmetic** (`vrf/edwards25519/edwards25519.go`): field elements of ten limbs, scalars of 21-bit
  limbs, points in five representations, compression and decompression, signed-digit recodings and the three
  scalar multiplications. The modules `FieldElement`, `FieldMultiply`, `FieldBytes`, `FieldChains`,
  `CurvePoints`, `CurveOps`, `PointArithmetic`, `PointEncoding`, `PointDecoding`, `Recoding`, `DoubleScalar`,
  `BaseMultiple`, `ScalarField`, `ScalarProducts` and `ScalarBytes` follow it (sections 5.1.1 to 5.1.4 of
  RFC 8032).
* **The VRF** (`vrf/vrf_ed25519.go`): `Octets`, `VariableMultiple`, `VrfGroup`, `Vrf`, `VrfProofs`,
  `VrfCompleteness` and `VrfSoundness`. ECVRF_prove and ECVRF_verify run on the limb-level operations above, so
  completeness reaches from the limbs to the accepted proof, and soundness back from it.
* **Sortition** (`binomial.go`, `subUsers`): `Binomial`, `CachedBinomial` and `Sortition`.
* **BA\*** (`algorand.go`, the vote store of `peer.go`): `Votes`, `VoteCount`, `CountedVotes`, `WeightedSets`,
  `Agreement`, `AgreementInvariants`, `AgreementTheorems`, `AgreementValidity`, `AgreementDoubleVotes`,
  `AgreementGoodCase`, `AgreementProgram`, `AgreementTranscript` and `AgreementEndToEnd`; `VoteWeights` shows what the
  votes do not guarantee.

`dafny verify dfyconfig.toml` checks everything.

## How to read it

* Machine integers are newtypes (`Words`), so an operation that could leave its 32 or 64 bits does not verify.
  A right shift is floor division. Where the source relies on wrap-around (`FeToBytes` shifts limbs 4 and 9 out of
  a 32-bit word, `equal` subtracts below zero) the wrap-around is written out.
* Limb arrays, byte buffers and points are arrays and objects written in place, and their methods allow the
  aliasing that the source uses. `Small(f, n)` bounds the limbs by n times 1.01\*2^25 and 1.01\*2^24.
* A point object *stands for* an affine point. `Is(e, p)` says that it stands for the group element p with an
  invertible Z.
* What is taken for granted about the curve is in three predicates, which are hypotheses of the members that
  need them: `EdwardsGroup` (the Edwards law makes the points an abelian group whose denominators never vanish),
  `PrimeField` (Fermat's little theorem modulo p) and `Ed25519` (both, with all curve points in the group, group
  exponent 8 l and l B = 0). The tables of `const.go` are hypotheses too (`PreComputedTable`, `BaseTable`); its
  constants d, d2 and SqrtM1 are evaluated. FromBytes is sound without any of them.
* Hash functions, the fresh key of the prover, the outcome of counts and the coin are parameters. In `countVotes`
  a schedule says which votes arrive before each iterator step and when the timer has expired.
* In `Agreement` a node is a function from place and input to place, a run interleaves honest nodes and arbitrary
  votes of faulty ones over one set of sent votes, and a count may return any hash that has a quorum among them,
  or time out; a node that panics takes no further step. Its assumptions are stated where they are used: all nodes
  have one tip, each voter has one weight per step, `FaultyBelow` (faulty weight below the threshold in every step)
  and `OneQuorumAt` (honest + 2 faulty < 2 threshold in the step named). The integer thresholds are 6 and, in the
  FINAL step, 14.

## Where code and text differ

* The comments of FeMul and FeToBytes name narrower limb bounds than their callers pass; the wider ones are proved.
* A decompressed X has canonical limbs, which may be twice as large as those of a product; the bounds of all point
  operations allow for it.
* slide is exact if and only if the form of a has no 257th digit (`NafRest(a, 256) == 0`), so for every a below
  2^255. Above that it may lose one carry past index 255 and then stands for a - 2^256; 2^256 - 1 is such an a.
  GeDoubleScalarMultVartime is stated with what slide keeps.
* The documentation explains that splitting a stake gains nothing by a formula in which probabilities of the parts
  add up. Read literally it is a law for no two stakes and no p (`SumFormulaIsNoLaw`, and `SumFormulaAtZero` for
  the exact condition at k1 = k2 = 0); what holds is the convolution (`SplittingGainsNothing`).
* VerifyVRF drops the verdict of ECVRF_verify (`crypto.go:32-35`), so processMsg takes the number of votes from the
  message's VRF output alone (`SenderChoosesWeight`). One weight per voter and step is therefore an assumption, not a
  consequence. Its panics are not dropped: a signed vote on the tip with an empty proof ends the node
  (`CrashesOnShortProofs`).
* A FINAL count that times out yields the zero hash; honest blocks and the empty block are assumed not to hash to it.
* There is no step++ after the coin, so an honest node may vote twice, and differently, exactly in the odd steps from
  3 to 149 (`DoubleVoteSteps`); in step 151 the coin has no next iteration.
* The answer s of a proof is not range-checked, and slide loses a carry of some s from 2^255 on, so u and v may be
  computed with different multiples; `OneSecret` says when that matters.
* gossip skips the sender, so a node never receives its own vote. The run model lets a count use any sent votes;
  `GoodCase` makes progress on the votes of the others alone.

## Model

| member | source | states |
|---|---|---|
| FieldElement.FeZero | vrf/edwards25519/edwards25519.go:18-20 | the element has value 0 and all-zero limbs |
| FieldElement.FeOne | vrf/edwards25519/edwards25519.go:22-25 | the element has value 1 |
| FieldElement.FeAdd | vrf/edwards25519/edwards25519.go:27-38 | the limbs are the sums of the old limbs in 32 bits, wrapping around, for any aliasing; up to 63 units nothing wraps, the value is the sum of the old values and the bounds add up |
| FieldElement.FeSub | vrf/edwards25519/edwards25519.go:40-51 | the same for the difference |
| FieldElement.FeCopy | vrf/edwards25519/edwards25519.go:53-55 | the destination gets the source's limbs |
| FieldElement.FeCMove | vrf/edwards25519/edwards25519.go:57-73 | the masked exclusive-or leaves the limbs of g if b is 1 and those of f if b is 0 |
| FieldElement.FeNeg | vrf/edwards25519/edwards25519.go:240-256 | the value is negated within the same limb bounds, also in place |
| ByteStrings.Load3 | vrf/edwards25519/edwards25519.go:75-81 | or-ing the shifted bytes gives the little-endian number |
| ByteStrings.Load4 | vrf/edwards25519/edwards25519.go:83-90 | or-ing the shifted bytes gives the little-endian number |
| FieldMultiply.CarryChain | vrf/edwards25519/edwards25519.go:259-333 | the interleaved carries of FeCombine keep the value modulo p, stay inside 64 bits and leave limbs within 1.01\*2^25 and 1.01\*2^24 |
| FieldMultiply.FeCombine | vrf/edwards25519/edwards25519.go:258-345 | the stored 32-bit limbs stand for the given 64-bit sums modulo p and are within 1.01\*2^25 and 1.01\*2^24 |
| FieldMultiply.MulSumsAreRows | vrf/edwards25519/edwards25519.go:374-423 | for all limbs, the ten sums with their factors 2, 19 and 38 are the rows of the schoolbook product folded by Horner's rule in base 2^51 |
| FieldMultiply.FoldRowsValue | vrf/edwards25519/edwards25519.go:374-423 | for all limbs, those rows evaluate to the product of the two elements modulo p |
| FieldMultiply.FeMul | vrf/edwards25519/edwards25519.go:374-425 | for all limbs within 1.65\*2^26 and 1.65\*2^25, and any aliasing, the value is the product modulo p, no 32- or 64-bit operation overflows, and the result is within 1.01\*2^25 and 1.01\*2^24 |
| FieldMultiply.SquareSumsAreMulSums | vrf/edwards25519/edwards25519.go:427-470 | the sums of feSquare are those of FeMul for f\*f, limb by limb |
| FieldMultiply.feSquare | vrf/edwards25519/edwards25519.go:427-471 | returns exactly the sums of the product f\*f, each small enough to be doubled |
| FieldMultiply.FeSquare | vrf/edwards25519/edwards25519.go:473-485 | the value is the square modulo p, in place or not |
| FieldMultiply.FeSquare2 | vrf/edwards25519/edwards25519.go:487-503 | the value is twice the square modulo p, through the same carry chain |
| FieldBytes.FeFromBytes | vrf/edwards25519/edwards25519.go:92-105 | for every 32 bytes, the element stands for their little-endian value without its top bit, with product-sized limbs |
| FieldBytes.QuotientIsExact | vrf/edwards25519/edwards25519.go:107-129 | the rounding argument of the comment: the last carry of the chain is floor(h/p) for every h in range, of either sign |
| FieldBytes.Quotient | vrf/edwards25519/edwards25519.go:133-143 | the chain of shifts computes floor(h/p) for all limbs within 1.1\*2^26 and 1.1\*2^25 |
| FieldBytes.FloorChain | vrf/edwards25519/edwards25519.go:146-178 | the floor carries keep the value up to multiples of 2^255 and leave digits of 26 and 25 bits |
| FieldBytes.Canonicalize | vrf/edwards25519/edwards25519.go:146-183 | h is left as the canonical limbs of h modulo p, in place |
| FieldBytes.JoinAdds | vrf/edwards25519/edwards25519.go:188-216 | or-ing a shifted limb into a byte is addition modulo 256, even where the shift loses bits of the 32-bit word |
| FieldBytes.Pack | vrf/edwards25519/edwards25519.go:185-216 | the 32 bytes are the little-endian value of canonical limbs |
| FieldBytes.FeToBytes | vrf/edwards25519/edwards25519.go:107-217 | for all limbs within 1.1\*2^26 and 1.1\*2^25, the bytes are the number in [0, p) congruent to the element, and the argument itself becomes the canonical limbs of that number |
| FieldBytes.Reencode | vrf/edwards25519/edwards25519.go:92-217 | decoding and encoding gives the low 255 bits modulo p, and gives the string back if and only if its value is below p |
| FieldBytes.FeIsNegative | vrf/edwards25519/edwards25519.go:219-223 | the parity of the canonical value; the argument becomes canonical |
| FieldBytes.FeIsNonZero | vrf/edwards25519/edwards25519.go:225-236 | 0 if the element is zero modulo p and 1 otherwise; the argument becomes canonical |
| FieldChains.SquareTimes | vrf/edwards25519/edwards25519.go:510-513 | n squarings in place raise z^e to z^(e 2^n) |
| FieldChains.FeInvert | vrf/edwards25519/edwards25519.go:505-558 | z^(2^255-21) modulo p, through all loops and in-place temporaries, also when out is z |
| FieldChains.fePow22523 | vrf/edwards25519/edwards25519.go:560-619 | z^(2^252-3) modulo p, also in place |
| CurvePoints.CurveConstants | vrf/edwards25519/const.go:10-18 | the limbs of d and d2 stand for -121665/121666 and its double modulo p |
| PointEncoding.SqrtM1Squares | vrf/edwards25519/const.go:20-23 | the constant squares to -1 modulo p |
| CurvePoints.AddLaw | vrf/edwards25519/edwards25519.go:781-795 | for all coordinates, the four products of geAdd give the numerators and denominators of the affine Edwards sum, up to the common factor 2 Z1 Z2 |
| CurvePoints.DoubleLaw | vrf/edwards25519/edwards25519.go:656-668 | for all coordinates, the four squares of Double give the affine doubling fractions up to Z^2 |
| CurvePoints.ExtendLaw | vrf/edwards25519/edwards25519.go:762-773 | the products of ToExtended keep the affine point and give T Z = X Y |
| CurveOps.geAdd | vrf/edwards25519/edwards25519.go:781-795 | the result stands for the affine twisted-Edwards sum in cross-multiplied form, with limbs of at most three units, inside FeMul's range |
| CurveOps.geSub | vrf/edwards25519/edwards25519.go:797-811 | the same for the difference |
| CurveOps.geMixedAdd | vrf/edwards25519/edwards25519.go:813-826 | the same for a precomputed operand with Z = 1 |
| CurveOps.geMixedSub | vrf/edwards25519/edwards25519.go:828-841 | the same for subtracting a precomputed operand |
| CurveOps.Double | vrf/edwards25519/edwards25519.go:656-668 | the result stands for the affine double, inside FeMul's range |
| CurveOps.ToExtended | vrf/edwards25519/edwards25519.go:768-773 | a completed point becomes the extended point with the same affine coordinates, product-sized limbs and X Y = Z T |
| CurveOps.ToProjective | vrf/edwards25519/edwards25519.go:762-766 | the same without T |
| CurveOps.ToCached | vrf/edwards25519/edwards25519.go:693-698 | Y+X, Y-X, Z and 2dT of the same affine point |
| PointArithmetic.AddCached | vrf/edwards25519/edwards25519.go:781-795 | on representations of group elements a and b, the result represents a + b |
| PointArithmetic.SubCached | vrf/edwards25519/edwards25519.go:797-811 | the result represents a - b |
| PointArithmetic.AddMixed | vrf/edwards25519/edwards25519.go:813-826 | the result represents a + b for a precomputed b |
| PointArithmetic.SubMixed | vrf/edwards25519/edwards25519.go:828-841 | the result represents a - b for a precomputed b |
| PointArithmetic.DoublePoint | vrf/edwards25519/edwards25519.go:656-668 | the result represents a + a: on the curve the doubling fractions are those of the addition law |
| PointArithmetic.Extend | vrf/edwards25519/edwards25519.go:768-773 | the extended point represents the same group element and its limbs are small again, so operations chain without bound |
| PointArithmetic.Project | vrf/edwards25519/edwards25519.go:762-766 | the same for projective points |
| PointArithmetic.CachePoint | vrf/edwards25519/edwards25519.go:693-698 | the cached form represents the same group element |
| PointArithmetic.ZeroExtended | vrf/edwards25519/edwards25519.go:680-685 | represents the neutral element |
| PointArithmetic.ZeroProjective | vrf/edwards25519/edwards25519.go:650-654 | represents the neutral element |
| PointEncoding.RootCandidate | vrf/edwards25519/edwards25519.go:726-734 | x = u v^3 (u v^7)^((p-5)/8) modulo p, in place |
| PointEncoding.SolveForX | vrf/edwards25519/edwards25519.go:726-752 | false exactly when neither the candidate nor its multiple by sqrt(-1) solves v x^2 = u; otherwise x solves it |
| PointEncoding.FromBytes | vrf/edwards25519/edwards25519.go:716-760 | without assuming that p is prime: a returned point is on the curve, its Y is the low 255 bits modulo p, Z = 1, T = XY, and the parity of canonical x is the sign bit unless x = 0; false exactly when the square-root test fails |
| PointEncoding.ToBytes | vrf/edwards25519/edwards25519.go:706-714 | the bytes are y modulo p plus the parity of x in bit 255, for the affine point the coordinates stand for |
| PointEncoding.ProjectiveToBytes | vrf/edwards25519/edwards25519.go:670-678 | the same for projective points |
| PointDecoding.RootIsFound | vrf/edwards25519/edwards25519.go:716-753 | if p is prime, decompression succeeds for the y of every point of the curve |
| PointDecoding.RootIffOnCurve | vrf/edwards25519/edwards25519.go:716-753 | if p is prime, decompression succeeds if and only if some x puts y on the curve |
| VrfGroup.SamePoint | vrf/edwards25519/edwards25519.go:754-757 | if p is prime, a string decodes to at most one point: y and the parity of x determine it, also where x = 0 ignores the parity |
| VrfGroup.DecodeEncode | vrf/edwards25519/edwards25519.go:706-760 | decompressing a compressed point gives the point back |
| Recoding.Window | vrf/edwards25519/edwards25519.go:848-870 | one outer iteration of slide keeps the value, absorbs four digits and changes digits above only by a carry, which is lost only past index 255 |
| Recoding.slide | vrf/edwards25519/edwards25519.go:843-871 | for every 32-byte a, digit i is the i-th digit of the width-5 non-adjacent form of a, and the digits sum to a minus 2^256 times the carry past index 255, so to a itself if and only if that carry is 0 |
| Recoding.NafSparse | vrf/edwards25519/edwards25519.go:843-871 | nonzero digits are at least five places apart |
| Recoding.SlideIsExact | vrf/edwards25519/edwards25519.go:843-871 | the carry past index 255 is 0 or 1, is 0 for every a below 2^255, and is 1 for 2^256 - 1 |
| DoubleScalar.OddMultiples | vrf/edwards25519/edwards25519.go:887-895 | the table built in the loop holds A, 3A, ..., 15A |
| DoubleScalar.Interleave | vrf/edwards25519/edwards25519.go:897-925 | with the leading zeros skipped, Horner's rule over both digit strings gives their combination of A and B |
| DoubleScalar.GeDoubleScalarMultVartime | vrf/edwards25519/edwards25519.go:873-926 | for every pair of 32-byte scalars and every A of the group, the result represents a' A + b' B where a' and b' are what slide keeps of a and b; for a, b below 2^255 it represents a A + b B |
| BaseMultiple.Radix16 | vrf/edwards25519/edwards25519.go:969-985 | for a[31] <= 127, sixty-four digits in [-8, 8] with sum e[i] 16^i = a |
| BaseMultiple.Equal | vrf/edwards25519/edwards25519.go:928-934 | 1 if equal and 0 otherwise, for non-negative operands, with the unsigned wrap-around written out |
| BaseMultiple.Negative | vrf/edwards25519/edwards25519.go:936-939 | 1 for a negative number and 0 otherwise |
| BaseMultiple.Absolute | vrf/edwards25519/edwards25519.go:949-950 | the branch-free absolute value of a digit |
| BaseMultiple.PreComputedGroupElementCMove | vrf/edwards25519/edwards25519.go:941-945 | all three elements move if b is 1 and none otherwise |
| BaseMultiple.selectPoint | vrf/edwards25519/edwards25519.go:947-960 | the entry for b times the row's point, mirrored for negative b, chosen without branching |
| BaseMultiple.Braid | vrf/edwards25519/edwards25519.go:990-1011 | the even digits and 16 times the odd digits make up the whole digit string |
| BaseMultiple.Pass | vrf/edwards25519/edwards25519.go:987-994 | a pass over the digits of one parity adds their multiple of B |
| BaseMultiple.SixteenTimes | vrf/edwards25519/edwards25519.go:996-1005 | four doublings through projective and completed form multiply by 16 |
| BaseMultiple.GeScalarMultBase | vrf/edwards25519/edwards25519.go:963-1012 | h represents a B for every a with a[31] <= 127 |
| ScalarProducts.SumsValue | vrf/edwards25519/edwards25519.go:1063-1086 | for all limbs, the 23 sums of ScMulAdd evaluate to ab + c in base 2^21 |
| ScalarBytes.Load12 | vrf/edwards25519/edwards25519.go:1025-1060 | the twelve masked loads are the limbs of the 32-byte number, 21 bits each and 25 in the last |
| ScalarBytes.Load24Value | vrf/edwards25519/edwards25519.go:1456-1479 | the 24 masked loads are the limbs of the 64-byte number |
| ScalarBytes.RoundSums | vrf/edwards25519/edwards25519.go:1088-1157 | the rounding carries, even limbs first and odd limbs next, keep the value and bring all 24 limbs below 2^30 |
| ScalarField.FoldedValue | vrf/edwards25519/edwards25519.go:1481-1527 | folding six high limbs with the coefficients of l subtracts a multiple of l |
| ScalarField.FoldSix | vrf/edwards25519/edwards25519.go:1481-1527 | six folds in the source's order, without 64-bit overflow, give exactly the folded limbs |
| ScalarField.ReduceTwelve | vrf/edwards25519/edwards25519.go:1614-1737 | rounding carries, a fold, floor carries, a second fold and floor carries leave the residue modulo l: eleven 21-bit digits and a last one of at most 2^21 |
| ScalarField.ReduceAll | vrf/edwards25519/edwards25519.go:1481-1737 | 24 limbs below 2^30 in absolute value are reduced to the limbs of their value modulo l, without 64-bit overflow |
| ScalarBytes.Pack | vrf/edwards25519/edwards25519.go:1739-1770 | the 32 bytes are the value of the reduced limbs, also when the last limb is 2^21 |
| ScalarBytes.ScReduce | vrf/edwards25519/edwards25519.go:1449-1771 | for every 64-byte input, the output is the input modulo l, in [0, l) |
| ScalarBytes.ScMulAdd | vrf/edwards25519/edwards25519.go:1014-1447 | for every three 32-byte inputs, the output is (ab + c) modulo l, in [0, l), also when it overwrites an input |
| VariableMultiple.GeAdd | vrf/vrf_ed25519.go:284-306 | a fresh point that represents p + qe |
| VariableMultiple.GeDouble | vrf/vrf_ed25519.go:308-316 | a fresh point that represents 2 p |
| VariableMultiple.ExtendedGroupElementCMove | vrf/vrf_ed25519.go:318-323 | t represents u's point if b is 1 and its own otherwise |
| VariableMultiple.GeScalarMult | vrf/vrf_ed25519.go:325-336 | the result represents a h for every 256-bit a |
| Octets.I2OSPRoundTrip | vrf/vrf_ed25519.go:208-222 | OS2IP undoes I2OSP(b, n) if and only if b < 256^n; longer numbers lose their last octets |
| Octets.OS2IPInjective | vrf/vrf_ed25519.go:220-222 | strings of one length with the same value are equal |
| Octets.F2IP | vrf/vrf_ed25519.go:224-231 | the little-endian value of the 32 bytes |
| Octets.IP2F | vrf/vrf_ed25519.go:233-242 | the little-endian bytes of b modulo 2^256 |
| Vrf.BufferKeepsSign | vrf/vrf_ed25519.go:175-194 | the sign that S2OS writes, given back to OS2ECP, restores the 32 bytes |
| Vrf.OS2ECP | vrf/vrf_ed25519.go:175-186 | for every string and sign, a point if and only if the padded or cut buffer, its sign bit replaced by a sign of 0 or 1, decodes to a point of the group; then it represents that point |
| Vrf.ECP2OS | vrf/vrf_ed25519.go:196-200 | the sign octet and the compressed point |
| Vrf.ECP2OSProj | vrf/vrf_ed25519.go:202-206 | the same for projective points |
| Vrf.G | vrf/vrf_ed25519.go:244-252 | represents the generator B |
| Vrf.ECVRF_hash_points | vrf/vrf_ed25519.go:144-153 | the hash of the strings written one after the other, as a big-endian number, divided by 2^128: its first 16 octets |
| Vrf.HashPointsValue | vrf/vrf_ed25519.go:151-152 | the specification is that quotient, a number below 2^128 |
| Vrf.ConcatOne | vrf/vrf_ed25519.go:147-150 | one string is hashed as it is |
| Vrf.ConcatJoins | vrf/vrf_ed25519.go:147-150 | the strings of two lists are written in order, those of the second list after those of the first |
| Vrf.ECVRF_hash_to_curve | vrf/vrf_ed25519.go:155-173 | eight times the first of 100 digests that decodes to a point; none means the panic |
| Vrf.HashToPointIsMultiple | vrf/vrf_ed25519.go:165-168 | the hashed point is eight times a group element |
| Vrf.HashToPointIsFirst | vrf/vrf_ed25519.go:157-172 | it is eight times the point of the first digest, among those for the counters 0 to 99, that decodes; and there is none if no digest decodes |
| Vrf.HashesIff | vrf/vrf_ed25519.go:157-172 | hashing succeeds if and only if one of the 100 digests decodes |
| VrfProofs.ClampedScalar | vrf/vrf_ed25519.go:254-263 | a clamped secret is a multiple of 8 in [2^254, 2^255) |
| VrfProofs.ClampValue | vrf/vrf_ed25519.go:256-261 | with n the little-endian number of the first 32 octets of the digest, the scalar is n modulo 2^254, rounded down to a multiple of 8, plus 2^254 |
| VrfProofs.expandSecret | vrf/vrf_ed25519.go:254-263 | the clamped first half of the digest, and its value in terms of the number of that half; the panic exactly for keys of fewer than 32 octets |
| VrfProofs.ECVRF_prove | vrf/vrf_ed25519.go:58-83 | the answer that AnswerCases and AnswerIsAccepted describe: the octets of gamma = x H, the challenge c and s = k - c x mod q, the error when no key was drawn, or the panic for a short key or when hashing to the curve fails, in the order of the source |
| VrfSoundness.AnswerCases | vrf/vrf_ed25519.go:58-83 | for all inputs: a proof if and only if the secret key has at least 32 octets, one of 100 digests decodes, a key was drawn and the public key has at least 32 octets; the error if and only if the first two hold and no key was drawn; the panic in exactly the other cases |
| VrfProofs.ECVRF_decode_proof | vrf/vrf_ed25519.go:115-142 | for every string: the error exactly for a sign octet other than 2 and 3 or an undecodable point, the panic exactly for a string that ends too early, and otherwise gamma, c and s from octets 1-32, 33-48 and 49-80 |
| VrfProofs.ECVRF_verify | vrf/vrf_ed25519.go:89-113 | the verdict that AcceptedIff and VerdictCases describe, for all strings: each error, each panic, or whether the challenge for u = c P + s g and v = c gamma + s h equals c, where s is reduced by what slide loses from 2^255 on |
| VrfSoundness.AcceptedIff | vrf/vrf_ed25519.go:95-112 | a proof is accepted if and only if proof and key can be read, the message hashes to the curve, and octets 33 to 48 of the proof are the first 16 octets of the hash of the six strings for g, h, the key, gamma, u and v, written out one after the other; it is rejected if and only if all that holds but the octets differ |
| VrfSoundness.VerdictCases | vrf/vrf_ed25519.go:89-101 | the decode error exactly for an undecodable proof, the malformed-input error exactly for a readable proof and an undecodable key, a verdict exactly when everything can be read |
| VrfSoundness.GammaIff | vrf/vrf_ed25519.go:115-142 | a proof is read as gamma exactly if it has at least 81 octets, its first is 2 or 3, and octets 1 to 32, with the sign bit that this octet names, decode to gamma; the exact condition for the error |
| VrfSoundness.QueryIff | vrf/vrf_ed25519.go:108-110 | what is hashed determines h, gamma, u and v, and is determined by them |
| VrfSoundness.AcceptedProofsGiveTheSecret | vrf/vrf_ed25519.go:89-113 | if two proofs for one public key and message are accepted under hash functions that are asked the same and answer with c and c', whose difference is invertible modulo l, both hold one gamma, and 8 P = w (8 B) and 8 gamma = w' (8 h), with w and w' made of their answers |
| VrfCompleteness.ProofRoundTrip | vrf/vrf_ed25519.go:77-142 | a proof decodes to the gamma, c and s it was made of |
| VrfCompleteness.ResponseOpens | vrf/vrf_ed25519.go:73-75 | c (x A) + (k - c x mod l) A = k A in every abelian group where l A = 0 |
| VrfCompleteness.Completeness | vrf/vrf_ed25519.go:58-142 | for every message, key and nonce, the proof is accepted and its hash is the encoding of x H |
| VrfCompleteness.HashIsNonceFree | vrf/vrf_ed25519.go:85-87 | two proofs of one message under one key have the same hash whatever the nonces |
| VrfCompleteness.ProofOpens | vrf/vrf_ed25519.go:69-82 | a proof for x and k holds gamma = x h and an s below q with s + c x = k modulo q, and opens u to k B and v to k h |
| VrfCompleteness.AnswerIsAccepted | vrf/vrf_ed25519.go:58-113 | with keys from key generation, ECVRF_prove gives a proof if and only if one of the 100 digests decodes, and panics otherwise; the proof is accepted by ECVRF_verify, holds gamma = x h, and opens its commitments to the secret of the key that was drawn |
| VrfCompleteness.SpecialSoundness | vrf/vrf_ed25519.go:95-112 | two answers to one pair of commitments, as the code computes them, give 8 P = w (8 B) and 8 gamma = w' (8 h) for every key P and gamma of the group, where c - c' is invertible modulo l, with w from what slide keeps of the answers and w' from the answers |
| VrfCompleteness.SoundnessForPrimeOrderKeys | vrf/vrf_ed25519.go:95-112 | under the further hypothesis l P = 0, which the code does not check, P = w B |
| VrfCompleteness.OneSecret | vrf/vrf_ed25519.go:95-112 | w and w' are one secret modulo l if and only if slide loses the carry of both answers or of neither |
| Binomial.ChooseFormula | binomial.go:188-189 | the coefficient times k! (n-k)! is n! |
| Binomial.BinomialTheorem | binomial.go:174-196 | the terms 0..n sum to (a + b)^n |
| CachedBinomial.ProbabilitiesSumToOne | binomial.go:134-136 | the probabilities 0..n sum to exactly 1 |
| CachedBinomial.CdfBeyond | binomial.go:134-136 | so the hard-coded 1 from n on is the sum |
| CachedBinomial.CdfMonotone | binomial.go:130-173 | the distribution function is monotone within [0, 1] for 0 <= pn <= pd |
| CachedBinomial.SplittingGainsNothing | binomial.go:174-196 | the distribution for a stake m + n is the convolution of those for m and n |
| CachedBinomial.SumFormulaAtZero | binomial.go:174-196 | for all stakes and p, the documented formula B(k1+k2; w1+w2, p) = B(k1; w1, p) + B(k2; w2, p) holds at k1 = k2 = 0 if and only if p = 1 and both stakes are positive |
| CachedBinomial.SumFormulaIsNoLaw | binomial.go:174-196 | for no two stakes and no p does the documented formula hold for all k1 and k2 |
| CachedBinomial.FractionIsProb | binomial.go:180-192 | the integer fraction that Prob builds is the binomial probability |
| CachedBinomial.RegularBinomial.Exp | binomial.go:91-128 | x^y for every natural y, for any split 1 <= ly < y in place of the square root, keeping the caches correct and their old entries |
| CachedBinomial.RegularBinomial.resDenom | binomial.go:202-209 | pd^N, cached |
| CachedBinomial.RegularBinomial.Prob | binomial.go:175-196 | the binomial probability, whatever is cached; entries are only added and new ones are new objects |
| CachedBinomial.RegularBinomial.Collect | binomial.go:152-170 | adding the missing probabilities in any order of arrival gives the plain sum |
| CachedBinomial.RegularBinomial.CDF | binomial.go:130-173 | the sum of the probabilities 0..j for every j and every history of calls; no number that was cached before is changed |
| Sortition.subUsers | algorand.go:586-618 | for every expected number, the first j with CDF(j) <= vrf/2^256 < CDF(j+1) and 0 if there is none; where it is at most the total, the number of k in 1..weight with CDF(k) <= vrf/2^256, and 0 for every vrf from 2^256 on |
| Sortition.SearchFinds | algorand.go:599-615 | the search of the loop finds that number, from any start up to it |
| Sortition.SearchIsFirst | algorand.go:599-615 | for every expected number, the search gives the first j from its start on whose interval holds the draw, and 0 if none up to the weight does |
| Sortition.PassedIsPrefix | algorand.go:599-611 | the interval test of the loop singles out that number |
| Sortition.SelectedMonotone | algorand.go:586-618 | a larger draw selects at least as many sub-users |
| Sortition.SelectedBelowWeight | algorand.go:599-615 | at most weight - 1 for weight >= 1 |
| Sortition.SelectedIntervals | algorand.go:599-611 | j >= 1 is selected exactly on [CDF(j), CDF(j+1)), of length Prob(j+1), and 0 exactly on [0, CDF(1)), of length Prob(0) + Prob(1) |
| Sortition.DrawInUnit | algorand.go:594-596 | a draw is below 1 exactly for outputs below 2^256 |
| Votes.VoteKeyInjective | peer.go:191-196 | votes of different rounds or steps never share a key |
| Votes.Iterator.next | peer.go:227-234 | the next element if it has arrived; otherwise the iterator stays |
| Votes.Peer.handle | peer.go:113-129 | the vote is appended to the list of its own round and step and no other list changes; list objects stay |
| Votes.Peer.voteIterator | peer.go:134-148 | an iterator at the start of the live list of the key, which later votes extend; no contents change |
| VoteCount.processMsg | algorand.go:529-544 | no votes for a bad signature or another tip; otherwise ECVRF_verify runs under the node's own key, its verdict is dropped, and the votes are what subUsers gives for the VRF output, with the message's hash; the panic exactly where the public key is cut short or ECVRF_verify panics |
| VoteCount.CrashesOnShortProofs | algorand.go:345-352 | with a decodable own key and a hash to the curve, the panics of signed votes on the tip are exactly the proofs that end too early, the empty one among them |
| VoteWeights.SenderChoosesWeight | algorand.go:345-352 | for every expectedNum <= total <= 2^127, two versions of a vote that differ only in VRF output and proof are both processed and differ in weight, for some outputs and proofs, if and only if the weight of a node is at least 2 and expectedNum at least 1 |
| VoteCount.TallyIsWeight | algorand.go:511-518 | where each voter has one weight, the tally of a hash is the weight of the voters whose first valid vote is for it |
| VoteCount.SupportersDisjoint | algorand.go:513-518 | no voter is counted for two hashes |
| VoteCount.countVotes | algorand.go:496-526 | the hash at the first message where its tally reaches the threshold; on timeout, all of the list was read and no hash had reached it after any prefix; a panic exactly when a message that was read is one on which processMsg panics; for any votes that arrive between iterator steps |
| CountedVotes.TallyIsDrawn | algorand.go:511-518 | the tally of a hash is the sum of the sub-users drawn by the messages for it that are signed, on the tip and select somebody, without those whose voter has an earlier such message |
| CountedVotes.CountedAreGenuine | algorand.go:496-544 | behind a hash that countVotes returns there are read messages, signed, on the node's tip and for this hash, from different voters, whose draws select sub-users that sum to the threshold; on a timeout such messages draw less for every hash |
| CountedVotes.ForgedVotesAreIgnored | algorand.go:530-538 | an unsigned message, or one off the tip, changes the tally of no hash, wherever it arrives |
| AgreementTheorems.CountedIsQuorum | algorand.go:496-526 | a returned hash has a quorum among all sent votes, whichever of them arrived |
| Agreement.NodeTerminates | algorand.go:386-493 | every own step of a node brings it closer to its end: at most 500 steps until it returns or hangs |
| Agreement.ShapeKept | algorand.go:440-493 | the step variable keeps its parity and bounds at each place of binaryBA |
| AgreementProgram.Participant.committeeVote | algorand.go:354-384 | only called where the step machine sends exactly this vote, which goes out if sortition gives the node sub-users in the step |
| AgreementProgram.Participant.reduction | algorand.go:415-437 | follows the step machine call by call and returns its reduction output; ReductionVotes says what it sends |
| AgreementProgram.Participant.binaryBA | algorand.go:440-493 | follows the step machine call by call; returns its r, or hangs after exactly 75 iterations; never more than 75; IterationPassed, FirstEnds and SecondEnds say what it sends |
| AgreementProgram.Participant.BA | algorand.go:386-412 | follows the step machine call by call; final exactly when the FINAL count gives the result's hash; fails on a result whose block has not arrived, and hangs exactly when binaryBA does |
| AgreementTranscript.ReductionVotes | algorand.go:415-437 | for all counts: reduction votes for the block in REDUCTION_ONE and for the hash counted there, or the empty hash on a timeout, in REDUCTION_TWO, and returns the hash counted in REDUCTION_TWO or the empty hash |
| AgreementTranscript.IterationPassed | algorand.go:450-487 | for all counts and coins, an iteration that does not decide votes, in this order, for its first hash, for the hash counted in its first step or on a timeout the reduction output, and for the hash counted in its second step or on a timeout the empty hash; the next iteration starts with the hash counted in the coin step or on a timeout the empty hash for coin 1 and the reduction output for coin 0, without a new step number |
| AgreementTranscript.FirstEnds | algorand.go:455-463 | a non-empty hash counted in the first step s of an iteration is voted for in the steps s + 1, s + 2 and s + 3, and in FINAL exactly in the first iteration, and is the result |
| AgreementTranscript.SecondEnds | algorand.go:470-475 | the empty hash counted in the second step s is voted for in the steps s + 1, s + 2 and s + 3, and is the result |
| AgreementTranscript.CountsInOrder | algorand.go:450-482 | each count of an iteration is that of the step just voted in, and the last count of BA is that of FINAL |
| AgreementTranscript.ReductionCounts | algorand.go:421-432 | the two counts of the reduction are those of REDUCTION_ONE and REDUCTION_TWO |
| AgreementTranscript.ResultFromCounts | algorand.go:386-493 | what a call of BA has returned and the whole sequence of votes it has sent, in terms of its counts and coins alone: it hangs if and only if none of 75 iterations decides; otherwise the result is the hash decided on first, FINAL if and only if the FINAL count gives it |
| AgreementInvariants.VotesOnce | algorand.go:450-487 | a node about to vote has not voted in that step, unless it starts an iteration in the step of its last coin, which is odd and from 3 to 149 |
| AgreementInvariants.BasicNext | algorand.go:386-493 | every step of every node keeps: which votes an honest node may have sent at each place, and one vote per step outside the shared ones |
| AgreementInvariants.HonestBehind | algorand.go:517-523 | with faulty weight below the threshold, every quorum contains an honest vote |
| AgreementInvariants.SameQuorum | algorand.go:517-523 | with honest + 2 faulty < 2 threshold, two quorums of a step with single votes are for one hash |
| AgreementInvariants.BackedNext | algorand.go:415-493 | every step of every node keeps: hashes held or voted for after the reduction are empty or have a quorum in REDUCTION_TWO, and results have a quorum in their last step |
| AgreementTheorems.RunIsBacked | algorand.go:386-493 | both families of invariants hold in every state of every run |
| AgreementTheorems.DoubleVotesAreShared | algorand.go:478-487 | over every run, an honest node votes for two hashes only in an odd step from 3 to 149 |
| AgreementDoubleVotes.DoubleVoteHappens | algorand.go:478-487 | for each such step and every two hashes, one of them the empty one, a run that keeps all assumptions on weights has an honest node vote for both |
| AgreementDoubleVotes.DoubleVoteSteps | algorand.go:450-487 | an honest node can vote for two hashes in a step if and only if the step is odd and from 3 to 149 |
| AgreementTheorems.HonestVoteSteps | parameter.go:37-41 | over every run, honest votes stay in 1..153 and 1001..1003 and never meet the step of proposals |
| AgreementValidity.SecondVoteIsPopular | algorand.go:421-431 | over every run, an honest vote in REDUCTION_TWO is for the empty hash or for one with a quorum in REDUCTION_ONE |
| AgreementValidity.ReductionNarrows | algorand.go:415-437 | with honest + 2 faulty < 2 threshold in REDUCTION_ONE, all honest votes in REDUCTION_TWO over a run are for one h or the empty hash; with faulty weight below the threshold, so are all honest reduction outputs |
| AgreementValidity.ReducedIsKept | algorand.go:450-469 | over every run with faulty weight below the threshold, if every honest reduction output is h, every honest vote in the steps 1 and 2 is for h, whatever times out |
| AgreementTheorems.AtMostTwoValues | algorand.go:415-493 | over a whole run there is one h such that every honest reduction output, every honest binaryBA or FINAL vote and every result is h or the empty hash |
| AgreementTheorems.FinalNeedsFinisher | algorand.go:455-463 | behind every FINAL result there is an honest node that left binaryBA in step 1 with that hash |
| AgreementTheorems.FinalAgreement | algorand.go:386-412 | any two FINAL results of a run, by any honest nodes at any times, carry the same non-empty hash |
| AgreementTheorems.FinalIsTheOnlyResult | algorand.go:386-493 | if moreover the weight outside the honest step-1 finishers on h is below the threshold in every later step, no honest node returns anything but h |
| AgreementGoodCase.GoodPrompt | algorand.go:386-493 | in a run without timeouts where all honest nodes, whatever their blocks, count h in REDUCTION_ONE, every step keeps every honest node on the way to a FINAL result for h, one place further of twelve |
| AgreementGoodCase.GoodCase | algorand.go:386-493 | in such a run a node that has ended has the FINAL result h; and until all honest nodes have it, some honest node can go on without a timeout on the votes of the others, if these reach each threshold, and those with block h that of REDUCTION_ONE |
| AgreementGoodCase.TimelyIsPrompt | algorand.go:415-431 | without timeouts all honest nodes count h in REDUCTION_ONE if all have the block h; or if enough have it to reach the threshold without the node that counts, and honest + 2 faulty < 2 threshold there |
| AgreementGoodCase.GoodCaseOfFavoured | algorand.go:386-493 | so in both cases, without timeouts, every honest node that has ended has the FINAL result h, and until all have it some node can go on |
| AgreementGoodCase.TwelveSteps | algorand.go:386-493 | in such a run an honest node has the FINAL result h after exactly twelve steps of its own |
| AgreementEndToEnd.CountIsPossible | algorand.go:496-526 | what countVotes returns, a hash or a timeout, is a possible input of the node in the run |
| AgreementEndToEnd.NodeIsProgram | algorand.go:386-493 | every honest node of every run is, on some inputs, where the program of BA is, and has sent what the program has sent |
| AgreementEndToEnd.FinalResultsAgree | algorand.go:386-412 | two calls of BA by honest participants of a run, at any times, that both return FINAL return the same non-empty hash |
| AgreementEndToEnd.ResultsAreTwo | algorand.go:386-493 | all results of BA over a run are one h or the empty hash |

## Left out

- Blocks, proposals, priorities, seeds, Blockchain and getByRound: storage and lookup around the protocol.
- The contents of blocks: a block is its hash, and whether it has arrived is a parameter of BA.
- processForkResolve, resolveFork and quitting a hung binaryBA: one BA run per round is modelled.
- commonCoin: an arbitrary bit, and the panics of the messages it processes.
- EvilVoteEmpty, EvilVoteNothing and EvilBlockProposal: covered as faulty nodes, which may send anything.
- gossip, halfGossip, JSON, timers, sleeps, metrics, logging and main: delivery and time are free choices.
- Data races inside handle and inside the goroutines of CDF: each call is one atomic step; the order of arrival is free.
- ApproxBinomial and parallelTrevels: floating-point e, and unused code.
- SHA-256, SHA-512, Ed25519 signing and key generation: parameters, with the digest length and the form of a public key as hypotheses; whether a signature verifies is a field of the vote.
- Associativity of the Edwards law, primality of p, the order of B and the contents of the tables in const.go: hypotheses.
- PointEncoding.FromBytes: the copy of the twisted root into tmp2, which nothing reads, is omitted.
- BaseMultiple.GeScalarMultBase: nothing is said for a[31] > 127, which the source's comment excludes.
- CachedBinomial.RegularBinomial.Exp: exponents are natural numbers; the source passes them as floating-point numbers.
- CachedBinomial.RegularBinomial.Prob: k outside 0..N is excluded, where the source's recursion on a negative exponent does not end.
- Slices whose capacity exceeds their length: slicing past the length is taken to panic, as indexing does.
- Sortition.subUsers: a total of zero is excluded, on which the source divides by zero; weights are natural numbers; the source casts them to 64-bit signed integers.
