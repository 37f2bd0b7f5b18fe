/**
 Where the hashes come from that honest nodes vote for: in the second reduction step from the first one, and in the
 first two steps of binaryBA from the reduction.
 */
module AgreementValidity {
  import opened Options
  import opened Votes
  import opened Agreement
  import opened AgreementInvariants
  import opened AgreementTheorems

  // ---------- the second reduction step ----------

  /** The empty hash, or one that the first reduction step made popular. */
  ghost predicate Popular(w: World, sent: set<Vote>, x: Hash) {
    x == w.k.empty || Quorum(w, sent, REDUCTION_ONE, x)
  }

  lemma PopularStays(w: World, sent: set<Vote>, sent': set<Vote>, x: Hash)
    requires sent <= sent' && Popular(w, sent, x)
    ensures Popular(w, sent', x)
  {
    hide Quorum;
    if x != w.k.empty {
      QuorumStays(w, sent, sent', REDUCTION_ONE, x);
    }
  }

  ghost predicate LocalReduced(w: World, sent: set<Vote>, l: Local) {
    l.pc.VoteTwo? || l.pc.CountTwo? ==> Popular(w, sent, l.r)
  }

  ghost predicate OnlyPopular(w: World, s: State) {
    forall v :: v in s.sent && v.node in w.honest && v.step == REDUCTION_TWO ==> Popular(w, s.sent, v.hash)
  }

  ghost predicate Reduced(w: World, s: State)
    requires Sane(w, s)
  {
    (forall n :: n in w.honest ==> LocalReduced(w, s.sent, s.locals[n])) && OnlyPopular(w, s)
  }

  lemma StepReduced(w: World, sent: set<Vote>, l: Local, i: Input)
    requires Active(l) && LocalReduced(w, sent, l) && Possible(w, sent, l, i)
    ensures LocalReduced(w, sent, Step(w.k, l, i))
  {
    hide Quorum;
  }

  lemma SendsReduced(w: World, sent: set<Vote>, n: Node, l: Local, v: Vote)
    requires Shape(l) && LocalReduced(w, sent, l) && v in VoteSet(w, n, l) && v.step == REDUCTION_TWO
    ensures Popular(w, sent, v.hash)
  {
    hide Popular;
  }

  lemma ReducedGrows(w: World, s: State, s': State)
    requires Sane(w, s) && Reduced(w, s) && s.sent <= s'.sent
    ensures forall n :: n in w.honest ==> LocalReduced(w, s'.sent, s.locals[n])
    ensures forall v :: v in s.sent && v.node in w.honest && v.step == REDUCTION_TWO ==> Popular(w, s'.sent, v.hash)
  {
    hide Popular, Shape;
    forall n | n in w.honest ensures LocalReduced(w, s'.sent, s.locals[n]) {
      if s.locals[n].pc.VoteTwo? || s.locals[n].pc.CountTwo? {
        assert LocalReduced(w, s.sent, s.locals[n]);
        PopularStays(w, s.sent, s'.sent, s.locals[n].r);
      }
    }
    forall v | v in s.sent && v.node in w.honest && v.step == REDUCTION_TWO ensures Popular(w, s'.sent, v.hash) {
      PopularStays(w, s.sent, s'.sent, v.hash);
    }
  }

  lemma ReducedHonest(w: World, s: State, s': State, n: Node, i: Input)
    requires Sane(w, s) && Sane(w, s') && Reduced(w, s) && HonestStep(w, s, s', n, i)
    ensures Reduced(w, s')
  {
    StepReduced(w, s.sent, s.locals[n], i);
    assert Shape(s.locals[n]);
    hide Popular, Shape, Step, Possible, VoteSet;
    ReducedGrows(w, s, s');
    var l' := s'.locals[n];
    if l'.pc.VoteTwo? || l'.pc.CountTwo? {
      PopularStays(w, s.sent, s'.sent, l'.r);
    }
    forall v | v in s'.sent && v !in s.sent && v.step == REDUCTION_TWO ensures Popular(w, s'.sent, v.hash) {
      SendsReduced(w, s.sent, n, s.locals[n], v);
      PopularStays(w, s.sent, s'.sent, v.hash);
    }
  }

  lemma ReducedNext(w: World, s: State, s': State)
    requires Sane(w, s) && Sane(w, s') && Reduced(w, s) && Next(w, s, s')
    ensures Reduced(w, s')
  {
    hide HonestStep;
    if FaultyStep(w, s, s') {
      hide Popular, Shape;
      ReducedGrows(w, s, s');
    } else {
      hide Sane, Reduced;
      var n, i :| HonestStep(w, s, s', n, i);
      ReducedHonest(w, s, s', n, i);
    }
  }

  /** Over every run, an honest vote in REDUCTION_TWO is for the empty hash or one with a quorum in REDUCTION_ONE. */
  lemma {:induction false} SecondVoteIsPopular(w: World, run: seq<State>, i: nat)
    requires Run(w, run) && i < |run|
    ensures Basic(w, run[i]) && Reduced(w, run[i])
  {
    RunIsBasic(w, run, i);
    hide Next, Recorded, Single, Reduced;
    if i == 0 {
      hide Sane;
      StartsReduced(w, run[0]);
    } else {
      SecondVoteIsPopular(w, run, i - 1);
      hide Init, Sane;
      ReducedNext(w, run[i - 1], run[i]);
    }
  }

  lemma StartsReduced(w: World, s: State)
    requires Init(w, s) && Sane(w, s)
    ensures Reduced(w, s)
  {
  }

  /** All honest votes in REDUCTION_TWO, and all honest outputs of the reduction, are h or empty. */
  ghost predicate Narrowed(w: World, s: State, h: Hash) {
    && (forall v :: v in s.sent && v.node in w.honest && v.step == REDUCTION_TWO ==> v.hash in {h, w.k.empty})
    && (FaultyBelow(w) ==>
          forall n :: n in w.honest && n in s.locals && InBinary(s.locals[n]) ==> s.locals[n].hash in {h, w.k.empty})
  }

  lemma PopularIsOne(w: World, s: State) returns (h: Hash)
    requires Sane(w, s) && Single(w, s) && OneQuorumAt(w, REDUCTION_ONE)
    ensures forall x :: Popular(w, s.sent, x) ==> x in {h, w.k.empty}
  {
    hide Quorum, Shape, OneQuorumAt;
    h := w.k.empty;
    if x :| Quorum(w, s.sent, REDUCTION_ONE, x) {
      h := x;
      forall y | Popular(w, s.sent, y) ensures y in {h, w.k.empty} {
        if y != w.k.empty {
          SameQuorum(w, s, REDUCTION_ONE, x, y);
        }
      }
    }
  }

  lemma OutputIsPopular(w: World, s: State, n: Node)
    requires Basic(w, s) && Backed(w, s) && Reduced(w, s) && FaultyBelow(w)
    requires n in w.honest && InBinary(s.locals[n])
    ensures Popular(w, s.sent, s.locals[n].hash)
  {
    hide Quorum, FaultyBelow, Recorded, Single, Shape, LocalReduced, Popular, Justified, VoteBacked;
    var x := s.locals[n].hash;
    assert LocalBacked(w, s.sent, s.locals[n]);
    if x == w.k.empty {
      EmptyIsPopular(w, s.sent);
    } else {
      var v := HonestBehind(w, s, REDUCTION_TWO, x);
    }
  }

  lemma EmptyIsPopular(w: World, sent: set<Vote>)
    ensures Popular(w, sent, w.k.empty)
  {
  }

  /**
   If honest + 2 faulty < 2 threshold in the first reduction step, the second one is between one h and the empty hash
   over the whole run; and so are the outputs of the reduction, if the faulty weight is below the threshold.
   */
  lemma ReductionNarrows(w: World, run: seq<State>) returns (h: Hash)
    requires Run(w, run) && OneQuorumAt(w, REDUCTION_ONE)
    ensures forall i :: 0 <= i < |run| ==> Narrowed(w, run[i], h)
  {
    var last := |run| - 1;
    hide Init, Next, FaultyBelow, OneQuorumAt, Recorded, Backed, Shape, Popular, Single;
    SecondVoteIsPopular(w, run, last);
    h := PopularIsOne(w, run[last]);
    forall i | 0 <= i < |run| ensures Narrowed(w, run[i], h) {
      SecondVoteIsPopular(w, run, i);
      SentGrows(w, run, i, last);
      forall v | v in run[i].sent && v.node in w.honest && v.step == REDUCTION_TWO ensures v.hash in {h, w.k.empty} {
        PopularStays(w, run[i].sent, run[last].sent, v.hash);
      }
      if FaultyBelow(w) {
        RunIsBacked(w, run, i);
        forall n | n in w.honest && n in run[i].locals && InBinary(run[i].locals[n])
          ensures run[i].locals[n].hash in {h, w.k.empty}
        {
          OutputIsPopular(w, run[i], n);
          PopularStays(w, run[i].sent, run[last].sent, run[i].locals[n].hash);
        }
      }
    }
  }

  // ---------- the first two steps of binaryBA ----------

  /** Every honest node that has left the reduction left it with h. */
  ghost predicate ReducedTo(w: World, s: State, h: Hash) {
    forall n :: n in w.honest && n in s.locals && InBinary(s.locals[n]) ==> s.locals[n].hash == h
  }

  lemma OutputStays(k: Hashes, l: Local, i: Input)
    requires Active(l) && InBinary(l)
    ensures InBinary(Step(k, l, i)) && Step(k, l, i).hash == l.hash
  {
  }

  lemma ReducedBefore(w: World, s: State, s': State, h: Hash)
    requires Next(w, s, s') && ReducedTo(w, s', h)
    ensures ReducedTo(w, s, h)
  {
    hide InBinary, Step, VoteSet, Possible;
    if !FaultyStep(w, s, s') {
      var m, i :| HonestStep(w, s, s', m, i);
      forall n | n in w.honest && n in s.locals && InBinary(s.locals[n]) ensures s.locals[n].hash == h {
        if n == m {
          OutputStays(w.k, s.locals[n], i);
        }
        assert n in s'.locals && InBinary(s'.locals[n]);
      }
    }
  }

  /** A node votes for h in the first two steps. */
  predicate Keeps(l: Local, h: Hash) {
    && ((l.pc == VoteIn(First) || l.pc == CountIn(First)) && l.step == 1 ==> l.r == h)
    && ((l.pc == VoteIn(Second) || l.pc == CountIn(Second)) && l.step == 2 ==> l.r == h)
    && (l.pc.Ahead? && l.step == 1 ==> l.r == h)
  }

  lemma StepKeeps(k: Hashes, l: Local, i: Input, h: Hash)
    requires Active(l) && Shape(l) && Keeps(l, h)
    requires InBinary(Step(k, l, i)) ==> Step(k, l, i).hash == h
    requires Counts(l) == Some(1) && i.counted.Some? ==> i.counted.value == h
    ensures Keeps(Step(k, l, i), h)
  {
  }

  lemma SendsKept(l: Local, h: Hash)
    requires Shape(l) && Keeps(l, h) && Sends(l).Some? && (Sends(l).value.0 == 1 || Sends(l).value.0 == 2)
    ensures Sends(l).value.1 == h
  {
  }

  /** All honest votes in steps 1 and 2 are for h. */
  ghost predicate VotesKept(w: World, s: State, h: Hash) {
    forall v :: v in s.sent && v.node in w.honest && (v.step == 1 || v.step == 2) ==> v.hash == h
  }

  ghost predicate AllKeep(w: World, s: State, h: Hash) {
    (forall n :: n in w.honest && n in s.locals ==> Keeps(s.locals[n], h)) && VotesKept(w, s, h)
  }

  lemma KeptHonest(w: World, s: State, s': State, n: Node, i: Input, h: Hash)
    requires Sane(w, s) && Sane(w, s') && AllKeep(w, s, h) && ReducedTo(w, s', h) && FaultyBelow(w)
    requires HonestStep(w, s, s', n, i)
    ensures AllKeep(w, s', h)
  {
    hide Quorum, FaultyBelow, Keeps, Step, Sends, Counts, InBinary, Shape;
    var l := s.locals[n];
    assert Shape(l) && Keeps(l, h);
    if Counts(l) == Some(1) && i.counted.Some? {
      var v := HonestBehind(w, s, 1, i.counted.value);
    }
    assert s'.locals[n] == Step(w.k, l, i);
    StepKeeps(w.k, l, i, h);
    forall v | v in s'.sent && v !in s.sent && (v.step == 1 || v.step == 2) ensures v.hash == h {
      SendsKept(l, h);
    }
  }

  lemma KeptNext(w: World, s: State, s': State, h: Hash)
    requires Basic(w, s) && Basic(w, s') && AllKeep(w, s, h) && ReducedTo(w, s', h) && FaultyBelow(w) && Next(w, s, s')
    ensures AllKeep(w, s', h)
  {
    hide HonestStep, FaultyBelow, ReducedTo, Keeps, Recorded, Single;
    if FaultyStep(w, s, s') {
      hide Shape;
    } else {
      hide Sane, AllKeep;
      var n, i :| HonestStep(w, s, s', n, i);
      KeptHonest(w, s, s', n, i, h);
    }
  }

  /**
   If every honest node leaves the reduction with h, every honest vote in the steps 1 and 2 of binaryBA is for h,
   whatever times out and whatever the faulty nodes send.
   */
  lemma {:induction false} ReducedIsKept(w: World, run: seq<State>, i: nat, h: Hash)
    requires Run(w, run) && FaultyBelow(w) && i < |run| && ReducedTo(w, run[i], h)
    ensures Basic(w, run[i]) && AllKeep(w, run[i], h)
  {
    hide Run, FaultyBelow, ReducedTo, Next, AllKeep, Basic, Init;
    RunStep(w, run, i);
    RunIsBasic(w, run, i);
    if i == 0 {
      StartsKept(w, run[0], h);
    } else {
      ReducedBefore(w, run[i - 1], run[i], h);
      ReducedIsKept(w, run, i - 1, h);
      KeptNext(w, run[i - 1], run[i], h);
    }
  }

  lemma RunStep(w: World, run: seq<State>, i: nat)
    requires Run(w, run) && i < |run|
    ensures i == 0 ==> Init(w, run[0])
    ensures i > 0 ==> Next(w, run[i - 1], run[i])
  {
    hide Next, Init;
  }

  lemma StartsKept(w: World, s: State, h: Hash)
    requires Init(w, s)
    ensures AllKeep(w, s, h)
  {
  }
}
