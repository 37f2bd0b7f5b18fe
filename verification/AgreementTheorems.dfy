/** Agreement of BA* over every run. */
module AgreementTheorems {
  import opened Votes
  import opened VoteCount
  import opened WeightedSets
  import opened Agreement
  import opened AgreementInvariants

  // ---------- every reachable state ----------

  lemma {:induction false} RunIsBasic(w: World, run: seq<State>, i: nat)
    requires Run(w, run) && i < |run|
    ensures Basic(w, run[i])
  {
    hide Basic, Next, Init;
    if i == 0 {
      BasicInit(w, run[0]);
    } else {
      RunIsBasic(w, run, i - 1);
      BasicNext(w, run[i - 1], run[i]);
    }
  }

  lemma {:induction false} RunIsBacked(w: World, run: seq<State>, i: nat)
    requires Run(w, run) && i < |run| && FaultyBelow(w)
    ensures Basic(w, run[i]) && Backed(w, run[i])
  {
    hide Basic, Next, Init, Backed, FaultyBelow, Sane, Recorded, Single;
    if i == 0 {
      BackedInit(w, run[0]);
    } else {
      RunIsBacked(w, run, i - 1);
      BackedNext(w, run[i - 1], run[i]);
    }
  }

  lemma NextGrows(w: World, s: State, s': State)
    requires Next(w, s, s')
    ensures s.sent <= s'.sent
  {
    hide Possible, Step, VoteSet;
  }

  lemma {:induction false} SentGrows(w: World, run: seq<State>, i: nat, j: nat)
    requires Run(w, run) && i <= j < |run|
    ensures run[i].sent <= run[j].sent
  {
    hide Next, Init;
    if i < j {
      SentGrows(w, run, i, j - 1);
      NextGrows(w, run[j - 1], run[j]);
    }
  }

  /** An honest node votes twice only in a step that a coin and the next iteration share: odd, from 3 to 149. */
  lemma DoubleVotesAreShared(w: World, run: seq<State>, i: nat, v: Vote, v': Vote)
    requires Run(w, run) && i < |run| && v in run[i].sent && v' in run[i].sent
    requires v.node in w.honest && v.node == v'.node && v.step == v'.step && v.hash != v'.hash
    ensures 3 <= v.step <= 149 && v.step % 2 == 1
  {
    RunIsBasic(w, run, i);
  }

  /** Honest votes go to the steps 1..153 and to the two reduction steps and FINAL, never to 1000. */
  lemma HonestVoteSteps(w: World, run: seq<State>, i: nat, v: Vote)
    requires Run(w, run) && i < |run| && v in run[i].sent && v.node in w.honest
    ensures 1 <= v.step <= 153 || REDUCTION_ONE <= v.step <= FINAL
  {
    RunIsBasic(w, run, i);
    assert Shape(run[i].locals[v.node]) && MayHaveSent(run[i].locals[v.node], v.step, v.hash);
  }

  // ---------- two values at most ----------

  /** Every hash that honest nodes hold or vote for after the reduction is h or the empty hash. */
  ghost predicate OnlyTwo(w: World, s: State, h: Hash) {
    && (forall n :: n in w.honest && n in s.locals && InBinary(s.locals[n]) ==>
                      s.locals[n].hash in {h, w.k.empty} && s.locals[n].r in {h, w.k.empty})
    && (forall v :: v in s.sent && v.node in w.honest && !Reduction(v.step) ==> v.hash in {h, w.k.empty})
  }

  /** The hash that the second reduction step made popular, if there is one by now. */
  lemma PopularHash(w: World, s: State) returns (h: Hash)
    requires Sane(w, s) && Single(w, s) && OneQuorumAt(w, REDUCTION_TWO)
    ensures forall x :: Supported(w, s.sent, x) ==> x in {h, w.k.empty}
  {
    hide Quorum, Shape, OneQuorumAt;
    if x :| Quorum(w, s.sent, REDUCTION_TWO, x) {
      h := x;
      forall y | Supported(w, s.sent, y) ensures y in {h, w.k.empty} {
        if y != w.k.empty {
          SameQuorum(w, s, REDUCTION_TWO, x, y);
        }
      }
    } else {
      h := w.k.empty;
    }
  }

  lemma SupportedMeansTwo(w: World, s: State, later: set<Vote>, h: Hash)
    requires Sane(w, s) && Backed(w, s) && s.sent <= later
    requires forall x :: Supported(w, later, x) ==> x in {h, w.k.empty}
    ensures OnlyTwo(w, s, h)
  {
    hide Supported, Shape, Justified;
    forall n | n in w.honest && n in s.locals && InBinary(s.locals[n])
      ensures s.locals[n].hash in {h, w.k.empty} && s.locals[n].r in {h, w.k.empty}
    {
      assert LocalBacked(w, s.sent, s.locals[n]);
      SupportStays(w, s.sent, later, s.locals[n].hash);
      SupportStays(w, s.sent, later, s.locals[n].r);
    }
    forall v | v in s.sent && v.node in w.honest && !Reduction(v.step) ensures v.hash in {h, w.k.empty} {
      assert VoteBacked(w, s.sent, v);
      SupportStays(w, s.sent, later, v.hash);
    }
  }

  /**
   If honest + 2 faulty < 2 threshold in the second reduction step and the faulty weight is below the threshold in
   every step, a whole run knows one h besides the empty hash.
   */
  lemma AtMostTwoValues(w: World, run: seq<State>) returns (h: Hash)
    requires Run(w, run) && FaultyBelow(w) && OneQuorumAt(w, REDUCTION_TWO)
    ensures forall i :: 0 <= i < |run| ==> OnlyTwo(w, run[i], h)
  {
    hide Init, Next, FaultyBelow, OneQuorumAt, Sane, Recorded, Single, Backed, OnlyTwo, Supported;
    var last := |run| - 1;
    RunIsBacked(w, run, last);
    h := PopularHash(w, run[last]);
    forall i | 0 <= i < |run| ensures OnlyTwo(w, run[i], h) {
      RunIsBacked(w, run, i);
      SentGrows(w, run, i, last);
      SupportedMeansTwo(w, run[i], run[last].sent, h);
    }
  }

  // ---------- final agreement ----------

  ghost predicate FinalOn(w: World, s: State, n: Node, h: Hash) {
    n in w.honest && n in s.locals && s.locals[n].pc == Done(true) && s.locals[n].r == h
  }

  /** n left binaryBA in step 1 with h. */
  ghost predicate Finished(w: World, s: State, n: Node, h: Hash) {
    n in w.honest && n in s.locals && Returned(s.locals[n]) && s.locals[n].step == 1 && s.locals[n].r == h
  }

  /** Behind a final result there is an honest node that finished in step 1. */
  lemma FinalNeedsFinisher(w: World, s: State, n: Node, h: Hash) returns (m: Node)
    requires Basic(w, s) && Backed(w, s) && FaultyBelow(w) && FinalOn(w, s, n, h)
    ensures Finished(w, s, m, h) && Quorum(w, s.sent, 1, h) && h != w.k.empty
  {
    hide Quorum, FaultyBelow, Supported;
    assert Justified(w, s.sent, s.locals[n]);
    var v := HonestBehind(w, s, FINAL, h);
    m := v.node;
    assert MayHaveSent(s.locals[m], FINAL, h) && Shape(s.locals[m]);
    assert Justified(w, s.sent, s.locals[m]);
  }

  /** Any two FINAL results, by any nodes at any times of a run, are for the same hash, and not the empty one. */
  lemma FinalAgreement(w: World, run: seq<State>, i: nat, j: nat, n: Node, m: Node, x: Hash, y: Hash)
    requires Run(w, run) && FaultyBelow(w) && OneQuorumAt(w, 1) && i <= j < |run|
    requires FinalOn(w, run[i], n, x) && FinalOn(w, run[j], m, y)
    ensures x == y && x != w.k.empty
  {
    hide Init, Next, FaultyBelow, OneQuorumAt, Sane, Recorded, Single, Backed, Quorum, FinalOn, Finished;
    RunIsBacked(w, run, i);
    RunIsBacked(w, run, j);
    var a := FinalNeedsFinisher(w, run[i], n, x);
    var b := FinalNeedsFinisher(w, run[j], m, y);
    SentGrows(w, run, i, j);
    QuorumStays(w, run[i].sent, run[j].sent, 1, x);
    SameQuorum(w, run[j], 1, x, y);
  }

  ghost function Finishers(w: World, s: State, h: Hash): set<Node> {
    set n | n in w.honest && Finished(w, s, n, h)
  }

  /** Outside the nodes that finished with h in step 1, every later step of binaryBA is below the threshold. */
  ghost predicate RestIsLight(w: World, s: State, h: Hash) {
    forall step {:trigger w.weight(step)} :: 2 <= step <= MAXSTEPS ==>
      Weigh((w.honest + w.faulty) - Finishers(w, s, h), w.weight(step)) < Threshold(step)
  }

  /** After step 1 the finishers vote for h only. */
  lemma OthersVote(w: World, s: State, h: Hash, step: int, x: Hash)
    requires Basic(w, s) && 2 <= step <= MAXSTEPS && x != h
    ensures Voters(s.sent, step, x) <= (w.honest + w.faulty) - Finishers(w, s, h)
  {
    forall m | m in Voters(s.sent, step, x) ensures m in w.honest + w.faulty && m !in Finishers(w, s, h) {
      var v :| v in s.sent && v.step == step && v.hash == x && v.node == m;
      if m in w.honest {
        assert MayHaveSent(s.locals[m], step, x) && Shape(s.locals[m]);
      }
    }
  }

  lemma LaterQuorum(w: World, s: State, h: Hash, step: int, x: Hash)
    requires Basic(w, s) && RestIsLight(w, s, h) && 2 <= step <= MAXSTEPS && Quorum(w, s.sent, step, x)
    ensures x == h
  {
    hide Basic, Finishers, Threshold;
    if x != h {
      OthersVote(w, s, h, step, x);
      var rest := (w.honest + w.faulty) - Finishers(w, s, h);
      WeighSubset(Voters(s.sent, step, x), rest, w.weight(step));
    }
  }

  /** Once a node finished in step 1 with h and the rest is light, no honest node returns anything but h. */
  lemma OnlyResult(w: World, s: State, m: Node, h: Hash, n: Node)
    requires Basic(w, s) && Backed(w, s) && OneQuorumAt(w, 1) && Finished(w, s, m, h) && RestIsLight(w, s, h)
    requires n in w.honest && Returned(s.locals[n])
    ensures s.locals[n].r == h
  {
    hide Quorum, OneQuorumAt, RestIsLight, Supported;
    var l := s.locals[n];
    assert Justified(w, s.sent, l) && Justified(w, s.sent, s.locals[m]);
    assert Shape(l);
    if l.step == 1 {
      SameQuorum(w, s, 1, l.r, h);
    } else {
      LaterQuorum(w, s, h, l.step, l.r);
    }
  }

  /** A FINAL result for h, with the rest light, is the only result of the round. */
  lemma FinalIsTheOnlyResult(w: World, run: seq<State>, i: nat, m: Node, h: Hash, n: Node)
    requires Run(w, run) && FaultyBelow(w) && OneQuorumAt(w, 1) && i < |run|
    requires FinalOn(w, run[i], m, h) && RestIsLight(w, run[i], h)
    requires n in w.honest && n in run[i].locals && Returned(run[i].locals[n])
    ensures run[i].locals[n].r == h && h != w.k.empty
  {
    hide Init, Next, FaultyBelow, OneQuorumAt, Sane, Recorded, Single, Backed, Quorum, FinalOn, Finished, RestIsLight;
    RunIsBacked(w, run, i);
    var d := FinalNeedsFinisher(w, run[i], m, h);
    OnlyResult(w, run[i], d, h, n);
  }

  // ---------- counting votes ----------

  /** The valid votes among the messages were sent, and weigh what the voter weighs in the step. */
  ghost predicate Faithful(w: World, sent: set<Vote>, b: Ballot, ms: seq<VoteMessage>, step: int)
    requires Proper(b)
  {
    forall i :: FirstVote(b, ms, i) ==>
      && Vote(ms[i].pubkey, step, ms[i].hash) in sent
      && VotesOf(b, ms[i]) == w.weight(step)(ms[i].pubkey)
  }

  /** So a hash that countVotes returns has a quorum among the sent votes, whichever of them arrived. */
  lemma CountedIsQuorum(w: World, sent: set<Vote>, b: Ballot, ms: seq<VoteMessage>, n: nat, step: int, x: Hash)
    requires Proper(b) && n <= |ms| && Faithful(w, sent, b, ms, step)
    requires VoteCount.Tally(b, ms[..n], x) >= Threshold(step)
    ensures Quorum(w, sent, step, x)
  {
    hide VotesOf, FirstVote, Threshold;
    TallyIsWeight(b, ms, n, x, w.weight(step));
    SupportersSent(w, sent, b, ms, n, step, x);
    WeighSubset(Supporters(b, ms[..n], x), Voters(sent, step, x), w.weight(step));
  }

  lemma SupportersSent(w: World, sent: set<Vote>, b: Ballot, ms: seq<VoteMessage>, n: nat, step: int, x: Hash)
    requires Proper(b) && n <= |ms| && Faithful(w, sent, b, ms, step)
    ensures Supporters(b, ms[..n], x) <= Voters(sent, step, x)
  {
    hide VotesOf, FirstVote;
    forall p | p in Supporters(b, ms[..n], x) ensures p in Voters(sent, step, x) {
      var i :| 0 <= i < n && FirstVote(b, ms[..n], i) && ms[i].hash == x && ms[i].pubkey == p;
      FirstInPrefix(b, ms, n, i);
      var v := Vote(p, step, x);
      assert v in sent && v.node == p;
    }
  }
}
