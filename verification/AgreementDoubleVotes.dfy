/**
 In exactly which steps an honest node can vote for two hashes. There is no step++ after the coin, so a node that
 times out votes for the empty hash with its coin and for its own hash at the start of the next iteration.
 */
module AgreementDoubleVotes {
  import opened Options
  import opened Votes
  import opened WeightedSets
  import opened Agreement
  import opened AgreementInvariants
  import opened AgreementTheorems

  // ---------- reachable states ----------

  ghost predicate EndsIn(w: World, run: seq<State>, s: State) {
    Run(w, run) && run[|run| - 1] == s
  }

  ghost predicate Reachable(w: World, s: State) {
    exists run :: EndsIn(w, run, s)
  }

  lemma Start(w: World, s: State)
    requires Init(w, s)
    ensures Reachable(w, s)
  {
    hide Init;
    assert EndsIn(w, [s], s);
  }

  lemma OneMore(w: World, s: State, s': State)
    requires Reachable(w, s) && Next(w, s, s')
    ensures Reachable(w, s')
  {
    hide Init, Next;
    var run :| EndsIn(w, run, s);
    var longer := run + [s'];
    forall i | 0 <= i < |longer| - 1 ensures Next(w, longer[i], longer[i + 1]) {
      if i < |run| - 1 {
        assert Next(w, run[i], run[i + 1]);
      }
    }
    assert EndsIn(w, longer, s');
  }

  /** n acts on a possible input. */
  lemma Act(w: World, s: State, n: Node, i: Input) returns (s': State)
    requires Reachable(w, s) && n in w.honest && n in s.locals
    requires Active(s.locals[n]) && Possible(w, s.sent, s.locals[n], i)
    ensures Reachable(w, s') && s'.locals == s.locals[n := Step(w.k, s.locals[n], i)]
    ensures s'.sent == s.sent + VoteSet(w, n, s.locals[n])
  {
    hide Reachable, Step, VoteSet, Possible;
    s' := State(s.sent + VoteSet(w, n, s.locals[n]), s.locals[n := Step(w.k, s.locals[n], i)]);
    assert HonestStep(w, s, s', n, i);
    OneMore(w, s, s');
  }

  const TIMEOUT: Input := Input(None, false)

  /** Every count may time out, and the coin may come up 0. */
  lemma Idle(w: World, s: State, n: Node) returns (s': State)
    requires Reachable(w, s) && n in w.honest && n in s.locals && Active(s.locals[n])
    ensures Reachable(w, s') && s'.locals == s.locals[n := Step(w.k, s.locals[n], TIMEOUT)]
    ensures s'.sent == s.sent + VoteSet(w, n, s.locals[n])
  {
    hide Reachable, Step, VoteSet;
    s' := Act(w, s, n, TIMEOUT);
  }

  // ---------- a node that times out ----------

  ghost predicate Weighty(w: World, n: Node) {
    forall step {:trigger w.weight(step)} :: w.weight(step)(n) > 0
  }

  /** One iteration of binaryBA in which every count times out and the coin is 0. */
  lemma IdleIteration(w: World, s: State, n: Node, b: Hash, h: Hash, step: int) returns (s': State)
    requires Reachable(w, s) && n in w.honest && n in s.locals && Weighty(w, n)
    requires s.locals[n] == Local(VoteIn(First), b, h, h, step) && step < MAXSTEPS
    ensures Reachable(w, s') && n in s'.locals && s'.locals[n] == Local(VoteIn(First), b, h, h, step + 2)
    ensures Vote(n, step + 2, w.k.empty) in s'.sent
  {
    hide Reachable;
    s' := Idle(w, s, n);
    s' := Idle(w, s', n);
    s' := Idle(w, s', n);
    s' := Idle(w, s', n);
    assert s'.locals[n] == Local(VoteIn(Coin), b, h, w.k.empty, step + 2);
    s' := Idle(w, s', n);
    s' := Idle(w, s', n);
  }

  lemma {:induction false} IdleIterations(w: World, s: State, n: Node, b: Hash, h: Hash, j: nat) returns (s': State)
    requires Reachable(w, s) && n in w.honest && n in s.locals && Weighty(w, n)
    requires s.locals[n] == Local(VoteIn(First), b, h, h, 1) && j <= 75
    ensures Reachable(w, s') && n in s'.locals && s'.locals[n] == Local(VoteIn(First), b, h, h, 1 + 2 * j)
    ensures j > 0 ==> Vote(n, 1 + 2 * j, w.k.empty) in s'.sent
  {
    hide Reachable, Weighty;
    if j == 0 {
      s' := s;
    } else {
      s' := IdleIterations(w, s, n, b, h, j - 1);
      s' := IdleIteration(w, s', n, b, h, 1 + 2 * (j - 1));
    }
  }

  /** So it votes for the empty hash and for its own in the same step, in any odd step from 3 to 149. */
  lemma VotesForBoth(w: World, s: State, n: Node, b: Hash, h: Hash, step: int) returns (s': State)
    requires Reachable(w, s) && n in w.honest && n in s.locals && Weighty(w, n)
    requires s.locals[n] == Local(VoteIn(First), b, h, h, 1)
    requires 3 <= step <= 149 && step % 2 == 1
    ensures Reachable(w, s') && Vote(n, step, w.k.empty) in s'.sent && Vote(n, step, h) in s'.sent
  {
    hide Reachable;
    s' := IdleIterations(w, s, n, b, h, (step - 1) / 2);
    s' := Idle(w, s', n);
  }

  // ---------- a world in which a node gets there ----------

  const ANN: Node := [0]
  const BOB: Node := [1]
  const CAM: Node := [2]

  /** Ann decides the first reduction step and Bob the second. */
  function Share(step: int, x: Node): nat {
    if step == REDUCTION_ONE && x == ANN then 6 else if step == REDUCTION_TWO && x == BOB then 6 else 1
  }

  ghost function Three(k: Hashes): World {
    World({ANN, BOB, CAM}, {}, (step: int) => (x: Node) => Share(step, x), k)
  }

  lemma WeighMember<K>(s: set<K>, w: K -> nat, x: K)
    requires x in s
    ensures Weigh(s, w) >= w(x)
  {
    WeighRemove(s, w, x);
  }

  lemma WeighThree(w: Node -> nat)
    ensures Weigh({ANN, BOB, CAM}, w) == w(ANN) + w(BOB) + w(CAM)
  {
    WeighRemove({ANN, BOB, CAM}, w, ANN);
    assert {ANN, BOB, CAM} - {ANN} == {BOB, CAM};
    WeighRemove({BOB, CAM}, w, BOB);
    assert {BOB, CAM} - {BOB} == {CAM};
    WeighRemove({CAM}, w, CAM);
    assert {CAM} - {CAM} == {};
  }

  /** It meets every assumption that the agreement theorems make. */
  lemma ThreeIsFair(k: Hashes)
    ensures FaultyBelow(Three(k)) && OneQuorumAt(Three(k), 1) && OneQuorumAt(Three(k), REDUCTION_TWO)
    ensures Weighty(Three(k), CAM)
  {
    var w := Three(k);
    WeighThree(w.weight(1));
    WeighThree(w.weight(REDUCTION_TWO));
  }

  lemma BigVote(k: Hashes, sent: set<Vote>, v: Vote)
    requires v in sent && Share(v.step, v.node) >= Threshold(v.step)
    ensures Quorum(Three(k), sent, v.step, v.hash)
  {
    hide Share, Threshold;
    assert v.node in Voters(sent, v.step, v.hash);
    WeighMember(Voters(sent, v.step, v.hash), Three(k).weight(v.step), v.node);
  }

  /** Bob makes h popular in the second reduction step. */
  lemma BobVotes(k: Hashes, h: Hash) returns (s: State)
    requires k.empty != k.zero && h != k.zero
    ensures Reachable(Three(k), s) && Vote(BOB, REDUCTION_TWO, h) in s.sent
    ensures CAM in s.locals && s.locals[CAM] == Local(VoteOne, h, h, h, 0)
  {
    hide Reachable, Quorum, Step;
    var w, l := Three(k), Local(VoteOne, h, h, h, 0);
    s := State({}, map[ANN := l, BOB := l, CAM := l]);
    Start(w, s);
    s := Idle(w, s, ANN);
    s := Idle(w, s, BOB);
    BobCounts(k, l);
    BigVote(k, s.sent, Vote(ANN, REDUCTION_ONE, h));
    s := Act(w, s, BOB, Input(Some(h), false));
    s := Idle(w, s, BOB);
  }

  lemma BobCounts(k: Hashes, l: Local)
    requires l.pc == VoteOne
    ensures Step(k, l, TIMEOUT) == l.(pc := CountOne)
    ensures Step(k, l.(pc := CountOne), Input(Some(l.block), false)) == l.(pc := VoteTwo, r := l.block)
  {
  }

  /** Cam missed the first count, but leaves the reduction with h. */
  lemma CamStarts(k: Hashes, h: Hash) returns (s: State)
    requires k.empty != k.zero && h != k.zero
    ensures Reachable(Three(k), s) && CAM in s.locals && s.locals[CAM] == Local(VoteIn(First), h, h, h, 1)
  {
    hide Reachable, Quorum, Step;
    var w, l := Three(k), Local(VoteOne, h, h, h, 0);
    s := BobVotes(k, h);
    CamSteps(k, l);
    s := Idle(w, s, CAM);
    s := Idle(w, s, CAM);
    s := Idle(w, s, CAM);
    BigVote(k, s.sent, Vote(BOB, REDUCTION_TWO, h));
    s := Act(w, s, CAM, Input(Some(h), false));
  }

  lemma CamSteps(k: Hashes, l: Local)
    requires l.pc == VoteOne
    ensures Step(k, l, TIMEOUT) == l.(pc := CountOne)
    ensures Step(k, l.(pc := CountOne), TIMEOUT) == l.(pc := VoteTwo, r := k.empty)
    ensures Step(k, l.(pc := VoteTwo, r := k.empty), TIMEOUT) == l.(pc := CountTwo, r := k.empty)
    ensures Step(k, l.(pc := CountTwo, r := k.empty), Input(Some(l.block), false))
            == l.(pc := VoteIn(First), hash := l.block, r := l.block, step := 1)
  {
  }

  // ---------- exactly the shared steps ----------

  /** An honest node has voted for two hashes in the step. */
  ghost predicate VotesTwice(w: World, s: State, n: Node, step: int, x: Hash, y: Hash) {
    n in w.honest && x != y && Vote(n, step, x) in s.sent && Vote(n, step, y) in s.sent
  }

  /**
   For every odd step from 3 to 149 and every two hashes, one of them that of the empty block, there is a run that
   keeps all assumptions on weights and in which an honest node votes for both.
   */
  lemma DoubleVoteHappens(k: Hashes, h: Hash, step: int) returns (w: World, s: State, n: Node)
    requires 3 <= step <= 149 && step % 2 == 1
    requires k.empty != k.zero && h != k.zero && h != k.empty
    ensures w.k == k && FaultyBelow(w) && OneQuorumAt(w, 1) && OneQuorumAt(w, REDUCTION_TWO)
    ensures Reachable(w, s) && VotesTwice(w, s, n, step, k.empty, h)
  {
    hide Reachable, FaultyBelow, OneQuorumAt, Weighty;
    w, n := Three(k), CAM;
    ThreeIsFair(k);
    s := CamStarts(k, h);
    s := VotesForBoth(w, s, CAM, h, h, step);
  }

  ghost predicate CanVoteTwice(step: int) {
    exists w, s, n, x, y :: Reachable(w, s) && VotesTwice(w, s, n, step, x, y)
  }

  /** An honest node can vote for two hashes exactly in the odd steps from 3 to 149. */
  lemma DoubleVoteSteps(step: int)
    ensures CanVoteTwice(step) <==> 3 <= step <= 149 && step % 2 == 1
  {
    hide Reachable;
    if 3 <= step <= 149 && step % 2 == 1 {
      var w, s, n := DoubleVoteHappens(Hashes([0], [1]), [2], step);
    }
    if CanVoteTwice(step) {
      var w, s, n, x, y :| Reachable(w, s) && VotesTwice(w, s, n, step, x, y);
      OnlyShared(w, s, Vote(n, step, x), Vote(n, step, y));
    }
  }

  lemma OnlyShared(w: World, s: State, v: Vote, v': Vote)
    requires Reachable(w, s) && v in s.sent && v' in s.sent
    requires v.node in w.honest && v.node == v'.node && v.step == v'.step && v.hash != v'.hash
    ensures 3 <= v.step <= 149 && v.step % 2 == 1
  {
    hide Run;
    var run :| EndsIn(w, run, s);
    assert |run| > 0 by { NotEmpty(w, run); }
    DoubleVotesAreShared(w, run, |run| - 1, v, v');
  }

  lemma NotEmpty(w: World, run: seq<State>)
    requires Run(w, run)
    ensures |run| > 0
  {
  }
}
