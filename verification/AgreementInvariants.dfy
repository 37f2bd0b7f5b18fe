/** What every step of BA* keeps, for any interleaving of honest and faulty nodes. */
module AgreementInvariants {
  import opened Votes
  import opened WeightedSets
  import opened Agreement

  // ---------- the votes of an honest node ----------

  predicate Reduction(step: int) {
    step == REDUCTION_ONE || step == REDUCTION_TWO
  }

  /** Which votes an honest node may have sent by the time it is at l. */
  predicate MayHaveSent(l: Local, step: int, hash: Hash) {
    match l.pc
    case VoteOne => false
    case CountOne => step == REDUCTION_ONE
    case VoteTwo => step == REDUCTION_ONE
    case CountTwo => Reduction(step)
    case VoteIn(phase) => Reduction(step) || (1 <= step < l.step) || (phase == First && 1 < step == l.step)
    case CountIn(_) => Reduction(step) || 1 <= step <= l.step
    case Ahead(next) => Reduction(step) || (1 <= step < next && (step > l.step ==> hash == l.r))
    case VoteFinal => Reduction(step) || (1 <= step <= l.step + 3 && (step > l.step ==> hash == l.r))
    case CountFinal => Reduction(step) || SentBeforeEnd(l, step, hash)
    case Done(_) => Reduction(step) || SentBeforeEnd(l, step, hash)
    case Hung => Reduction(step) || 1 <= step <= MAXSTEPS + 1
  }

  predicate SentBeforeEnd(l: Local, step: int, hash: Hash) {
    (1 <= step <= l.step + 3 || (step == FINAL && l.step == 1)) && (step > l.step ==> hash == l.r)
  }

  lemma SentStays(k: Hashes, l: Local, i: Input, step: int, hash: Hash)
    requires Active(l) && Shape(l) && MayHaveSent(l, step, hash)
    ensures MayHaveSent(Step(k, l, i), step, hash)
  {
  }

  lemma SentNow(k: Hashes, l: Local, i: Input)
    requires Active(l) && Shape(l) && Sends(l).Some?
    ensures MayHaveSent(Step(k, l, i), Sends(l).value.0, Sends(l).value.1)
  {
  }

  /**
   The coin step of one iteration and the first step of the next share their number, as long as there is a next one.
   */
  predicate Shared(step: int) {
    3 <= step < MAXSTEPS && step % 2 == 1
  }

  /** A node about to vote has not voted in that step, unless it starts an iteration in the step of its last coin. */
  lemma VotesOnce(l: Local, hash: Hash)
    requires Shape(l) && Sends(l).Some? && MayHaveSent(l, Sends(l).value.0, hash)
    ensures l.pc == VoteIn(First) && Shared(l.step) && Sends(l).value.0 == l.step
  {
  }

  // ---------- invariants that need no assumption ----------

  ghost predicate Sane(w: World, s: State) {
    && w.honest !! w.faulty && s.locals.Keys == w.honest && w.k.empty != w.k.zero
    && (forall n :: n in w.honest ==> Shape(s.locals[n]))
    && (forall v :: v in s.sent ==> v.node in w.honest + w.faulty)
  }

  ghost predicate Recorded(w: World, s: State)
    requires Sane(w, s)
  {
    forall v :: v in s.sent && v.node in w.honest ==> MayHaveSent(s.locals[v.node], v.step, v.hash)
  }

  /** An honest node votes once in each step that is not shared. */
  ghost predicate Single(w: World, s: State) {
    forall v, v' ::
      (v in s.sent && v' in s.sent && v.node == v'.node && v.node in w.honest && v.step == v'.step && !Shared(v.step))
      ==> v.hash == v'.hash
  }

  ghost predicate Basic(w: World, s: State) {
    Sane(w, s) && Recorded(w, s) && Single(w, s)
  }

  lemma BasicInit(w: World, s: State)
    requires Init(w, s)
    ensures Basic(w, s)
  {
  }

  lemma BasicFaulty(w: World, s: State, s': State)
    requires Basic(w, s) && FaultyStep(w, s, s')
    ensures Basic(w, s')
  {
    hide MayHaveSent, Shape;
  }

  lemma SaneHonest(w: World, s: State, s': State, n: Node, i: Input)
    requires Sane(w, s) && HonestStep(w, s, s', n, i)
    ensures Sane(w, s')
  {
    ShapeKept(w.k, s.locals[n], i);
    hide Shape, Step;
  }

  lemma RecordedHonest(w: World, s: State, s': State, n: Node, i: Input)
    requires Sane(w, s) && Sane(w, s') && Recorded(w, s) && HonestStep(w, s, s', n, i)
    ensures Recorded(w, s')
  {
    hide MayHaveSent, Shape, Step, Sends;
    assert Shape(s.locals[n]);
    forall v | v in s'.sent && v.node in w.honest ensures MayHaveSent(s'.locals[v.node], v.step, v.hash) {
      if v.node == n {
        if v in s.sent {
          SentStays(w.k, s.locals[n], i, v.step, v.hash);
        } else {
          SentNow(w.k, s.locals[n], i);
        }
      }
    }
  }

  lemma SingleHonest(w: World, s: State, s': State, n: Node, i: Input)
    requires Sane(w, s) && Recorded(w, s) && Single(w, s) && HonestStep(w, s, s', n, i)
    ensures Single(w, s')
  {
    hide MayHaveSent, Shape, Step, Sends, Shared;
    assert Shape(s.locals[n]);
    forall v, v' | v in s'.sent && v' in s'.sent && v.node == v'.node && v.node in w.honest && v.step == v'.step
        && !Shared(v.step)
      ensures v.hash == v'.hash
    {
      if v !in s.sent && v' in s.sent {
        VotesOnce(s.locals[n], v'.hash);
      } else if v in s.sent && v' !in s.sent {
        VotesOnce(s.locals[n], v.hash);
      }
    }
  }

  lemma BasicNext(w: World, s: State, s': State)
    requires Basic(w, s) && Next(w, s, s')
    ensures Basic(w, s')
  {
    hide Sane, Recorded, Single, FaultyStep, HonestStep;
    if FaultyStep(w, s, s') {
      BasicFaulty(w, s, s');
    } else {
      var n, i :| HonestStep(w, s, s', n, i);
      SaneHonest(w, s, s', n, i);
      RecordedHonest(w, s, s', n, i);
      SingleHonest(w, s, s', n, i);
    }
  }

  // ---------- quorums ----------

  /** Votes are never withdrawn, so a quorum stays. */
  lemma QuorumStays(w: World, sent: set<Vote>, sent': set<Vote>, step: int, x: Hash)
    requires sent <= sent' && Quorum(w, sent, step, x)
    ensures Quorum(w, sent', step, x)
  {
    WeighSubset(Voters(sent, step, x), Voters(sent', step, x), w.weight(step));
  }

  /** In every step, the faulty nodes alone stay below the threshold. */
  ghost predicate FaultyBelow(w: World) {
    forall step {:trigger w.weight(step)} :: Weigh(w.faulty, w.weight(step)) < Threshold(step)
  }

  /** In this step, the honest nodes once and the faulty nodes twice stay below two thresholds. */
  ghost predicate OneQuorumAt(w: World, step: int) {
    Weigh(w.honest, w.weight(step)) + 2 * Weigh(w.faulty, w.weight(step)) < 2 * Threshold(step)
  }

  /** Behind every quorum there is an honest vote. */
  lemma HonestBehind(w: World, s: State, step: int, x: Hash) returns (v: Vote)
    requires Sane(w, s) && FaultyBelow(w) && Quorum(w, s.sent, step, x)
    ensures v in s.sent && v.node in w.honest && v.step == step && v.hash == x
  {
    hide Threshold, Shape;
    var voters := Voters(s.sent, step, x);
    assert Weigh(w.faulty, w.weight(step)) < Threshold(step);
    var n := Outweighs(voters, w.faulty, w.weight(step));
    v :| v in s.sent && v.step == step && v.hash == x && v.node == n;
  }

  /** Two quorums in a step where honest nodes vote once are for the same hash. */
  lemma SameQuorum(w: World, s: State, step: int, x: Hash, y: Hash)
    requires Sane(w, s) && Single(w, s) && !Shared(step) && OneQuorumAt(w, step)
    requires Quorum(w, s.sent, step, x) && Quorum(w, s.sent, step, y)
    ensures x == y
  {
    hide Threshold, Shape;
    var p, q := Voters(s.sent, step, x), Voters(s.sent, step, y);
    if x != y {
      assert p * q <= w.faulty by {
        forall n | n in p && n in q ensures n in w.faulty {
          var v :| v in s.sent && v.step == step && v.hash == x && v.node == n;
          var v' :| v' in s.sent && v'.step == step && v'.hash == y && v'.node == n;
        }
      }
      Overlap(p, q, w.honest, w.faulty, w.weight(step));
    }
  }

  // ---------- what backs a hash ----------

  /** The empty hash, or one that the second reduction step made popular. */
  ghost predicate Supported(w: World, sent: set<Vote>, x: Hash) {
    x == w.k.empty || Quorum(w, sent, REDUCTION_TWO, x)
  }

  lemma SupportStays(w: World, sent: set<Vote>, sent': set<Vote>, x: Hash)
    requires sent <= sent' && Supported(w, sent, x)
    ensures Supported(w, sent', x)
  {
    hide Quorum;
    if x != w.k.empty {
      QuorumStays(w, sent, sent', REDUCTION_TWO, x);
    }
  }

  /**
   What a returned node has seen: a quorum in its last step, for a block in odd steps and for the empty hash in even
   ones.
   */
  ghost predicate Justified(w: World, sent: set<Vote>, l: Local) {
    && (Returned(l) ==> Quorum(w, sent, l.step, l.r) && (l.r == w.k.empty <==> l.step % 2 == 0))
    && (l.pc == Done(true) ==> Quorum(w, sent, FINAL, l.r))
  }

  predicate InBinary(l: Local) {
    l.pc.VoteIn? || l.pc.CountIn? || Returned(l) || l.pc.Hung?
  }

  ghost predicate LocalBacked(w: World, sent: set<Vote>, l: Local) {
    && l.block != w.k.zero
    && (l.pc.VoteTwo? || l.pc.CountTwo? ==> l.r != w.k.zero)
    && (InBinary(l) ==> && Supported(w, sent, l.hash) && Supported(w, sent, l.r)
                        && l.hash != w.k.zero && l.r != w.k.zero)
  }

  ghost predicate VoteBacked(w: World, sent: set<Vote>, v: Vote) {
    v.hash != w.k.zero && (!Reduction(v.step) ==> Supported(w, sent, v.hash))
  }

  ghost predicate Backed(w: World, s: State)
    requires Sane(w, s)
  {
    && (forall n :: n in w.honest ==> LocalBacked(w, s.sent, s.locals[n]))
    && (forall n :: n in w.honest ==> Justified(w, s.sent, s.locals[n]))
    && (forall v :: v in s.sent && v.node in w.honest ==> VoteBacked(w, s.sent, v))
  }

  lemma BackedInit(w: World, s: State)
    requires Init(w, s)
    ensures Basic(w, s) && Backed(w, s)
  {
    BasicInit(w, s);
  }

  lemma LocalBackedStays(w: World, sent: set<Vote>, sent': set<Vote>, l: Local)
    requires sent <= sent' && LocalBacked(w, sent, l) && Justified(w, sent, l)
    ensures LocalBacked(w, sent', l) && Justified(w, sent', l)
  {
    hide Supported, Quorum;
    if InBinary(l) {
      SupportStays(w, sent, sent', l.hash);
      SupportStays(w, sent, sent', l.r);
    }
    if Returned(l) {
      QuorumStays(w, sent, sent', l.step, l.r);
    }
    if l.pc == Done(true) {
      QuorumStays(w, sent, sent', FINAL, l.r);
    }
  }

  lemma VoteBackedStays(w: World, sent: set<Vote>, sent': set<Vote>, v: Vote)
    requires sent <= sent' && VoteBacked(w, sent, v)
    ensures VoteBacked(w, sent', v)
  {
    hide Supported;
    if !Reduction(v.step) {
      SupportStays(w, sent, sent', v.hash);
    }
  }

  lemma BackedFaulty(w: World, s: State, s': State)
    requires Sane(w, s) && Sane(w, s') && Backed(w, s) && FaultyStep(w, s, s')
    ensures Backed(w, s')
  {
    hide LocalBacked, Justified, VoteBacked, Shape;
    forall n | n in w.honest ensures LocalBacked(w, s'.sent, s'.locals[n]) && Justified(w, s'.sent, s'.locals[n]) {
      LocalBackedStays(w, s.sent, s'.sent, s.locals[n]);
    }
    forall v | v in s'.sent && v.node in w.honest ensures VoteBacked(w, s'.sent, v) {
      VoteBackedStays(w, s.sent, s'.sent, v);
    }
  }

  /** A counted hash is not the zero hash and, in a binary step or in the FINAL step, is supported. */
  lemma CountedIsBacked(w: World, s: State, step: int, x: Hash)
    requires Sane(w, s) && Backed(w, s) && FaultyBelow(w) && Quorum(w, s.sent, step, x)
    ensures x != w.k.zero && (step != REDUCTION_ONE ==> Supported(w, s.sent, x))
  {
    hide Quorum, LocalBacked, Justified, FaultyBelow, Shape;
    var v := HonestBehind(w, s, step, x);
    assert VoteBacked(w, s.sent, v);
  }

  /** One step of a node keeps its hashes backed. */
  lemma LocalStepBacked(w: World, s: State, n: Node, i: Input)
    requires Sane(w, s) && Backed(w, s) && FaultyBelow(w) && n in w.honest
    requires Active(s.locals[n]) && Possible(w, s.sent, s.locals[n], i)
    ensures LocalBacked(w, s.sent, Step(w.k, s.locals[n], i)) && Justified(w, s.sent, Step(w.k, s.locals[n], i))
  {
    hide Quorum, FaultyBelow, VoteBacked, Supported;
    var l := s.locals[n];
    assert Shape(l) && LocalBacked(w, s.sent, l) && Justified(w, s.sent, l);
    if Counts(l).Some? && i.counted.Some? {
      CountedIsBacked(w, s, Counts(l).value, i.counted.value);
    }
    EmptyIsSupported(w, s.sent);
    hide Backed, Sane;
  }

  lemma EmptyIsSupported(w: World, sent: set<Vote>)
    ensures Supported(w, sent, w.k.empty)
  {
  }

  /** A node's vote is its r, or its block in the first reduction step. */
  lemma SentIsBacked(w: World, sent: set<Vote>, n: Node, l: Local, v: Vote)
    requires Shape(l) && LocalBacked(w, sent, l) && v in VoteSet(w, n, l)
    ensures VoteBacked(w, sent, v)
  {
    hide Supported;
  }

  lemma BackedHonest(w: World, s: State, s': State, n: Node, i: Input)
    requires Sane(w, s) && Sane(w, s') && Backed(w, s) && FaultyBelow(w) && HonestStep(w, s, s', n, i)
    ensures Backed(w, s')
  {
    var l' := Step(w.k, s.locals[n], i);
    LocalStepBacked(w, s, n, i);
    assert Shape(s.locals[n]);
    hide LocalBacked, Justified, VoteBacked, Shape, Step, Possible, VoteSet;
    LocalBackedStays(w, s.sent, s'.sent, l');
    forall m | m in w.honest ensures LocalBacked(w, s'.sent, s'.locals[m]) && Justified(w, s'.sent, s'.locals[m]) {
      if m != n {
        LocalBackedStays(w, s.sent, s'.sent, s.locals[m]);
      }
    }
    forall v | v in s'.sent && v.node in w.honest ensures VoteBacked(w, s'.sent, v) {
      if v !in s.sent {
        SentIsBacked(w, s.sent, n, s.locals[n], v);
      }
      VoteBackedStays(w, s.sent, s'.sent, v);
    }
  }

  lemma BackedNext(w: World, s: State, s': State)
    requires Basic(w, s) && Backed(w, s) && FaultyBelow(w) && Next(w, s, s')
    ensures Basic(w, s') && Backed(w, s')
  {
    hide Sane, Recorded, Single, FaultyStep, HonestStep, Backed, FaultyBelow;
    BasicNext(w, s, s');
    if FaultyStep(w, s, s') {
      BackedFaulty(w, s, s');
    } else {
      var n, i :| HonestStep(w, s, s', n, i);
      BackedHonest(w, s, s', n, i);
    }
  }
}
