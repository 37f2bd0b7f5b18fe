/**
 What BA* is for: when one block is popular among the honest nodes, or is all that they count first, and no count times
 out, all of them finalise it.
 */
module AgreementGoodCase {
  import opened Options
  import opened Votes
  import opened WeightedSets
  import opened Agreement
  import opened AgreementInvariants
  import opened AgreementTheorems

  /** A step that is not a timeout: if the node counts, the count gives a hash. */
  ghost predicate Timely(w: World, s: State, s': State, n: Node, i: Input) {
    HonestStep(w, s, s', n, i) && (Counts(s.locals[n]).Some? ==> i.counted.Some?)
  }

  /** And one in which the first reduction step gives h. */
  ghost predicate Prompt(w: World, s: State, s': State, n: Node, i: Input, h: Hash) {
    Timely(w, s, s', n, i) && (s.locals[n].pc == CountOne ==> i.counted == Some(h))
  }

  ghost predicate PromptNext(w: World, s: State, s': State, h: Hash) {
    FaultyStep(w, s, s') || exists n, i :: Prompt(w, s, s', n, i, h)
  }

  /** A run without timeouts in which all honest nodes, whatever their blocks, count h in the first reduction step. */
  ghost predicate PromptRun(w: World, run: seq<State>, h: Hash) {
    && |run| > 0 && Init(w, run[0])
    && forall i :: 0 <= i < |run| - 1 ==> PromptNext(w, run[i], run[i + 1], h)
  }

  // ---------- the straight path ----------

  /** How far a node is on its way to a final result in step 1. */
  function Place(l: Local): int {
    match l.pc
    case VoteOne => 0
    case CountOne => 1
    case VoteTwo => 2
    case CountTwo => 3
    case VoteIn(_) => 4
    case CountIn(_) => 5
    case Ahead(next) => 4 + next
    case VoteFinal => 10
    case CountFinal => 11
    case Done(_) => 12
    case Hung => 12
  }

  predicate OnTrack(l: Local, h: Hash) {
    match l.pc
    case VoteOne => true
    case CountOne => true
    case VoteTwo => l.r == h
    case CountTwo => l.r == h
    case VoteIn(phase) => phase == First && l.step == 1 && l.hash == h && l.r == h
    case CountIn(phase) => phase == First && l.step == 1 && l.hash == h && l.r == h
    case Ahead(next) => l.step == 1 && l.r == h && 2 <= next <= 5
    case VoteFinal => l.step == 1 && l.r == h
    case CountFinal => l.step == 1 && l.r == h
    case Done(final) => final && l.step == 1 && l.r == h
    case Hung => false
  }

  /** Counting h keeps a node on track, one place further. */
  lemma TrackKept(k: Hashes, l: Local, i: Input, h: Hash)
    requires Active(l) && OnTrack(l, h) && h != k.empty && (Counts(l).Some? ==> i.counted == Some(h))
    ensures OnTrack(Step(k, l, i), h) && Place(Step(k, l, i)) == Place(l) + 1 <= 12
    ensures Sends(l).Some? && Sends(l).value.0 != REDUCTION_ONE ==> Sends(l).value.1 == h
  {
  }

  /** The place at which a node has voted in each step that is counted on the way. */
  function VotedBy(step: int): int {
    if step == REDUCTION_ONE then 1 else if step == REDUCTION_TWO then 3 else if step == 1 then 5 else 11
  }

  predicate Counted(step: int) {
    step == REDUCTION_ONE || step == REDUCTION_TWO || step == 1 || step == FINAL
  }

  /** The vote on the way: the own block first, and h afterwards. */
  function OwnVote(n: Node, l: Local, h: Hash, step: int): Vote {
    Vote(n, step, if step == REDUCTION_ONE then l.block else h)
  }

  /** Leaving the place just before VotedBy means sending that vote. */
  lemma SendsOnTime(n: Node, l: Local, h: Hash, step: int)
    requires OnTrack(l, h) && Counted(step) && Place(l) + 1 == VotedBy(step)
    ensures Sends(l) == Some((step, OwnVote(n, l, h, step).hash))
  {
  }

  lemma CountsOnTime(l: Local, h: Hash)
    requires OnTrack(l, h) && Counts(l).Some?
    ensures Counted(Counts(l).value) && VotedBy(Counts(l).value) == Place(l)
  {
  }

  // ---------- what every prompt step keeps ----------

  ghost predicate HasVoted(w: World, s: State, n: Node, h: Hash, step: int)
    requires n in s.locals
  {
    Place(s.locals[n]) >= VotedBy(step) && w.weight(step)(n) > 0 ==> OwnVote(n, s.locals[n], h, step) in s.sent
  }

  ghost predicate Good(w: World, s: State, h: Hash) {
    && Sane(w, s)
    && (forall n :: n in w.honest ==> OnTrack(s.locals[n], h))
    && (forall v :: v in s.sent && v.node in w.honest && v.step != REDUCTION_ONE ==> v.hash == h)
    && (forall n, step :: n in w.honest && Counted(step) ==> HasVoted(w, s, n, h, step))
  }

  lemma GoodFaulty(w: World, s: State, s': State, h: Hash)
    requires Good(w, s, h) && FaultyStep(w, s, s')
    ensures Good(w, s', h)
  {
    hide OnTrack, Shape;
    forall n, step | n in w.honest && Counted(step) ensures HasVoted(w, s', n, h, step) {
      assert HasVoted(w, s, n, h, step);
    }
  }

  lemma CountedIsH(w: World, s: State, h: Hash, l: Local, i: Input)
    requires Good(w, s, h) && FaultyBelow(w) && Possible(w, s.sent, l, i)
    requires Counts(l).Some? ==> i.counted.Some?
    requires OnTrack(l, h) && (l.pc == CountOne ==> i.counted == Some(h))
    ensures Counts(l).Some? ==> i.counted == Some(h)
  {
    hide Quorum, FaultyBelow;
    if Counts(l).Some? && l.pc != CountOne {
      var v := HonestBehind(w, s, Counts(l).value, i.counted.value);
    }
  }

  lemma GoodPrompt(w: World, s: State, s': State, n: Node, i: Input, h: Hash)
    requires Good(w, s, h) && FaultyBelow(w) && h != w.k.empty && Prompt(w, s, s', n, i, h)
    ensures Good(w, s', h) && Place(s'.locals[n]) == Place(s.locals[n]) + 1 <= 12
  {
    CountedIsH(w, s, h, s.locals[n], i);
    TrackKept(w.k, s.locals[n], i, h);
    SaneHonest(w, s, s', n, i);
    hide OnTrack, Sane, FaultyBelow, Possible, Step, Counts, Place;
    assert OnTrack(s.locals[n], h);
    forall m, step | m in w.honest && Counted(step) ensures HasVoted(w, s', m, h, step) {
      assert HasVoted(w, s, m, h, step);
      if m == n && Place(s.locals[n]) + 1 == VotedBy(step) {
        SendsOnTime(n, s.locals[n], h, step);
      }
    }
  }

  lemma {:induction false} PromptRunIsGood(w: World, run: seq<State>, i: nat, h: Hash)
    requires PromptRun(w, run, h) && i < |run| && FaultyBelow(w) && h != w.k.empty
    ensures Good(w, run[i], h)
  {
    if i == 0 {
      GoodInit(w, run[0], h);
    } else {
      PromptRunIsGood(w, run, i - 1, h);
      hide Good, FaultyBelow, FaultyStep, Prompt;
      assert PromptNext(w, run[i - 1], run[i], h);
      if FaultyStep(w, run[i - 1], run[i]) {
        GoodFaulty(w, run[i - 1], run[i], h);
      } else {
        var n, j :| Prompt(w, run[i - 1], run[i], n, j, h);
        GoodPrompt(w, run[i - 1], run[i], n, j, h);
      }
    }
  }

  lemma GoodInit(w: World, s: State, h: Hash)
    requires Init(w, s)
    ensures Good(w, s, h)
  {
    BasicInit(w, s);
  }

  // ---------- nobody gets stuck ----------

  /** In every step, the honest nodes reach the threshold without the one that counts: gossip skips the sender. */
  ghost predicate HonestSuffice(w: World) {
    forall step, n {:trigger Weigh(w.honest - {n}, w.weight(step))} ::
      n in w.honest ==> Weigh(w.honest - {n}, w.weight(step)) >= Threshold(step)
  }

  /** The votes that gossip can bring to n. */
  ghost function Foreign(sent: set<Vote>, n: Node): set<Vote> {
    set v | v in sent && v.node != n
  }

  lemma {:induction false} WeighPositive<K>(s: set<K>, t: set<K>, w: K -> nat)
    requires forall x :: x in s && w(x) > 0 ==> x in t
    ensures Weigh(s, w) <= Weigh(t, w)
    decreases |s|
  {
    if s != {} {
      var x :| x in s;
      WeighRemove(s, w, x);
      if w(x) > 0 {
        WeighRemove(t, w, x);
        WeighPositive(s - {x}, t - {x}, w);
      } else {
        WeighPositive(s - {x}, t, w);
      }
    }
  }

  /** The honest nodes other than n whose block is h. */
  ghost function Backers(w: World, s: State, h: Hash, n: Node): set<Node> {
    set m | m in w.honest && m in s.locals && m != n && s.locals[m].block == h
  }

  /** And in the first reduction step, so do those with the block h. */
  ghost predicate BlockSuffices(w: World, s: State, h: Hash) {
    forall n {:trigger Backers(w, s, h, n)} ::
      n in w.honest ==> Weigh(Backers(w, s, h, n), w.weight(REDUCTION_ONE)) >= Threshold(REDUCTION_ONE)
  }

  /** Once every honest node has voted in a step, h has a quorum there among the votes of the others. */
  lemma AllVoted(w: World, s: State, h: Hash, step: int, n: Node)
    requires Good(w, s, h) && HonestSuffice(w) && BlockSuffices(w, s, h) && Counted(step) && n in w.honest
    requires forall m :: m in w.honest ==> Place(s.locals[m]) >= VotedBy(step)
    ensures Quorum(w, Foreign(s.sent, n), step, h)
  {
    hide OnTrack, Place, Threshold;
    var others := if step == REDUCTION_ONE then Backers(w, s, h, n) else w.honest - {n};
    var voters := Voters(Foreign(s.sent, n), step, h);
    forall m | m in others && w.weight(step)(m) > 0 ensures m in voters {
      assert HasVoted(w, s, m, h, step);
      var v := OwnVote(m, s.locals[m], h, step);
      assert v in Foreign(s.sent, n) && v.node == m;
    }
    WeighPositive(others, voters, w.weight(step));
  }

  /** A node of the set that is nowhere ahead of another. */
  lemma {:induction false} Slowest(nodes: set<Node>, locals: map<Node, Local>) returns (n: Node)
    requires nodes != {} && nodes <= locals.Keys
    ensures n in nodes && forall m :: m in nodes ==> Place(locals[n]) <= Place(locals[m])
    decreases |nodes|
  {
    hide Place;
    n :| n in nodes;
    var rest := nodes - {n};
    if rest != {} {
      var m := Slowest(rest, locals);
      if Place(locals[m]) < Place(locals[n]) {
        n := m;
      }
    }
  }

  /** If n counts, the votes of the others are enough. */
  ghost predicate Delivered(w: World, s: State, n: Node, i: Input) {
    n in s.locals && (Counts(s.locals[n]).Some? ==>
      && i.counted.Some?
      && Quorum(w, Foreign(s.sent, n), Counts(s.locals[n]).value, i.counted.value))
  }

  ghost predicate CanGoOn(w: World, s: State, h: Hash) {
    exists s', n, i :: Prompt(w, s, s', n, i, h) && Delivered(w, s, n, i)
  }

  lemma SlowestGoesOn(w: World, s: State, h: Hash, n: Node)
    requires Good(w, s, h) && HonestSuffice(w) && BlockSuffices(w, s, h) && n in w.honest && Active(s.locals[n])
    requires forall m :: m in w.honest ==> Place(s.locals[n]) <= Place(s.locals[m])
    ensures CanGoOn(w, s, h)
  {
    hide Quorum, HonestSuffice, BlockSuffices, Step, VoteSet;
    var l, i := s.locals[n], Input(Some(h), false);
    assert OnTrack(l, h);
    if Counts(l).Some? {
      CountsOnTime(l, h);
      AllVoted(w, s, h, Counts(l).value, n);
      QuorumStays(w, Foreign(s.sent, n), s.sent, Counts(l).value, h);
    }
    hide OnTrack, Place, Counted, Sane, Good;
    var s' := State(s.sent + VoteSet(w, n, l), s.locals[n := Step(w.k, l, i)]);
    assert Prompt(w, s, s', n, i, h) && Delivered(w, s, n, i);
  }

  lemma TrackEnds(l: Local, h: Hash)
    requires OnTrack(l, h)
    ensures l.pc == Done(true) || Active(l)
    ensures 0 <= Place(l) <= 12 && (Place(l) == 12 <==> l.pc == Done(true))
  {
  }

  ghost predicate AllFinal(w: World, s: State, h: Hash) {
    forall n :: n in w.honest ==> FinalOn(w, s, n, h)
  }

  /**
   No count times out, and all honest nodes count h first, which is not the empty block. Then, with faulty weight below
   the threshold in every step, a node that has ended has the FINAL result h. With honest weight that reaches the
   threshold in every step without the node that counts, in the first reduction step that of the nodes with block h,
   some node can take a step without a timeout, on votes that gossip brings to it, until all have that result.
   */
  lemma GoodCase(w: World, run: seq<State>, i: nat, h: Hash)
    requires PromptRun(w, run, h) && i < |run| && FaultyBelow(w) && h != w.k.empty
    ensures forall n :: n in w.honest ==> n in run[i].locals
    ensures forall n :: n in w.honest && !Active(run[i].locals[n]) ==> FinalOn(w, run[i], n, h)
    ensures HonestSuffice(w) && BlockSuffices(w, run[0], h) ==> CanGoOn(w, run[i], h) || AllFinal(w, run[i], h)
  {
    PromptRunIsGood(w, run, i, h);
    PromptIsRun(w, run, h);
    var s := run[i];
    BlocksStay(w, run, i, h);
    hide Run, PromptRun, FaultyBelow, Prompt, CanGoOn, Shape, HonestSuffice, BlockSuffices;
    forall n | n in w.honest ensures FinalOn(w, s, n, h) <==> !Active(s.locals[n]) {
      TrackEnds(s.locals[n], h);
    }
    if HonestSuffice(w) && BlockSuffices(w, run[0], h) && w.honest != {} {
      Goes(w, s, h);
    }
  }

  lemma Goes(w: World, s: State, h: Hash)
    requires Good(w, s, h) && HonestSuffice(w) && BlockSuffices(w, s, h) && w.honest != {}
    ensures CanGoOn(w, s, h) || AllFinal(w, s, h)
  {
    hide FaultyBelow, CanGoOn, Shape, HonestSuffice, BlockSuffices, Place, Backers;
    var n := Slowest(w.honest, s.locals);
    TrackEnds(s.locals[n], h);
    if Active(s.locals[n]) {
      SlowestGoesOn(w, s, h, n);
    } else {
      AllAtTheEnd(w, s, h, n);
    }
  }

  lemma AllAtTheEnd(w: World, s: State, h: Hash, n: Node)
    requires Good(w, s, h) && n in w.honest && Place(s.locals[n]) == 12
    requires forall m :: m in w.honest ==> Place(s.locals[n]) <= Place(s.locals[m])
    ensures forall m :: m in w.honest ==> FinalOn(w, s, m, h)
  {
    hide Place, Shape;
    forall m | m in w.honest ensures FinalOn(w, s, m, h) {
      TrackEnds(s.locals[m], h);
    }
  }

  // ---------- twelve steps ----------

  /** The steps that n itself has taken by the state i of the run. */
  ghost function OwnSteps(run: seq<State>, i: nat, n: Node): nat
    requires i < |run|
  {
    if i == 0 then 0
    else
      var s, s' := run[i - 1], run[i];
      OwnSteps(run, i - 1, n)
      + if n in s.locals && n in s'.locals && s.locals[n] != s'.locals[n] then 1 else 0
  }

  /** In a run without timeouts every honest node has its FINAL result after exactly twelve steps of its own. */
  lemma {:induction false} TwelveSteps(w: World, run: seq<State>, i: nat, n: Node, h: Hash)
    requires PromptRun(w, run, h) && i < |run| && FaultyBelow(w) && h != w.k.empty && n in w.honest
    ensures n in run[i].locals && OwnSteps(run, i, n) == Place(run[i].locals[n]) <= 12
    ensures OwnSteps(run, i, n) == 12 <==> FinalOn(w, run[i], n, h)
  {
    PromptRunIsGood(w, run, i, h);
    TrackEnds(run[i].locals[n], h);
    if i > 0 {
      TwelveSteps(w, run, i - 1, n, h);
      PromptRunIsGood(w, run, i - 1, h);
      assert PromptNext(w, run[i - 1], run[i], h);
      OwnStep(w, run[i - 1], run[i], n, h);
    }
  }

  /** Its place moves exactly when the node does. */
  lemma OwnStep(w: World, s: State, s': State, n: Node, h: Hash)
    requires Good(w, s, h) && Good(w, s', h) && FaultyBelow(w) && h != w.k.empty && n in w.honest
    requires PromptNext(w, s, s', h)
    ensures Place(s'.locals[n]) == Place(s.locals[n]) + if s.locals[n] != s'.locals[n] then 1 else 0
  {
    hide FaultyBelow, OnTrack, Place, Shape, Step, Possible, VoteSet;
    if !FaultyStep(w, s, s') {
      var m, i :| Prompt(w, s, s', m, i, h);
      GoodPrompt(w, s, s', m, i, h);
    }
  }

  // ---------- why all count h first ----------

  /** A run without timeouts. */
  ghost predicate TimelyNext(w: World, s: State, s': State) {
    FaultyStep(w, s, s') || exists n, i :: Timely(w, s, s', n, i)
  }

  ghost predicate TimelyRun(w: World, run: seq<State>) {
    && |run| > 0 && Init(w, run[0])
    && forall i :: 0 <= i < |run| - 1 ==> TimelyNext(w, run[i], run[i + 1])
  }

  lemma PromptIsRun(w: World, run: seq<State>, h: Hash)
    requires PromptRun(w, run, h)
    ensures Run(w, run)
  {
    hide Init, HonestStep, FaultyStep;
    forall i | 0 <= i < |run| - 1 ensures Next(w, run[i], run[i + 1]) {
      assert PromptNext(w, run[i], run[i + 1], h);
    }
  }

  lemma TimelyIsRun(w: World, run: seq<State>)
    requires TimelyRun(w, run)
    ensures Run(w, run)
  {
    hide Init, HonestStep, FaultyStep;
    forall i | 0 <= i < |run| - 1 ensures Next(w, run[i], run[i + 1]) {
      assert TimelyNext(w, run[i], run[i + 1]);
    }
  }

  /** Blocks stay what they are, and honest nodes vote for their own in the first reduction step. */
  ghost predicate Own(w: World, s0: State, s: State) {
    && s.locals.Keys == s0.locals.Keys
    && (forall n :: n in s.locals ==> s.locals[n].block == s0.locals[n].block)
    && (forall v :: v in s.sent && v.node in w.honest && v.step == REDUCTION_ONE ==>
                      v.node in s.locals && v.hash == s.locals[v.node].block)
  }

  lemma OwnStays(w: World, s0: State, s: State, s': State)
    requires Sane(w, s) && Own(w, s0, s) && Next(w, s, s')
    ensures Own(w, s0, s')
  {
    hide Possible;
    if !FaultyStep(w, s, s') {
      var n, i :| HonestStep(w, s, s', n, i);
      assert Shape(s.locals[n]);
      OwnLocal(w, n, s.locals[n], i);
      hide Shape, Step, VoteSet;
    }
  }

  lemma OwnLocal(w: World, n: Node, l: Local, i: Input)
    requires Active(l) && Shape(l)
    ensures Step(w.k, l, i).block == l.block
    ensures forall v :: v in VoteSet(w, n, l) && v.step == REDUCTION_ONE ==> v.node == n && v.hash == l.block
  {
  }

  lemma {:induction false} RunOwns(w: World, run: seq<State>, i: nat)
    requires Run(w, run) && i < |run|
    ensures Own(w, run[0], run[i])
  {
    hide Next, Basic, Own;
    if i == 0 {
      NothingOwned(w, run[0]);
    } else {
      RunOwns(w, run, i - 1);
      RunIsBasic(w, run, i - 1);
      BasicIsSane(w, run[i - 1]);
      hide Init, Sane;
      OwnStays(w, run[0], run[i - 1], run[i]);
    }
  }

  lemma BasicIsSane(w: World, s: State)
    requires Basic(w, s)
    ensures Sane(w, s)
  {
  }

  lemma NothingOwned(w: World, s: State)
    requires Init(w, s)
    ensures Own(w, s, s)
  {
  }

  lemma BlocksStay(w: World, run: seq<State>, i: nat, h: Hash)
    requires Run(w, run) && i < |run|
    ensures BlockSuffices(w, run[0], h) ==> BlockSuffices(w, run[i], h)
  {
    RunOwns(w, run, i);
    hide Run;
    if BlockSuffices(w, run[0], h) {
      forall n | n in w.honest
        ensures Weigh(Backers(w, run[i], h, n), w.weight(REDUCTION_ONE)) >= Threshold(REDUCTION_ONE)
      {
        assert Backers(w, run[i], h, n) == Backers(w, run[0], h, n);
      }
    }
  }

  /** All honest nodes have the block h. */
  ghost predicate OneBlock(w: World, s: State, h: Hash) {
    forall n :: n in w.honest && n in s.locals ==> s.locals[n].block == h
  }

  /** If all honest nodes have the block h, a quorum of the first reduction step is for h. */
  lemma OneBlockIsCounted(w: World, s0: State, s: State, h: Hash, x: Hash)
    requires Sane(w, s) && Own(w, s0, s) && FaultyBelow(w) && OneBlock(w, s0, h)
    requires Quorum(w, s.sent, REDUCTION_ONE, x)
    ensures x == h
  {
    hide Quorum, FaultyBelow, Shape;
    var v := HonestBehind(w, s, REDUCTION_ONE, x);
  }

  /** If enough of them have it, there is no room for another quorum. */
  lemma PopularBlockIsCounted(w: World, s0: State, s: State, h: Hash, x: Hash)
    requires Sane(w, s) && Own(w, s0, s) && OneQuorumAt(w, REDUCTION_ONE) && BlockSuffices(w, s, h) && w.honest != {}
    requires Quorum(w, s.sent, REDUCTION_ONE, x)
    ensures x == h
  {
    hide Shape, Threshold;
    var u := w.weight(REDUCTION_ONE);
    var n :| n in w.honest;
    var b := Backers(w, s, h, n);
    WeighPart(w.honest, b, u);
    WeighUnion(w.honest - b, w.faulty, u);
    if x != h {
      BackersVoteOtherwise(w, s0, s, h, x, n);
      WeighSubset(Voters(s.sent, REDUCTION_ONE, x), (w.honest - b) + w.faulty, u);
    }
  }

  lemma BackersVoteOtherwise(w: World, s0: State, s: State, h: Hash, x: Hash, n: Node)
    requires Sane(w, s) && Own(w, s0, s) && x != h
    ensures Voters(s.sent, REDUCTION_ONE, x) <= (w.honest - Backers(w, s, h, n)) + w.faulty
  {
    hide Shape;
    forall m | m in Voters(s.sent, REDUCTION_ONE, x) ensures m in (w.honest - Backers(w, s, h, n)) + w.faulty {
      var v :| v in s.sent && v.step == REDUCTION_ONE && v.hash == x && v.node == m;
    }
  }

  /** Enough honest nodes have the block h, or all have it. */
  ghost predicate Favoured(w: World, s: State, h: Hash) {
    OneBlock(w, s, h) || (BlockSuffices(w, s, h) && OneQuorumAt(w, REDUCTION_ONE))
  }

  lemma FavouredIsCounted(w: World, run: seq<State>, i: nat, h: Hash, x: Hash)
    requires Run(w, run) && i < |run| && FaultyBelow(w) && Favoured(w, run[0], h) && w.honest != {}
    requires Quorum(w, run[i].sent, REDUCTION_ONE, x)
    ensures x == h
  {
    hide Run, Quorum, FaultyBelow, OneQuorumAt, BlockSuffices, OneBlock, Sane, Own, Recorded, Single;
    RunOwns(w, run, i);
    RunIsBasic(w, run, i);
    if OneBlock(w, run[0], h) {
      OneBlockIsCounted(w, run[0], run[i], h, x);
    } else {
      BlocksStay(w, run, i, h);
      PopularBlockIsCounted(w, run[0], run[i], h, x);
    }
  }

  /** In a run without timeouts they all count h first. */
  lemma TimelyIsPrompt(w: World, run: seq<State>, h: Hash)
    requires TimelyRun(w, run) && FaultyBelow(w) && Favoured(w, run[0], h)
    ensures PromptRun(w, run, h)
  {
    TimelyIsRun(w, run);
    hide Run, Init, FaultyBelow, Favoured, FaultyStep, Timely;
    forall i | 0 <= i < |run| - 1 ensures PromptNext(w, run[i], run[i + 1], h) {
      assert TimelyNext(w, run[i], run[i + 1]);
      if !FaultyStep(w, run[i], run[i + 1]) {
        var n, j :| Timely(w, run[i], run[i + 1], n, j);
        TimelyCount(w, run, i, n, j, h);
      }
    }
  }

  lemma TimelyCount(w: World, run: seq<State>, i: nat, n: Node, j: Input, h: Hash)
    requires Run(w, run) && i + 1 < |run| && FaultyBelow(w) && Favoured(w, run[0], h)
    requires Timely(w, run[i], run[i + 1], n, j)
    ensures Prompt(w, run[i], run[i + 1], n, j, h)
  {
    hide Run, FaultyBelow, Favoured, Quorum, Step, VoteSet;
    if run[i].locals[n].pc == CountOne {
      FavouredIsCounted(w, run, i, h, j.counted.value);
    }
  }

  /**
   So without timeouts a block that all honest nodes start with, or so many that the first reduction step counts no
   other, is the FINAL result of every honest node that has ended; and some node can go on until all have it.
   */
  lemma GoodCaseOfFavoured(w: World, run: seq<State>, i: nat, h: Hash)
    requires TimelyRun(w, run) && i < |run| && FaultyBelow(w) && Favoured(w, run[0], h) && h != w.k.empty
    ensures forall n :: n in w.honest ==> n in run[i].locals
    ensures forall n :: n in w.honest && !Active(run[i].locals[n]) ==> FinalOn(w, run[i], n, h)
    ensures HonestSuffice(w) ==> CanGoOn(w, run[i], h) || AllFinal(w, run[i], h)
  {
    hide FaultyBelow, Favoured, HonestSuffice, CanGoOn, AllFinal, PromptRun;
    TimelyIsPrompt(w, run, h);
    GoodCase(w, run, i, h);
    if HonestSuffice(w) {
      FavouredSuffices(w, run[0], h);
    }
  }

  lemma FavouredSuffices(w: World, s: State, h: Hash)
    requires Init(w, s) && HonestSuffice(w) && Favoured(w, s, h)
    ensures BlockSuffices(w, s, h)
  {
    hide Threshold;
    if OneBlock(w, s, h) {
      forall n | n in w.honest
        ensures Weigh(Backers(w, s, h, n), w.weight(REDUCTION_ONE)) >= Threshold(REDUCTION_ONE)
      {
        assert Backers(w, s, h, n) == w.honest - {n};
      }
    }
  }
}
