/**
 BA* of algorand.go as a step machine: what a node does between two calls of committeeVote or countVotes, and
 the runs of many nodes over one set of sent votes. Delivery is arbitrary: a count may see any part of what was
 sent, or time out. The coin is an arbitrary bit.
 */
module Agreement {
  import opened Options
  import opened Words
  import opened Votes
  import opened WeightedSets

  type Node = seq<byte>

  const MAXSTEPS := 150
  const REDUCTION_ONE := 1001
  const REDUCTION_TWO := 1002
  const FINAL := 1003

  datatype Vote = Vote(node: Node, step: int, hash: Hash)

  /** The committee size times the threshold fraction, cut to an integer: 10 * 0.685 and 20 * 0.74. */
  function Threshold(step: int): (t: nat)
    ensures t == (if step == FINAL then 14 else 6)
  {
    if step == FINAL then 20 * 74 / 100 else 10 * 685 / 1000
  }

  // ---------- one node ----------

  datatype Phase = First | Second | Coin

  datatype Pc =
    | VoteOne | CountOne | VoteTwo | CountTwo
    | VoteIn(phase: Phase) | CountIn(phase: Phase)
    | Ahead(next: int) | VoteFinal | CountFinal
    | Done(final: bool) | Hung

  /** block is what BA was called with, hash what reduction returned, r and step the variables of binaryBA. */
  datatype Local = Local(pc: Pc, block: Hash, hash: Hash, r: Hash, step: int)

  /** The outcome of a count (None on timeout) and of the coin. */
  datatype Input = Input(counted: Option<Hash>, coin: bool)

  datatype Hashes = Hashes(empty: Hash, zero: Hash)

  predicate Active(l: Local) {
    !l.pc.Done? && !l.pc.Hung?
  }

  function Or(o: Option<Hash>, h: Hash): Hash {
    match o
    case Some(x) => x
    case None => h
  }

  /** The vote that the node sends now, if it is about to. */
  function Sends(l: Local): Option<(int, Hash)> {
    match l.pc
    case VoteOne => Some((REDUCTION_ONE, l.block))
    case VoteTwo => Some((REDUCTION_TWO, l.r))
    case VoteIn(phase) => if phase == First && l.step >= MAXSTEPS then None else Some((l.step, l.r))
    case Ahead(next) => if next <= l.step + 3 then Some((next, l.r)) else None
    case VoteFinal => Some((FINAL, l.r))
    case _ => None
  }

  /** The step whose votes the node counts now, if it is about to. */
  function Counts(l: Local): Option<int> {
    match l.pc
    case CountOne => Some(REDUCTION_ONE)
    case CountTwo => Some(REDUCTION_TWO)
    case CountIn(_) => Some(l.step)
    case CountFinal => Some(FINAL)
    case _ => None
  }

  /** Where the node goes. There is no step++ after the coin: the next iteration reuses the number. */
  function Step(k: Hashes, l: Local, i: Input): Local
    requires Active(l)
  {
    match l.pc
    case VoteOne => l.(pc := CountOne)
    case CountOne => l.(pc := VoteTwo, r := Or(i.counted, k.empty))
    case VoteTwo => l.(pc := CountTwo)
    case CountTwo => var h := Or(i.counted, k.empty); l.(pc := VoteIn(First), hash := h, r := h, step := 1)
    case VoteIn(phase) => if phase == First && l.step >= MAXSTEPS then l.(pc := Hung) else l.(pc := CountIn(phase))
    case CountIn(First) =>
      if i.counted.None? then l.(pc := VoteIn(Second), r := l.hash, step := l.step + 1)
      else if i.counted.value != k.empty then l.(pc := Ahead(l.step + 1), r := i.counted.value)
      else l.(pc := VoteIn(Second), r := i.counted.value, step := l.step + 1)
    case CountIn(Second) =>
      if i.counted.None? then l.(pc := VoteIn(Coin), r := k.empty, step := l.step + 1)
      else if i.counted.value == k.empty then l.(pc := Ahead(l.step + 1), r := i.counted.value)
      else l.(pc := VoteIn(Coin), r := i.counted.value, step := l.step + 1)
    case CountIn(Coin) => l.(pc := VoteIn(First), r := Or(i.counted, if i.coin then k.empty else l.hash))
    case Ahead(next) =>
      if next <= l.step + 3 then l.(pc := Ahead(next + 1))
      else l.(pc := if l.step == 1 then VoteFinal else CountFinal)
    case VoteFinal => l.(pc := CountFinal)
    case CountFinal => l.(pc := Done(Or(i.counted, k.zero) == l.r))
  }

  /** Whether binaryBA has returned; its result is r. */
  predicate Returned(l: Local) {
    l.pc.Ahead? || l.pc.VoteFinal? || l.pc.CountFinal? || l.pc.Done?
  }

  // ---------- many nodes ----------

  datatype World = World(honest: set<Node>, faulty: set<Node>, weight: int -> Node -> nat, k: Hashes)

  datatype State = State(sent: set<Vote>, locals: map<Node, Local>)

  ghost function Voters(sent: set<Vote>, step: int, x: Hash): set<Node> {
    set v | v in sent && v.step == step && v.hash == x :: v.node
  }

  /** The voters for x reach the threshold of the step. */
  ghost predicate Quorum(w: World, sent: set<Vote>, step: int, x: Hash) {
    Weigh(Voters(sent, step, x), w.weight(step)) >= Threshold(step)
  }

  ghost predicate Possible(w: World, sent: set<Vote>, l: Local, i: Input) {
    Counts(l).Some? && i.counted.Some? ==> Quorum(w, sent, Counts(l).value, i.counted.value)
  }

  ghost predicate Init(w: World, s: State) {
    && w.honest !! w.faulty && s.sent == {} && s.locals.Keys == w.honest
    && w.k.empty != w.k.zero
    && forall n :: n in w.honest ==> s.locals[n].pc == VoteOne && s.locals[n].block != w.k.zero
  }

  /** committeeVote: the vote goes out if sortition gives the node some sub-users in the step. */
  function VoteSet(w: World, n: Node, l: Local): set<Vote> {
    match Sends(l)
    case Some(v) => if w.weight(v.0)(n) > 0 then {Vote(n, v.0, v.1)} else {}
    case None => {}
  }

  /** The honest node n takes a step. */
  ghost predicate HonestStep(w: World, s: State, s': State, n: Node, i: Input) {
    && n in w.honest && n in s.locals && Active(s.locals[n]) && Possible(w, s.sent, s.locals[n], i)
    && s'.sent == s.sent + VoteSet(w, n, s.locals[n])
    && s'.locals == s.locals[n := Step(w.k, s.locals[n], i)]
  }

  /** Faulty nodes send whatever they like, as themselves. */
  ghost predicate FaultyStep(w: World, s: State, s': State) {
    && s'.locals == s.locals && s.sent <= s'.sent
    && forall v :: v in s'.sent && v !in s.sent ==> v.node in w.faulty
  }

  ghost predicate Next(w: World, s: State, s': State) {
    FaultyStep(w, s, s') || exists n, i :: HonestStep(w, s, s', n, i)
  }

  /** Any interleaving of the nodes' steps. */
  ghost predicate Run(w: World, run: seq<State>) {
    && |run| > 0 && Init(w, run[0])
    && forall i :: 0 <= i < |run| - 1 ==> Next(w, run[i], run[i + 1])
  }

  // ---------- the length of a node's program ----------

  /** A node's own steps are numbered downwards. */
  function Remaining(l: Local): int {
    var left := 3 * (MAXSTEPS + 1 - l.step);
    match l.pc
    case VoteOne => 500
    case CountOne => 499
    case VoteTwo => 498
    case CountTwo => 497
    case VoteIn(First) => left + 14
    case CountIn(First) => left + 13
    case VoteIn(Second) => left + 15
    case CountIn(Second) => left + 14
    case VoteIn(Coin) => left + 16
    case CountIn(Coin) => left + 15
    case Ahead(next) => 4 + (l.step + 4 - next)
    case VoteFinal => 3
    case CountFinal => 2
    case Done(_) => 0
    case Hung => 0
  }

  /** Which numbers the variables of binaryBA take at each place. */
  predicate Shape(l: Local) {
    match l.pc
    case VoteIn(First) => 1 <= l.step <= MAXSTEPS + 1 && l.step % 2 == 1
    case CountIn(First) => 1 <= l.step < MAXSTEPS && l.step % 2 == 1
    case VoteIn(Second) => 2 <= l.step <= MAXSTEPS && l.step % 2 == 0
    case CountIn(Second) => 2 <= l.step <= MAXSTEPS && l.step % 2 == 0
    case VoteIn(Coin) => 3 <= l.step <= MAXSTEPS + 1 && l.step % 2 == 1
    case CountIn(Coin) => 3 <= l.step <= MAXSTEPS + 1 && l.step % 2 == 1
    case Ahead(next) => 1 <= l.step <= MAXSTEPS && l.step + 1 <= next <= l.step + 4
    case VoteFinal => l.step == 1
    case CountFinal => 1 <= l.step <= MAXSTEPS
    case Done(_) => 1 <= l.step <= MAXSTEPS
    case Hung => l.step == MAXSTEPS + 1
    case _ => true
  }

  lemma ShapeKept(k: Hashes, l: Local, i: Input)
    requires Active(l) && Shape(l)
    ensures Shape(Step(k, l, i))
  {
  }

  /** A node takes at most 500 steps of its own: it returns or hangs, whatever the others do. */
  lemma NodeTerminates(k: Hashes, l: Local, i: Input)
    requires Active(l) && Shape(l)
    ensures 0 <= Remaining(Step(k, l, i)) < Remaining(l) <= 500
  {
  }
}
