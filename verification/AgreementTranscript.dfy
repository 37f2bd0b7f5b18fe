/**
 What BA sends and returns, written out in terms of its counts and coins alone. Call 2i is a vote and call 2i + 1 the
 count of its step: calls 0 to 3 are the reduction, and calls 6i + 4 to 6i + 9 the three steps of iteration i.
 */
module AgreementTranscript {
  import opened Options
  import opened Votes
  import opened Agreement
  import opened AgreementProgram

  /** A vote goes out if sortition gives the node some sub-users in the step. */
  function Cast(me: Node, subUsers: int -> nat, step: int, x: Hash): seq<Vote> {
    if subUsers(step) > 0 then [Vote(me, step, x)] else []
  }

  // ---------- the reference ----------

  /** What reduction returns: the hash counted in the second step, or the empty hash. */
  ghost function Output(k: Hashes, o: nat -> Input): Hash {
    Or(o(3).counted, k.empty)
  }

  /** The hash of the first step of iteration i: the output, or what the coin step of the last iteration gave. */
  ghost function FirstHash(k: Hashes, o: nat -> Input, i: nat): Hash {
    if i == 0 then Output(k, o)
    else
      var coin := o(6 * i + 3);
      Or(coin.counted, if coin.coin then k.empty else Output(k, o))
  }

  /** Iteration i decides on a block in its first step, or on the empty block in its second. */
  ghost predicate DecidesFirst(k: Hashes, o: nat -> Input, i: nat) {
    o(6 * i + 5).counted.Some? && o(6 * i + 5).counted.value != k.empty
  }

  ghost predicate DecidesSecond(k: Hashes, o: nat -> Input, i: nat) {
    !DecidesFirst(k, o, i) && o(6 * i + 7).counted == Some(k.empty)
  }

  ghost predicate Continues(k: Hashes, o: nat -> Input, i: nat) {
    !DecidesFirst(k, o, i) && !DecidesSecond(k, o, i)
  }

  /** No iteration before i decides. */
  ghost predicate Open(k: Hashes, o: nat -> Input, i: nat) {
    forall j: nat :: j < i ==> Continues(k, o, j)
  }

  /** The votes of the first two steps of iteration i. */
  ghost function FirstVotes(me: Node, k: Hashes, o: nat -> Input, u: int -> nat, i: nat): seq<Vote> {
    Cast(me, u, 2 * i + 1, FirstHash(k, o, i))
  }

  ghost function SecondVotes(me: Node, k: Hashes, o: nat -> Input, u: int -> nat, i: nat): seq<Vote> {
    Cast(me, u, 2 * i + 2, Or(o(6 * i + 5).counted, Output(k, o)))
  }

  /** The vote of the coin step of an iteration that does not decide. */
  ghost function CoinVotes(me: Node, k: Hashes, o: nat -> Input, u: int -> nat, i: nat): seq<Vote> {
    Cast(me, u, 2 * i + 3, Or(o(6 * i + 7).counted, k.empty))
  }

  /** The votes for the three steps after the one that decided. */
  ghost function AheadVotes(me: Node, u: int -> nat, step: int, x: Hash): seq<Vote> {
    Cast(me, u, step + 1, x) + Cast(me, u, step + 2, x) + Cast(me, u, step + 3, x)
  }

  /** All votes before iteration i, if no iteration before it decides. */
  ghost function VotesBefore(me: Node, k: Hashes, o: nat -> Input, u: int -> nat, block: Hash, i: nat): seq<Vote> {
    if i == 0 then Cast(me, u, REDUCTION_ONE, block) + Cast(me, u, REDUCTION_TWO, Or(o(1).counted, k.empty))
    else
      VotesBefore(me, k, o, u, block, i - 1) + FirstVotes(me, k, o, u, i - 1) + SecondVotes(me, k, o, u, i - 1)
      + CoinVotes(me, k, o, u, i - 1)
  }

  // ---------- single calls ----------

  lemma OneCall(me: Node, k: Hashes, o: nat -> Input, u: int -> nat, l: Local, n: nat)
    requires Active(Exec(k, o, l, n))
    ensures var m := Exec(k, o, l, n);
            && Exec(k, o, l, n + 1) == Step(k, m, o(n))
            && SentBy(me, k, o, u, l, n + 1)
               == SentBy(me, k, o, u, l, n)
                  + if Sends(m).Some? then Cast(me, u, Sends(m).value.0, Sends(m).value.1) else []
  {
    hide Step, Sends;
  }

  lemma VoteAndCount(me: Node, k: Hashes, o: nat -> Input, u: int -> nat, l: Local, n: nat, m: Local)
    requires Exec(k, o, l, n) == m && m.pc.VoteIn? && m.step < MAXSTEPS + 2
    requires m.pc == VoteIn(First) ==> m.step < MAXSTEPS
    ensures Exec(k, o, l, n + 2) == Step(k, m.(pc := CountIn(m.pc.phase)), o(n + 1))
    ensures SentBy(me, k, o, u, l, n + 2) == SentBy(me, k, o, u, l, n) + Cast(me, u, m.step, m.r)
  {
    hide Exec, SentBy, Cast;
    OneCall(me, k, o, u, l, n);
    OneCall(me, k, o, u, l, n + 1);
  }

  lemma ThreeAhead(me: Node, k: Hashes, o: nat -> Input, u: int -> nat, l: Local, n: nat, m: Local)
    requires Exec(k, o, l, n) == m && m.pc == Ahead(m.step + 1)
    ensures Exec(k, o, l, n + 4) == m.(pc := if m.step == 1 then VoteFinal else CountFinal)
    ensures SentBy(me, k, o, u, l, n + 4) == SentBy(me, k, o, u, l, n) + AheadVotes(me, u, m.step, m.r)
  {
    hide Exec, SentBy, Cast;
    OneCall(me, k, o, u, l, n);
    OneCall(me, k, o, u, l, n + 1);
    OneCall(me, k, o, u, l, n + 2);
    OneCall(me, k, o, u, l, n + 3);
  }

  /** The FINAL vote and the FINAL count. */
  lemma Ending(me: Node, k: Hashes, o: nat -> Input, u: int -> nat, l: Local, n: nat, m: Local)
    requires Exec(k, o, l, n) == m && m.pc == CountFinal
    ensures Exec(k, o, l, n + 1) == m.(pc := Done(Or(o(n).counted, k.zero) == m.r))
    ensures SentBy(me, k, o, u, l, n + 1) == SentBy(me, k, o, u, l, n)
  {
    hide Exec, SentBy, Cast;
    OneCall(me, k, o, u, l, n);
  }

  lemma VoteForFinal(me: Node, k: Hashes, o: nat -> Input, u: int -> nat, l: Local, n: nat, m: Local)
    requires Exec(k, o, l, n) == m && m.pc == VoteFinal
    ensures Exec(k, o, l, n + 1) == m.(pc := CountFinal)
    ensures SentBy(me, k, o, u, l, n + 1) == SentBy(me, k, o, u, l, n) + Cast(me, u, FINAL, m.r)
  {
    hide Exec, SentBy, Cast;
    OneCall(me, k, o, u, l, n);
  }

  /** After the end nothing happens. */
  lemma {:induction false} AtRest(me: Node, k: Hashes, o: nat -> Input, u: int -> nat, l: Local, n: nat, j: nat)
    requires !Active(Exec(k, o, l, n))
    ensures Exec(k, o, l, n + j) == Exec(k, o, l, n)
    ensures SentBy(me, k, o, u, l, n + j) == SentBy(me, k, o, u, l, n)
  {
    hide Step;
    if j > 0 {
      AtRest(me, k, o, u, l, n, j - 1);
      assert Sends(Exec(k, o, l, n)) == None;
    }
  }

  // ---------- from the counts to the votes ----------

  /** Both reduction steps. */
  lemma ReductionVotes(me: Node, k: Hashes, o: nat -> Input, u: int -> nat, l: Local)
    requires l.pc == VoteOne
    ensures Exec(k, o, l, 4) == Local(VoteIn(First), l.block, Output(k, o), Output(k, o), 1)
    ensures SentBy(me, k, o, u, l, 4)
            == Cast(me, u, REDUCTION_ONE, l.block) + Cast(me, u, REDUCTION_TWO, Or(o(1).counted, k.empty))
  {
    Nothing(me, k, o, u, l);
    hide Exec, SentBy, Cast;
    OneCall(me, k, o, u, l, 0);
    OneCall(me, k, o, u, l, 1);
    OneCall(me, k, o, u, l, 2);
    OneCall(me, k, o, u, l, 3);
  }

  lemma Nothing(me: Node, k: Hashes, o: nat -> Input, u: int -> nat, l: Local)
    ensures Exec(k, o, l, 0) == l && SentBy(me, k, o, u, l, 0) == []
  {
  }

  /** The node is at the start of iteration i, after exactly the votes that the counts so far ask for. */
  ghost predicate Starts(me: Node, k: Hashes, o: nat -> Input, u: int -> nat, l: Local, i: nat) {
    && Exec(k, o, l, 6 * i + 4) == Local(VoteIn(First), l.block, Output(k, o), FirstHash(k, o, i), 2 * i + 1)
    && SentBy(me, k, o, u, l, 6 * i + 4) == VotesBefore(me, k, o, u, l.block, i)
  }

  /** The first step of an iteration that does not decide there. */
  lemma FirstStepPassed(me: Node, k: Hashes, o: nat -> Input, u: int -> nat, l: Local, i: nat)
    requires Starts(me, k, o, u, l, i) && i < 75 && !DecidesFirst(k, o, i)
    ensures Exec(k, o, l, 6 * i + 6)
            == Local(VoteIn(Second), l.block, Output(k, o), Or(o(6 * i + 5).counted, Output(k, o)), 2 * i + 2)
    ensures SentBy(me, k, o, u, l, 6 * i + 6) == VotesBefore(me, k, o, u, l.block, i) + FirstVotes(me, k, o, u, i)
  {
    hide Exec, SentBy, Cast, FirstHash, Output, VotesBefore;
    VoteAndCount(me, k, o, u, l, 6 * i + 4, Exec(k, o, l, 6 * i + 4));
  }

  lemma SecondStepPassed(me: Node, k: Hashes, o: nat -> Input, u: int -> nat, l: Local, i: nat)
    requires Starts(me, k, o, u, l, i) && i < 75 && Continues(k, o, i)
    ensures Exec(k, o, l, 6 * i + 8)
            == Local(VoteIn(Coin), l.block, Output(k, o), Or(o(6 * i + 7).counted, k.empty), 2 * i + 3)
    ensures SentBy(me, k, o, u, l, 6 * i + 8)
            == VotesBefore(me, k, o, u, l.block, i) + FirstVotes(me, k, o, u, i) + SecondVotes(me, k, o, u, i)
  {
    hide Exec, SentBy, Cast, FirstHash, Output, VotesBefore, Starts, FirstVotes;
    FirstStepPassed(me, k, o, u, l, i);
    VoteAndCount(me, k, o, u, l, 6 * i + 6, Exec(k, o, l, 6 * i + 6));
  }

  lemma IterationPassed(me: Node, k: Hashes, o: nat -> Input, u: int -> nat, l: Local, i: nat)
    requires Starts(me, k, o, u, l, i) && i < 75 && Continues(k, o, i)
    ensures Starts(me, k, o, u, l, i + 1)
  {
    hide Exec, SentBy, Cast, Output, Starts, FirstVotes, SecondVotes, FirstHash, VotesBefore, Continues, Or;
    SecondStepPassed(me, k, o, u, l, i);
    OneMoreIteration(me, k, o, u, l.block, i);
    CoinStep(me, k, o, u, l, 6 * i + 8, Exec(k, o, l, 6 * i + 8));
    StartsIs(me, k, o, u, l, i + 1);
  }

  lemma CoinStep(me: Node, k: Hashes, o: nat -> Input, u: int -> nat, l: Local, n: nat, m: Local)
    requires Exec(k, o, l, n) == m && m.pc == VoteIn(Coin) && m.step < MAXSTEPS + 2
    ensures Exec(k, o, l, n + 2)
            == m.(pc := VoteIn(First), r := Or(o(n + 1).counted, if o(n + 1).coin then k.empty else m.hash))
    ensures SentBy(me, k, o, u, l, n + 2) == SentBy(me, k, o, u, l, n) + Cast(me, u, m.step, m.r)
  {
    VoteAndCount(me, k, o, u, l, n, m);
  }

  lemma OneMoreIteration(me: Node, k: Hashes, o: nat -> Input, u: int -> nat, block: Hash, i: nat)
    ensures VotesBefore(me, k, o, u, block, i + 1)
            == VotesBefore(me, k, o, u, block, i) + FirstVotes(me, k, o, u, i) + SecondVotes(me, k, o, u, i)
               + CoinVotes(me, k, o, u, i)
    ensures FirstHash(k, o, i + 1)
            == Or(o(6 * i + 9).counted, if o(6 * i + 9).coin then k.empty else Output(k, o))
  {
    hide Cast, Output, FirstVotes, SecondVotes, CoinVotes;
  }

  lemma StartsIs(me: Node, k: Hashes, o: nat -> Input, u: int -> nat, l: Local, i: nat)
    requires Exec(k, o, l, 6 * i + 4) == Local(VoteIn(First), l.block, Output(k, o), FirstHash(k, o, i), 2 * i + 1)
    requires SentBy(me, k, o, u, l, 6 * i + 4) == VotesBefore(me, k, o, u, l.block, i)
    ensures Starts(me, k, o, u, l, i)
  {
    hide Exec, SentBy, VotesBefore;
  }

  lemma {:induction false} OpenStarts(me: Node, k: Hashes, o: nat -> Input, u: int -> nat, l: Local, i: nat)
    requires l.pc == VoteOne && i <= 75 && Open(k, o, i)
    ensures Starts(me, k, o, u, l, i)
  {
    hide Exec, SentBy, Cast, Continues;
    if i == 0 {
      ReductionVotes(me, k, o, u, l);
    } else {
      hide Starts;
      OpenStarts(me, k, o, u, l, i - 1);
      IterationPassed(me, k, o, u, l, i - 1);
    }
  }

  // ---------- decisions ----------

  /** The last call of a node that decided in iteration i: the FINAL count. */
  ghost function FinalCall(k: Hashes, o: nat -> Input, i: nat): nat {
    if DecidesSecond(k, o, i) then 6 * i + 12 else if i == 0 then 11 else 6 * i + 10
  }

  /** The hash decided on, and the votes from there to the end. */
  ghost function Decision(k: Hashes, o: nat -> Input, i: nat): Hash {
    if DecidesFirst(k, o, i) then o(6 * i + 5).counted.value else k.empty
  }

  ghost function LastVotes(me: Node, k: Hashes, o: nat -> Input, u: int -> nat, i: nat): seq<Vote> {
    var x := Decision(k, o, i);
    if DecidesFirst(k, o, i) then
      FirstVotes(me, k, o, u, i) + AheadVotes(me, u, 2 * i + 1, x) + if i == 0 then Cast(me, u, FINAL, x) else []
    else
      FirstVotes(me, k, o, u, i) + SecondVotes(me, k, o, u, i) + AheadVotes(me, u, 2 * i + 2, x)
  }

  /** The node has ended, after exactly these votes. */
  ghost predicate Ends(me: Node, k: Hashes, o: nat -> Input, u: int -> nat, l: Local, i: nat, n: nat) {
    && (var e := Exec(k, o, l, n);
        && e.pc == Done(Or(o(FinalCall(k, o, i)).counted, k.zero) == Decision(k, o, i)) && e.r == Decision(k, o, i))
    && SentBy(me, k, o, u, l, n) == VotesBefore(me, k, o, u, l.block, i) + LastVotes(me, k, o, u, i)
  }

  lemma DecidedFirst(me: Node, k: Hashes, o: nat -> Input, u: int -> nat, l: Local, i: nat)
    requires Starts(me, k, o, u, l, i) && i < 75 && DecidesFirst(k, o, i)
    ensures var x := Decision(k, o, i);
            && Exec(k, o, l, 6 * i + 6) == Local(Ahead(2 * i + 2), l.block, Output(k, o), x, 2 * i + 1)
            && SentBy(me, k, o, u, l, 6 * i + 6)
               == VotesBefore(me, k, o, u, l.block, i) + FirstVotes(me, k, o, u, i)
  {
    hide Exec, SentBy, Cast, FirstHash, Output, VotesBefore;
    VoteAndCount(me, k, o, u, l, 6 * i + 4, Exec(k, o, l, 6 * i + 4));
  }

  lemma DecidedSecond(me: Node, k: Hashes, o: nat -> Input, u: int -> nat, l: Local, i: nat)
    requires Starts(me, k, o, u, l, i) && i < 75 && DecidesSecond(k, o, i)
    ensures Exec(k, o, l, 6 * i + 8) == Local(Ahead(2 * i + 3), l.block, Output(k, o), k.empty, 2 * i + 2)
    ensures SentBy(me, k, o, u, l, 6 * i + 8)
            == VotesBefore(me, k, o, u, l.block, i) + FirstVotes(me, k, o, u, i) + SecondVotes(me, k, o, u, i)
  {
    hide Exec, SentBy, Cast, FirstHash, Output, VotesBefore, Starts, FirstVotes;
    FirstStepPassed(me, k, o, u, l, i);
    VoteAndCount(me, k, o, u, l, 6 * i + 6, Exec(k, o, l, 6 * i + 6));
  }

  lemma FirstEnds(me: Node, k: Hashes, o: nat -> Input, u: int -> nat, l: Local, i: nat)
    requires Starts(me, k, o, u, l, i) && i < 75 && DecidesFirst(k, o, i)
    ensures Ends(me, k, o, u, l, i, FinalCall(k, o, i) + 1)
  {
    hide Exec, SentBy, Cast, FirstHash, Output, VotesBefore, Starts, FirstVotes, AheadVotes, Decision, Or, SecondVotes;
    DecidedFirst(me, k, o, u, l, i);
    ThreeAhead(me, k, o, u, l, 6 * i + 6, Exec(k, o, l, 6 * i + 6));
    var m := Exec(k, o, l, 6 * i + 10);
    if i == 0 {
      VoteForFinal(me, k, o, u, l, 10, m);
      Ending(me, k, o, u, l, 11, m.(pc := CountFinal));
    } else {
      Ending(me, k, o, u, l, 6 * i + 10, m);
    }
  }

  lemma SecondEnds(me: Node, k: Hashes, o: nat -> Input, u: int -> nat, l: Local, i: nat)
    requires Starts(me, k, o, u, l, i) && i < 75 && DecidesSecond(k, o, i)
    ensures Ends(me, k, o, u, l, i, FinalCall(k, o, i) + 1)
  {
    hide Exec, SentBy, Cast, FirstHash, Output, VotesBefore, Starts, FirstVotes, AheadVotes, Or, SecondVotes;
    DecidedSecond(me, k, o, u, l, i);
    ThreeAhead(me, k, o, u, l, 6 * i + 8, Exec(k, o, l, 6 * i + 8));
    Ending(me, k, o, u, l, 6 * i + 12, Exec(k, o, l, 6 * i + 12));
  }

  // ---------- the whole of BA ----------

  /** The iteration that decides, or 75 if none does: there are no more. */
  ghost predicate Last(k: Hashes, o: nat -> Input, i: nat) {
    i <= 75 && Open(k, o, i) && (i < 75 ==> !Continues(k, o, i))
  }

  lemma {:induction false} LastExists(k: Hashes, o: nat -> Input, from: nat) returns (i: nat)
    requires from <= 75 && Open(k, o, from)
    ensures Last(k, o, i)
    decreases 75 - from
  {
    hide Continues;
    i := from;
    if from < 75 && Continues(k, o, from) {
      i := LastExists(k, o, from + 1);
    }
  }

  /** The end of BA, and all that was sent. */
  ghost predicate Ended(me: Node, k: Hashes, o: nat -> Input, u: int -> nat, l: Local, i: nat, n: nat) {
    if i < 75 then Ends(me, k, o, u, l, i, n)
    else Exec(k, o, l, n).pc == Hung && SentBy(me, k, o, u, l, n) == VotesBefore(me, k, o, u, l.block, 75)
  }

  lemma HangsAfter75(me: Node, k: Hashes, o: nat -> Input, u: int -> nat, l: Local)
    requires Starts(me, k, o, u, l, 75)
    ensures Exec(k, o, l, 455).pc == Hung
    ensures SentBy(me, k, o, u, l, 455) == VotesBefore(me, k, o, u, l.block, 75)
  {
    hide Exec, SentBy, VotesBefore, FirstHash, Output;
    OneCall(me, k, o, u, l, 454);
  }

  lemma Reached(me: Node, k: Hashes, o: nat -> Input, u: int -> nat, l: Local, i: nat) returns (n: nat)
    requires l.pc == VoteOne && Last(k, o, i)
    ensures Ended(me, k, o, u, l, i, n)
  {
    hide Exec, SentBy, VotesBefore, Starts, Ends, Open, DecidesFirst, DecidesSecond, FinalCall;
    OpenStarts(me, k, o, u, l, i);
    if i == 75 {
      HangsAfter75(me, k, o, u, l);
      n := 455;
    } else {
      n := FinalCall(k, o, i) + 1;
      if DecidesFirst(k, o, i) {
        FirstEnds(me, k, o, u, l, i);
      } else {
        SecondEnds(me, k, o, u, l, i);
      }
    }
  }

  /** Two ends of one node are the same. */
  lemma OneEnd(me: Node, k: Hashes, o: nat -> Input, u: int -> nat, l: Local, n: nat, n': nat)
    requires !Active(Exec(k, o, l, n)) && !Active(Exec(k, o, l, n'))
    ensures Exec(k, o, l, n) == Exec(k, o, l, n') && SentBy(me, k, o, u, l, n) == SentBy(me, k, o, u, l, n')
  {
    hide Exec, SentBy;
    if n <= n' {
      AtRest(me, k, o, u, l, n, n' - n);
    } else {
      AtRest(me, k, o, u, l, n', n - n');
    }
  }

  lemma EndedIsAtRest(me: Node, k: Hashes, o: nat -> Input, u: int -> nat, l: Local, i: nat, n: nat)
    requires Ended(me, k, o, u, l, i, n)
    ensures !Active(Exec(k, o, l, n))
  {
    hide Exec, SentBy;
  }

  lemma EndedElsewhere(me: Node, k: Hashes, o: nat -> Input, u: int -> nat, l: Local, i: nat, n: nat, n': nat)
    requires Ended(me, k, o, u, l, i, n) && Exec(k, o, l, n) == Exec(k, o, l, n')
    requires SentBy(me, k, o, u, l, n) == SentBy(me, k, o, u, l, n')
    ensures Ended(me, k, o, u, l, i, n')
  {
    hide Exec, SentBy, VotesBefore, LastVotes, Decision, FinalCall;
  }

  /**
   What BA has returned and sent, from its counts and coins alone: i is the first iteration that decides. It hangs if
   none of 75 does; otherwise it gives the hash decided on, FINAL if that is what the FINAL count gives; and it has
   sent the votes of the reduction, of the iterations before i and of the decision, in this order and no others.
   */
  lemma ResultFromCounts(p: Participant, result: Outcome) returns (i: nat)
    requires p.Valid() && p.start.pc == VoteOne && p.Answers(result)
    ensures Last(p.k, p.oracle, i) && (result == Hangs <==> i == 75)
    ensures result.Agreed? ==>
              var x := Decision(p.k, p.oracle, i);
              && result.hash == x && (x == p.k.empty || p.arrived(x))
              && (result.final <==> Or(p.oracle(FinalCall(p.k, p.oracle, i)).counted, p.k.zero) == x)
    ensures result == NoBlock ==> var x := Decision(p.k, p.oracle, i); x != p.k.empty && !p.arrived(x)
    ensures p.sent == VotesBefore(p.me, p.k, p.oracle, p.subUsers, p.start.block, i)
                      + if i < 75 then LastVotes(p.me, p.k, p.oracle, p.subUsers, i) else []
  {
    hide Exec, SentBy, VotesBefore, LastVotes, Decision, FinalCall, Last, Open, Ended, Continues;
    NothingOpen(p.k, p.oracle);
    i := LastExists(p.k, p.oracle, 0);
    var n := Reached(p.me, p.k, p.oracle, p.subUsers, p.start, i);
    EndedIsAtRest(p.me, p.k, p.oracle, p.subUsers, p.start, i, n);
    OneEnd(p.me, p.k, p.oracle, p.subUsers, p.start, n, p.calls);
    EndedElsewhere(p.me, p.k, p.oracle, p.subUsers, p.start, i, n, p.calls);
    EndedMeans(p.me, p.k, p.oracle, p.subUsers, p.start, i, p.calls);
  }

  lemma NothingOpen(k: Hashes, o: nat -> Input)
    ensures Open(k, o, 0)
  {
  }

  lemma EndedMeans(me: Node, k: Hashes, o: nat -> Input, u: int -> nat, l: Local, i: nat, n: nat)
    requires Ended(me, k, o, u, l, i, n) && Last(k, o, i)
    ensures i <= 75 && (Exec(k, o, l, n).pc == Hung <==> i == 75)
    ensures i < 75 ==>
              && Exec(k, o, l, n).pc == Done(Or(o(FinalCall(k, o, i)).counted, k.zero) == Decision(k, o, i))
              && Exec(k, o, l, n).r == Decision(k, o, i)
    ensures SentBy(me, k, o, u, l, n)
            == VotesBefore(me, k, o, u, l.block, i) + if i < 75 then LastVotes(me, k, o, u, i) else []
  {
    hide Exec, SentBy, VotesBefore, LastVotes, Decision, FinalCall, Open, Continues;
  }

  // ---------- what is counted ----------

  lemma CountAfterVote(k: Hashes, o: nat -> Input, l: Local, n: nat)
    requires Exec(k, o, l, n).pc.VoteIn? && (Exec(k, o, l, n).pc == VoteIn(First) ==> Exec(k, o, l, n).step < MAXSTEPS)
    ensures Counts(Exec(k, o, l, n + 1)) == Some(Exec(k, o, l, n).step)
  {
  }

  /** The counts of iteration i are those of the steps just voted in, and the last one is that of the FINAL step. */
  lemma CountsInOrder(me: Node, k: Hashes, o: nat -> Input, u: int -> nat, l: Local, i: nat)
    requires l.pc == VoteOne && i < 75 && Open(k, o, i)
    ensures Counts(Exec(k, o, l, 6 * i + 5)) == Some(2 * i + 1)
    ensures !DecidesFirst(k, o, i) ==> Counts(Exec(k, o, l, 6 * i + 7)) == Some(2 * i + 2)
    ensures Continues(k, o, i) ==> Counts(Exec(k, o, l, 6 * i + 9)) == Some(2 * i + 3)
    ensures !Continues(k, o, i) ==> Counts(Exec(k, o, l, FinalCall(k, o, i))) == Some(FINAL)
  {
    hide SentBy, Exec, VotesBefore, FirstVotes, SecondVotes, Open, DecidesFirst, DecidesSecond;
    OpenStarts(me, k, o, u, l, i);
    CountAfterVote(k, o, l, 6 * i + 4);
    if Continues(k, o, i) {
      SecondStepPassed(me, k, o, u, l, i);
      CountAfterVote(k, o, l, 6 * i + 8);
    }
    if !DecidesFirst(k, o, i) {
      FirstStepPassed(me, k, o, u, l, i);
      CountAfterVote(k, o, l, 6 * i + 6);
    }
    if !Continues(k, o, i) {
      LastCount(me, k, o, u, l, i);
    }
  }

  lemma LastCount(me: Node, k: Hashes, o: nat -> Input, u: int -> nat, l: Local, i: nat)
    requires Starts(me, k, o, u, l, i) && i < 75 && !Continues(k, o, i)
    ensures Counts(Exec(k, o, l, FinalCall(k, o, i))) == Some(FINAL)
  {
    hide SentBy, Exec, VotesBefore, FirstVotes, SecondVotes, AheadVotes, Starts, DecidesFirst;
    if DecidesFirst(k, o, i) {
      DecidedFirst(me, k, o, u, l, i);
      ThreeAhead(me, k, o, u, l, 6 * i + 6, Exec(k, o, l, 6 * i + 6));
      if i == 0 {
        VoteForFinal(me, k, o, u, l, 10, Exec(k, o, l, 10));
      }
    } else {
      DecidedSecond(me, k, o, u, l, i);
      ThreeAhead(me, k, o, u, l, 6 * i + 8, Exec(k, o, l, 6 * i + 8));
    }
  }

  /** And in the reduction. */
  lemma ReductionCounts(k: Hashes, o: nat -> Input, l: Local)
    requires l.pc == VoteOne
    ensures Counts(Exec(k, o, l, 1)) == Some(REDUCTION_ONE) && Counts(Exec(k, o, l, 3)) == Some(REDUCTION_TWO)
  {
    Nothing([], k, o, _ => 0, l);
    hide Exec;
    OneCall([], k, o, _ => 0, l, 0);
    OneCall([], k, o, _ => 0, l, 1);
    OneCall([], k, o, _ => 0, l, 2);
  }
}
