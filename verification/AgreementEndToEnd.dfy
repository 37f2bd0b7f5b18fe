/** From programs to runs: a node of a run does what BA does, so the results of BA agree. */
module AgreementEndToEnd {
  import opened Options
  import opened Groups
  import opened PointArithmetic
  import opened VrfGroup
  import opened Votes
  import opened VoteCount
  import opened Agreement
  import opened AgreementInvariants
  import opened AgreementTheorems
  import opened AgreementProgram

  // ---------- counts as inputs ----------

  /** Whatever countVotes returns, but for the panic, is a possible input of a node in the run. */
  lemma CountIsPossible(w: World, s: State, l: Local, step: int, b: Ballot, ms: seq<VoteMessage>, n: nat,
                        r: CountResult, coin: bool, g: Group<Point>, B: Point)
    requires Proper(b) && Ed25519(g, B) && Vrf.Digests(b.sha, 32) && Counts(l) == Some(step)
    requires CountOutcome(b, ms, n, Threshold(step), r, g, B) && Faithful(w, s.sent, b, ms, step)
    ensures r.Reached? ==> Possible(w, s.sent, l, Input(Some(r.hash), coin))
    ensures r.Timeout? ==> Possible(w, s.sent, l, Input(None, coin))
  {
    hide Ed25519, Vrf.Digests, Faithful, Threshold, Quorum, Undecided, Quiet, Crashes, Tally, FirstVote;
    if r.Reached? {
      CountedIsQuorum(w, s.sent, b, ms, n, step, r.hash);
    }
  }

  // ---------- a node of a run as a program ----------

  /** The inputs as an oracle. */
  ghost function Replay(inputs: seq<Input>): nat -> Input {
    (i: nat) => if i < |inputs| then inputs[i] else Input(None, false)
  }

  ghost function SubUsers(w: World, n: Node): int -> nat {
    (step: int) => w.weight(step)(n)
  }

  /** Only the oracle's answers so far matter. */
  lemma {:induction false} ExecAgrees(me: Node, k: Hashes, o: nat -> Input, o': nat -> Input, u: int -> nat,
                                      u': int -> nat, l: Local, n: nat)
    requires forall i: nat {:trigger o(i)} :: i < n ==> o(i) == o'(i)
    requires forall step {:trigger u(step)} :: u(step) == u'(step)
    ensures Exec(k, o, l, n) == Exec(k, o', l, n)
    ensures SentBy(me, k, o, u, l, n) == SentBy(me, k, o', u', l, n)
  {
    hide Step, Sends;
    if n > 0 {
      ExecAgrees(me, k, o, o', u, u', l, n - 1);
      assert o(n - 1) == o'(n - 1);
    }
  }

  /** Given the inputs, the program of n is where n is in the state i, and has sent what n has sent. */
  ghost predicate Projects(w: World, run: seq<State>, i: nat, n: Node, inputs: seq<Input>)
    requires |run| > 0 && i < |run|
  {
    && n in run[0].locals && n in run[i].locals
    && run[i].locals[n] == Exec(w.k, Replay(inputs), run[0].locals[n], |inputs|)
    && forall v :: v in run[i].sent && v.node == n
                   <==> v in SentBy(n, w.k, Replay(inputs), SubUsers(w, n), run[0].locals[n], |inputs|)
  }

  lemma OneMoreInput(w: World, n: Node, l: Local, inputs: seq<Input>, i: Input)
    requires var m := Exec(w.k, Replay(inputs), l, |inputs|); Active(m)
    ensures var m := Exec(w.k, Replay(inputs), l, |inputs|);
            && Exec(w.k, Replay(inputs + [i]), l, |inputs| + 1) == Step(w.k, m, i)
            && forall v :: v in SentBy(n, w.k, Replay(inputs + [i]), SubUsers(w, n), l, |inputs| + 1)
                           <==> || v in SentBy(n, w.k, Replay(inputs), SubUsers(w, n), l, |inputs|)
                                || v in VoteSet(w, n, m)
  {
    hide Step, Sends;
    var o, o' := Replay(inputs), Replay(inputs + [i]);
    ExecAgrees(n, w.k, o, o', SubUsers(w, n), SubUsers(w, n), l, |inputs|);
    assert o'(|inputs|) == i;
  }

  lemma ProjectsOwnStep(w: World, run: seq<State>, i: nat, n: Node, inputs: seq<Input>, input: Input)
    requires 0 < i < |run| && Projects(w, run, i - 1, n, inputs) && HonestStep(w, run[i - 1], run[i], n, input)
    ensures Projects(w, run, i, n, inputs + [input])
  {
    hide Step, Exec, SentBy, VoteSet, Possible;
    OneMoreInput(w, n, run[0].locals[n], inputs, input);
    VoteSetIsOwn(w, n, run[i - 1].locals[n]);
  }

  lemma VoteSetIsOwn(w: World, n: Node, l: Local)
    ensures forall v :: v in VoteSet(w, n, l) ==> v.node == n
  {
  }

  lemma ProjectsOtherStep(w: World, run: seq<State>, i: nat, n: Node, inputs: seq<Input>, m: Node, input: Input)
    requires 0 < i < |run| && Projects(w, run, i - 1, n, inputs) && n in w.honest && w.honest !! w.faulty
    requires FaultyStep(w, run[i - 1], run[i]) || (m != n && HonestStep(w, run[i - 1], run[i], m, input))
    ensures Projects(w, run, i, n, inputs)
  {
    hide Step, Exec, SentBy, VoteSet, Possible;
    if !FaultyStep(w, run[i - 1], run[i]) {
      VoteSetIsOwn(w, m, run[i - 1].locals[m]);
    }
  }

  /** Every honest node of every run follows its program on some inputs. */
  lemma {:induction false} NodeIsProgram(w: World, run: seq<State>, i: nat, n: Node) returns (inputs: seq<Input>)
    requires Run(w, run) && i < |run| && n in w.honest
    ensures Projects(w, run, i, n, inputs)
  {
    if i == 0 {
      inputs := [];
    } else {
      inputs := NodeIsProgram(w, run, i - 1, n);
      hide Projects, HonestStep, FaultyStep;
      assert Next(w, run[i - 1], run[i]);
      if FaultyStep(w, run[i - 1], run[i]) {
        ProjectsOtherStep(w, run, i, n, inputs, n, Input(None, false));
      } else {
        var m, input :| HonestStep(w, run[i - 1], run[i], m, input);
        if m == n {
          ProjectsOwnStep(w, run, i, n, inputs, input);
          inputs := inputs + [input];
        } else {
          ProjectsOtherStep(w, run, i, n, inputs, m, input);
        }
      }
    }
  }

  // ---------- agreement of programs ----------

  /** p runs as an honest node of the run, and has come as far as that node in the state i. */
  ghost predicate TakesPart(p: Participant, w: World, run: seq<State>, i: nat)
    requires |run| > 0 && i < |run|
    reads p
  {
    && p.Valid() && p.k == w.k && p.me in w.honest && p.me in run[0].locals && p.start == run[0].locals[p.me]
    && (forall step {:trigger p.subUsers(step)} :: p.subUsers(step) == w.weight(step)(p.me))
    && exists inputs :: Projects(w, run, i, p.me, inputs) && GivenTo(p, inputs)
  }

  ghost predicate GivenTo(p: Participant, inputs: seq<Input>)
    reads p
  {
    p.calls == |inputs| && forall j: nat {:trigger p.oracle(j)} :: j < |inputs| ==> p.oracle(j) == inputs[j]
  }

  lemma PartIsNode(p: Participant, w: World, run: seq<State>, i: nat)
    requires |run| > 0 && i < |run| && TakesPart(p, w, run, i)
    ensures p.me in run[i].locals && p.local == run[i].locals[p.me]
    ensures forall v :: v in run[i].sent && v.node == p.me <==> v in p.sent
  {
    hide Exec, SentBy;
    var inputs :| Projects(w, run, i, p.me, inputs) && GivenTo(p, inputs);
    var l := run[0].locals[p.me];
    ExecAgrees(p.me, p.k, p.oracle, Replay(inputs), p.subUsers, SubUsers(w, p.me), l, |inputs|);
  }

  /**
   Two calls of BA, by any honest participants of a run at any times, that both return FINAL return the same hash, and
   not that of the empty block.
   */
  lemma FinalResultsAgree(w: World, run: seq<State>, i: nat, j: nat, p: Participant, q: Participant, x: Hash, y: Hash)
    requires Run(w, run) && FaultyBelow(w) && OneQuorumAt(w, 1) && i < |run| && j < |run|
    requires TakesPart(p, w, run, i) && p.Answers(Agreed(true, x))
    requires TakesPart(q, w, run, j) && q.Answers(Agreed(true, y))
    ensures x == y && x != w.k.empty
  {
    PartIsNode(p, w, run, i);
    PartIsNode(q, w, run, j);
    hide Run, FaultyBelow, OneQuorumAt, Projects;
    if i <= j {
      FinalAgreement(w, run, i, j, p.me, q.me, x, y);
    } else {
      FinalAgreement(w, run, j, i, q.me, p.me, y, x);
    }
  }

  /** And any result of BA, FINAL or not, is one of two hashes over the whole run. */
  lemma ResultsAreTwo(w: World, run: seq<State>) returns (h: Hash)
    requires Run(w, run) && FaultyBelow(w) && OneQuorumAt(w, REDUCTION_TWO)
    ensures |run| > 0
    ensures forall p: Participant, i: nat, f, x {:trigger TakesPart(p, w, run, i), p.Answers(Agreed(f, x))} ::
              i < |run| && TakesPart(p, w, run, i) && p.Answers(Agreed(f, x)) ==> x in {h, w.k.empty}
  {
    h := AtMostTwoValues(w, run);
    hide FaultyBelow, OneQuorumAt, TakesPart;
    forall p: Participant, i: nat, f, x | i < |run| && TakesPart(p, w, run, i) && p.Answers(Agreed(f, x))
      ensures x in {h, w.k.empty}
    {
      PartIsNode(p, w, run, i);
      TakesPartIsHonest(p, w, run, i);
      assert OnlyTwo(w, run[i], h);
    }
  }

  lemma TakesPartIsHonest(p: Participant, w: World, run: seq<State>, i: nat)
    requires |run| > 0 && i < |run| && TakesPart(p, w, run, i)
    ensures p.me in w.honest
  {
  }
}
