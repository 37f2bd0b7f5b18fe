/** What stands behind a hash that countVotes returns, in terms of the messages themselves. */
module CountedVotes {
  import opened Words
  import opened Sortition
  import opened WeightedSets
  import opened Groups
  import opened PointArithmetic
  import opened VrfGroup
  import Vrf
  import opened Votes
  import opened VoteCount

  /** Signed, on the node's tip, and with a VRF output that selects somebody. */
  ghost predicate Genuine(b: Ballot, m: VoteMessage)
    requires Proper(b)
  {
    m.signed && m.parentHash == b.tip && Search(b.weight, b.expectedNum, b.total, Draw(m.vrf), 0) > 0
  }

  /** The genuine messages for h, without those whose voter has an earlier genuine message. */
  ghost function FirstFor(b: Ballot, ms: seq<VoteMessage>, n: nat, h: Hash): set<int>
    requires Proper(b) && n <= |ms|
  {
    set i | 0 <= i < n && Genuine(b, ms[i]) && ms[i].hash == h
            && forall j :: 0 <= j < i && Genuine(b, ms[j]) ==> ms[j].pubkey != ms[i].pubkey
  }

  /** The sub-users that the VRF output of message i selects. */
  ghost function Drawn(b: Ballot, ms: seq<VoteMessage>): int -> nat
    requires Proper(b)
  {
    (i: int) => if 0 <= i < |ms| then Search(b.weight, b.expectedNum, b.total, Draw(ms[i].vrf), 0) else 0
  }

  lemma FirstVoteIff(b: Ballot, ms: seq<VoteMessage>, i: int)
    requires Proper(b)
    ensures FirstVote(b, ms, i)
            <==> && 0 <= i < |ms| && Genuine(b, ms[i])
                 && forall j :: 0 <= j < i && Genuine(b, ms[j]) ==> ms[j].pubkey != ms[i].pubkey
  {
    hide Search, Draw;
    forall j ensures ValidVote(b, ms, j) <==> 0 <= j < |ms| && Genuine(b, ms[j]) {
    }
    hide VotesOf, ValidVote, Genuine;
    if FirstVote(b, ms, i) {
      forall j | 0 <= j < i && Genuine(b, ms[j]) ensures ms[j].pubkey != ms[i].pubkey {
        assert ValidVote(b, ms, j);
      }
    }
  }

  lemma GenuineVotes(b: Ballot, m: VoteMessage)
    requires Proper(b) && Genuine(b, m)
    ensures VotesOf(b, m) == Search(b.weight, b.expectedNum, b.total, Draw(m.vrf), 0)
  {
    hide Search, Draw;
  }

  lemma FirstForStep(b: Ballot, ms: seq<VoteMessage>, n: nat, h: Hash)
    requires Proper(b) && n < |ms|
    ensures FirstFor(b, ms, n + 1, h)
            == FirstFor(b, ms, n, h) + if FirstVote(b, ms, n) && ms[n].hash == h then {n as int} else {}
  {
    FirstVoteIff(b, ms, n);
    hide FirstVote, Genuine;
  }

  /** The tally of h is what those messages have drawn. */
  lemma {:induction false} TallyIsDrawn(b: Ballot, ms: seq<VoteMessage>, n: nat, h: Hash)
    requires Proper(b) && n <= |ms|
    ensures Tally(b, ms[..n], h) == Weigh(FirstFor(b, ms, n, h), Drawn(b, ms))
  {
    hide FirstVote, FirstFor, Genuine, Search, Draw, VotesOf;
    if n == 0 {
      assert FirstFor(b, ms, 0, h) == {} by { NoFirst(b, ms, h); }
    } else {
      TallyIsDrawn(b, ms, n - 1, h);
      TallyStep(b, ms, n - 1, h);
      FirstForStep(b, ms, n - 1, h);
      var s := FirstFor(b, ms, n - 1, h);
      if FirstVote(b, ms, n - 1) && ms[n - 1].hash == h {
        FirstVoteIff(b, ms, n - 1);
        GenuineVotes(b, ms[n - 1]);
        NotYet(b, ms, n - 1, h);
        WeighAdd(s, Drawn(b, ms), n - 1);
      } else {
        assert s + {} == s;
      }
    }
  }

  lemma NoFirst(b: Ballot, ms: seq<VoteMessage>, h: Hash)
    requires Proper(b)
    ensures FirstFor(b, ms, 0, h) == {}
  {
  }

  lemma NotYet(b: Ballot, ms: seq<VoteMessage>, n: nat, h: Hash)
    requires Proper(b) && n < |ms|
    ensures n !in FirstFor(b, ms, n, h)
  {
    hide Genuine;
  }

  /** Signed messages on the tip for h, one for each voter. */
  ghost predicate Ballots(b: Ballot, ms: seq<VoteMessage>, n: nat, h: Hash, votes: set<int>)
    requires n <= |ms|
  {
    && (forall i :: i in votes ==> 0 <= i < n && ms[i].signed && ms[i].parentHash == b.tip && ms[i].hash == h)
    && forall i, j :: i in votes && j in votes && i != j ==> ms[i].pubkey != ms[j].pubkey
  }

  /** What they draw, in terms of the number of k in 1..weight with CDF(k) <= vrf/2^256. */
  ghost predicate DrawnIsSelected(b: Ballot, ms: seq<VoteMessage>, i: int)
    requires Proper(b) && 0 <= i < |ms|
  {
    Drawn(b, ms)(i) == Selected(b.weight, b.expectedNum, b.total, Draw(ms[i].vrf))
  }

  /**
   Behind a hash that countVotes returns there are read messages, signed, on the tip and for this hash, from different
   voters, whose draws sum to the threshold; and on a timeout the first genuine messages for any hash draw less.
   */
  lemma CountedAreGenuine(b: Ballot, ms: seq<VoteMessage>, n: nat, T: nat, r: CountResult, g: Group<Point>, B: Point)
    returns (votes: set<int>)
    requires Proper(b) && Ed25519(g, B) && Vrf.Digests(b.sha, 32) && CountOutcome(b, ms, n, T, r, g, B)
    ensures n <= |ms|
    ensures r.Reached? ==> Ballots(b, ms, n, r.hash, votes) && Weigh(votes, Drawn(b, ms)) >= T
    ensures r.Timeout? ==> n == |ms| && forall h :: Weigh(FirstFor(b, ms, n, h), Drawn(b, ms)) < T
    ensures 0 <= b.expectedNum <= b.total ==> forall i :: 0 <= i < |ms| ==> DrawnIsSelected(b, ms, i)
  {
    hide Ed25519, Vrf.Digests, Quiet, Crashes, Tally, FirstVote, Search, Draw, Selected;
    votes := {};
    if r.Reached? {
      votes := FirstFor(b, ms, n, r.hash);
      TallyIsDrawn(b, ms, n, r.hash);
      DifferentVoters(b, ms, n, r.hash);
    }
    if r.Timeout? {
      assert Undecided(b, ms, n, T);
      forall h ensures Weigh(FirstFor(b, ms, n, h), Drawn(b, ms)) < T {
        TallyIsDrawn(b, ms, n, h);
      }
    }
    if 0 <= b.expectedNum <= b.total {
      forall i | 0 <= i < |ms| ensures DrawnIsSelected(b, ms, i) {
        SearchFinds(b.weight, b.expectedNum, b.total, Draw(ms[i].vrf), 0);
      }
    }
  }

  lemma DifferentVoters(b: Ballot, ms: seq<VoteMessage>, n: nat, h: Hash)
    requires Proper(b) && n <= |ms|
    ensures Ballots(b, ms, n, h, FirstFor(b, ms, n, h))
  {
    hide Search, Draw;
    var votes := FirstFor(b, ms, n, h);
    forall i, j | i in votes && j in votes && i != j ensures ms[i].pubkey != ms[j].pubkey {
      assert Genuine(b, ms[i]) && Genuine(b, ms[j]);
    }
  }

  // ---------- forged votes ----------

  /** A message put in among others, at place k. */
  lemma ForgedHasVoted(b: Ballot, s: seq<VoteMessage>, m: VoteMessage, t: seq<VoteMessage>, k: nat, v: seq<byte>)
    requires Proper(b) && !Genuine(b, m) && |s| <= k <= |s + t|
    ensures HasVoted(b, s + [m] + t, k + 1, v) <==> HasVoted(b, s + t, k, v)
  {
    hide Genuine, VotesOf;
    var ms, ms' := s + t, s + [m] + t;
    NothingDrawn(b, m);
    if j :| 0 <= j < k && ValidVote(b, ms, j) && ms[j].pubkey == v {
      var j' := if j < |s| then j else j + 1;
      assert ms'[j'] == ms[j] && ValidVote(b, ms', j');
    }
    if j' :| 0 <= j' < k + 1 && ValidVote(b, ms', j') && ms'[j'].pubkey == v {
      assert ms'[|s|] == m;
      var j := if j' < |s| then j' else j' - 1;
      assert ms[j] == ms'[j'] && ValidVote(b, ms, j);
    }
  }

  lemma NothingDrawn(b: Ballot, m: VoteMessage)
    requires Proper(b)
    ensures VotesOf(b, m) > 0 <==> Genuine(b, m)
  {
    hide Search, Draw;
  }

  /** An unsigned message, or one off the tip, changes the tally of no hash, wherever it arrives. */
  lemma {:induction false} ForgedVotesAreIgnored(b: Ballot, s: seq<VoteMessage>, m: VoteMessage, t: seq<VoteMessage>,
                                                 h: Hash)
    requires Proper(b) && (!m.signed || m.parentHash != b.tip)
    ensures Tally(b, s + [m] + t, h) == Tally(b, s + t, h)
    decreases |t|
  {
    hide Tally, VotesOf, FirstVote, HasVoted, Search, Draw;
    NothingDrawn(b, m);
    var ms, ms' := s + t, s + [m] + t;
    if t == [] {
      assert ms == s && ms'[..|s|] == s && ms'[..|s| + 1] == ms';
      TallyStep(b, ms', |s|, h);
      FirstIffNew(b, ms', |s|);
    } else {
      var k := |ms| - 1;
      var t' := t[..|t| - 1];
      ForgedVotesAreIgnored(b, s, m, t', h);
      assert ms[..k] == s + t' && ms'[..k + 1] == s + [m] + t';
      assert ms[..k + 1] == ms && ms'[..k + 2] == ms' && ms[k] == ms'[k + 1];
      TallyStep(b, ms, k, h);
      TallyStep(b, ms', k + 1, h);
      FirstIffNew(b, ms, k);
      FirstIffNew(b, ms', k + 1);
      ForgedHasVoted(b, s, m, t, k, ms[k].pubkey);
    }
  }
}
