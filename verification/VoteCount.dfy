/** countVotes and processMsg of algorand.go, over a vote list that grows while it is read. */
module VoteCount {
  import opened Words
  import opened Sortition
  import opened WeightedSets
  import opened Votes
  import opened Groups
  import opened PointArithmetic
  import opened VrfGroup
  import Vrf
  import opened VrfProofs

  /**
   What a node counts against: its tip, the committee size, the weight of a node and the total weight; and what it
   verifies sortition proofs with: its own public key, the hash function and the seed of each round and step.
   */
  datatype Ballot = Ballot(tip: Hash, expectedNum: int, weight: nat, total: int,
                           key: seq<byte>, sha: Vrf.Hash, seed: (nat, nat) -> seq<byte>)

  predicate Proper(b: Ballot) {
    b.total > 0
  }

  // ---------- what a message is worth ----------

  /** The sub-users of a message: none if its signature fails or it does not extend the tip. */
  ghost function VotesOf(b: Ballot, m: VoteMessage): nat
    requires Proper(b)
  {
    if !m.signed || m.parentHash != b.tip then 0
    else Search(b.weight, b.expectedNum, b.total, Draw(m.vrf), 0)
  }

  /**
   Whether processing the message panics: its signature is too short for a public key, or ECVRF_verify, of whose
   call only the results are dropped, panics on its proof.
   */
  ghost predicate Crashes(b: Ballot, m: VoteMessage, g: Group<Point>, B: Point)
    requires Ed25519(g, B) && Vrf.Digests(b.sha, 32)
  {
    || |m.pubkey| < 32
    || (m.signed && m.parentHash == b.tip && Verdict(b.sha, g, B, b.key, m.proof, b.seed(m.round, m.step)).Panic?)
  }

  /** The node's own key decodes, and hashing to the curve succeeds for it. */
  ghost predicate Serviceable(b: Ballot, g: Group<Point>, B: Point)
    requires Ed25519(g, B)
  {
    && |b.key| == 32 && Decode(b.key).Some?
    && forall round, step {:trigger b.seed(round, step)} ::
         Vrf.HashToPoint(b.sha, g, B, b.seed(round, step), b.key, 0).Some?
  }

  /** Then the panics are the proofs that end too early: where their sign octet or their point is still to be read. */
  lemma CrashesOnShortProofs(b: Ballot, m: VoteMessage, g: Group<Point>, B: Point)
    requires Ed25519(g, B) && Vrf.Digests(b.sha, 32) && Serviceable(b, g, B)
    ensures Crashes(b, m, g, B)
            <==> |m.pubkey| < 32 || (m.signed && m.parentHash == b.tip && Gamma(m.proof).Panic?)
    ensures Gamma([]).Panic?
  {
    hide Ed25519, Vrf.Digests, Decode, Vrf.Buffer, Vrf.HashToPoint, Checks;
    Vrf.BufferKeepsSign(b.key);
    var seed := b.seed(m.round, m.step);
    assert Vrf.HashToPoint(b.sha, g, B, seed, b.key, 0).Some?;
  }

  datatype Processed = Votes(votes: nat, hash: Hash) | Crash

  method processMsg(b: Ballot, m: VoteMessage, t: Package, ghost g: Group<Point>, ghost B: Point) returns (r: Processed)
    requires Proper(b) && Ed25519(g, B) && Vrf.Digests(b.sha, 32) && t.Ready(g, B)
    ensures r.Crash? <==> Crashes(b, m, g, B)
    ensures r.Votes? ==> r.votes == VotesOf(b, m) && (r.votes > 0 ==> r.hash == m.hash)
    ensures r.Votes? && (!m.signed || m.parentHash != b.tip) ==> r == Votes(0, seq(32, _ => 0))
    ensures r.Votes? && m.signed && m.parentHash == b.tip ==>
              r == Votes(Search(b.weight, b.expectedNum, b.total, Draw(m.vrf), 0), m.hash)
  {
    hide Ed25519, Vrf.Digests, t.Ready, Verdict, Search;
    if |m.pubkey| < 32 {
      return Crash;
    }
    if !m.signed {
      return Votes(0, seq(32, _ => 0));
    }
    if m.parentHash != b.tip {
      return Votes(0, seq(32, _ => 0));
    }
    var verified := ECVRF_verify(t, b.sha, b.key, m.proof, b.seed(m.round, m.step), g, B);
    if verified.Panic? {
      return Crash;
    }
    var votes := subUsers(b.expectedNum, b.weight, b.total, m.vrf);
    return Votes(votes, m.hash);
  }

  // ---------- the specification ----------

  ghost predicate ValidVote(b: Ballot, ms: seq<VoteMessage>, i: int)
    requires Proper(b)
  {
    0 <= i < |ms| && VotesOf(b, ms[i]) > 0
  }

  /** The first valid vote of its voter. */
  ghost predicate FirstVote(b: Ballot, ms: seq<VoteMessage>, i: int)
    requires Proper(b)
  {
    ValidVote(b, ms, i) && forall j :: 0 <= j < i && ValidVote(b, ms, j) ==> ms[j].pubkey != ms[i].pubkey
  }

  /** The votes for h, each voter counted once, by the first valid vote. */
  ghost function Tally(b: Ballot, ms: seq<VoteMessage>, h: Hash): nat
    requires Proper(b)
  {
    if ms == [] then 0
    else
      var n := |ms| - 1;
      Tally(b, ms[..n], h) + if FirstVote(b, ms, n) && ms[n].hash == h then VotesOf(b, ms[n]) else 0
  }

  lemma FirstInPrefix(b: Ballot, ms: seq<VoteMessage>, n: nat, i: int)
    requires Proper(b) && i < n <= |ms|
    ensures FirstVote(b, ms[..n], i) <==> FirstVote(b, ms, i)
  {
    hide VotesOf;
    assert ValidVote(b, ms[..n], i) <==> ValidVote(b, ms, i);
    assert forall j :: 0 <= j < i ==> (ValidVote(b, ms[..n], j) <==> ValidVote(b, ms, j));
    if FirstVote(b, ms[..n], i) {
      forall j | 0 <= j < i && ValidVote(b, ms, j) ensures ms[j].pubkey != ms[i].pubkey {
        assert ValidVote(b, ms[..n], j);
      }
    }
  }

  /** One more message. */
  lemma TallyStep(b: Ballot, ms: seq<VoteMessage>, n: nat, h: Hash)
    requires Proper(b) && n < |ms|
    ensures Tally(b, ms[..n + 1], h)
            == Tally(b, ms[..n], h) + if FirstVote(b, ms, n) && ms[n].hash == h then VotesOf(b, ms[n]) else 0
  {
    hide VotesOf, FirstVote;
    assert ms[..n + 1][..n] == ms[..n];
    FirstInPrefix(b, ms, n + 1, n);
  }

  ghost predicate HasVoted(b: Ballot, ms: seq<VoteMessage>, n: int, v: seq<byte>)
    requires Proper(b)
  {
    exists j :: 0 <= j < n && ValidVote(b, ms, j) && ms[j].pubkey == v
  }

  /** The voters whose first valid vote is for h. */
  ghost function Supporters(b: Ballot, ms: seq<VoteMessage>, h: Hash): set<seq<byte>>
    requires Proper(b)
  {
    set i | 0 <= i < |ms| && FirstVote(b, ms, i) && ms[i].hash == h :: ms[i].pubkey
  }

  lemma SupportersStep(b: Ballot, ms: seq<VoteMessage>, n: nat, h: Hash)
    requires Proper(b) && n < |ms|
    ensures Supporters(b, ms[..n + 1], h)
            == Supporters(b, ms[..n], h) + if FirstVote(b, ms, n) && ms[n].hash == h then {ms[n].pubkey} else {}
    ensures FirstVote(b, ms, n) ==> ms[n].pubkey !in Supporters(b, ms[..n], h)
  {
    hide VotesOf;
    var s, s' := Supporters(b, ms[..n], h), Supporters(b, ms[..n + 1], h);
    forall i | 0 <= i <= n ensures FirstVote(b, ms[..n + 1], i) <==> FirstVote(b, ms, i) {
      FirstInPrefix(b, ms, n + 1, i);
    }
    forall i | 0 <= i < n ensures FirstVote(b, ms[..n], i) <==> FirstVote(b, ms, i) {
      FirstInPrefix(b, ms, n, i);
    }
    hide FirstVote;
    forall v | v in s ensures v in s' {
      var i :| 0 <= i < n && FirstVote(b, ms[..n], i) && ms[i].hash == h && ms[i].pubkey == v;
      assert FirstVote(b, ms[..n + 1], i) && ms[..n + 1][i].hash == h;
    }
  }

  /** A voter supports one hash. */
  lemma SupportersDisjoint(b: Ballot, ms: seq<VoteMessage>, h: Hash, h': Hash)
    requires Proper(b) && h != h'
    ensures Supporters(b, ms, h) !! Supporters(b, ms, h')
  {
    hide VotesOf;
  }

  /** If every voter has one weight, the tally of h is the weight of its supporters. */
  lemma {:induction false} TallyIsWeight(b: Ballot, ms: seq<VoteMessage>, n: nat, h: Hash, w: seq<byte> -> nat)
    requires Proper(b) && n <= |ms|
    requires forall i :: FirstVote(b, ms, i) ==> VotesOf(b, ms[i]) == w(ms[i].pubkey)
    ensures Tally(b, ms[..n], h) == Weigh(Supporters(b, ms[..n], h), w)
    decreases n
  {
    hide VotesOf, FirstVote, Supporters;
    if n == 0 {
      assert Supporters(b, [], h) == {} by { NoSupporters(b, h); }
      assert ms[..0] == [];
    } else {
      TallyIsWeight(b, ms, n - 1, h, w);
      TallyStep(b, ms, n - 1, h);
      SupportersStep(b, ms, n - 1, h);
      if FirstVote(b, ms, n - 1) && ms[n - 1].hash == h {
        WeighAdd(Supporters(b, ms[..n - 1], h), w, ms[n - 1].pubkey);
      } else {
        assert Supporters(b, ms[..n - 1], h) + {} == Supporters(b, ms[..n - 1], h);
      }
    }
  }

  lemma NoSupporters(b: Ballot, h: Hash)
    requires Proper(b)
    ensures Supporters(b, [], h) == {}
  {
  }

  // ---------- counting ----------

  /** What happens before an iterator step: votes of any round and step arrive, and the timer may have expired. */
  datatype Event = Event(arrivals: seq<VoteMessage>, expired: bool)

  method Deliver(peer: Peer, arrivals: seq<VoteMessage>)
    requires peer.Valid()
    modifies peer, peer.incomingVotes.Values
    ensures peer.Valid()
    ensures forall k :: k in old(peer.incomingVotes) ==>
                          k in peer.incomingVotes && peer.incomingVotes[k] == old(peer.incomingVotes[k])
    ensures forall o :: o in peer.incomingVotes.Values ==> o in old(peer.incomingVotes.Values) || fresh(o)
    ensures forall k :: old(peer.Contents(k)) <= peer.Contents(k)
  {
    for i := 0 to |arrivals|
      invariant peer.Valid()
      invariant forall k :: k in old(peer.incomingVotes) ==>
                          k in peer.incomingVotes && peer.incomingVotes[k] == old(peer.incomingVotes[k])
      invariant forall o :: o in peer.incomingVotes.Values ==> o in old(peer.incomingVotes.Values) || fresh(o)
      invariant forall k :: old(peer.Contents(k)) <= peer.Contents(k)
    {
      peer.handle(arrivals[i]);
    }
  }

  /** Which voters were marked, and what was counted, after n messages. */
  ghost predicate Counted(b: Ballot, ms: seq<VoteMessage>, n: nat, voters: set<seq<byte>>, counts: map<Hash, nat>)
    requires Proper(b) && n <= |ms|
  {
    && (forall v :: v in voters <==> HasVoted(b, ms, n, v))
    && (forall h :: (if h in counts then counts[h] else 0) == Tally(b, ms[..n], h))
  }

  /** No hash had the threshold after k messages. */
  ghost predicate Undecided(b: Ballot, ms: seq<VoteMessage>, k: nat, T: nat)
    requires Proper(b) && k <= |ms|
  {
    forall h :: Tally(b, ms[..k], h) < T
  }

  lemma FirstIffNew(b: Ballot, ms: seq<VoteMessage>, n: nat)
    requires Proper(b) && n < |ms|
    ensures FirstVote(b, ms, n) <==> VotesOf(b, ms[n]) > 0 && !HasVoted(b, ms, n, ms[n].pubkey)
  {
    hide VotesOf;
  }

  lemma HasVotedStep(b: Ballot, ms: seq<VoteMessage>, n: nat, v: seq<byte>)
    requires Proper(b) && n < |ms|
    ensures HasVoted(b, ms, n + 1, v) <==> HasVoted(b, ms, n, v) || (VotesOf(b, ms[n]) > 0 && ms[n].pubkey == v)
  {
    hide VotesOf;
    if VotesOf(b, ms[n]) > 0 && ms[n].pubkey == v {
      assert ValidVote(b, ms, n);
    }
  }

  /** A message that is skipped changes nothing. */
  lemma Skipped(b: Ballot, ms: seq<VoteMessage>, n: nat, voters: set<seq<byte>>, counts: map<Hash, nat>, T: nat)
    requires Proper(b) && n < |ms| && Counted(b, ms, n, voters, counts) && Undecided(b, ms, n, T)
    requires ms[n].pubkey in voters || VotesOf(b, ms[n]) == 0
    ensures Counted(b, ms, n + 1, voters, counts) && Undecided(b, ms, n + 1, T)
  {
    hide VotesOf, FirstVote, Tally, HasVoted;
    FirstIffNew(b, ms, n);
    forall v ensures HasVoted(b, ms, n + 1, v) <==> HasVoted(b, ms, n, v) {
      HasVotedStep(b, ms, n, v);
    }
    forall h ensures Tally(b, ms[..n + 1], h) == Tally(b, ms[..n], h) {
      TallyStep(b, ms, n, h);
    }
  }

  /** A message that counts adds its votes to its hash. */
  lemma Added(b: Ballot, ms: seq<VoteMessage>, n: nat, voters: set<seq<byte>>, counts: map<Hash, nat>, T: nat)
    requires Proper(b) && n < |ms| && Counted(b, ms, n, voters, counts) && Undecided(b, ms, n, T)
    requires ms[n].pubkey !in voters && VotesOf(b, ms[n]) > 0
    ensures FirstVote(b, ms, n)
    ensures var h := ms[n].hash;
            var c := (if h in counts then counts[h] else 0) + VotesOf(b, ms[n]);
            && Counted(b, ms, n + 1, voters + {ms[n].pubkey}, counts[h := c])
            && c == Tally(b, ms[..n + 1], h)
            && (c < T ==> Undecided(b, ms, n + 1, T))
  {
    hide VotesOf, FirstVote, Tally, HasVoted;
    FirstIffNew(b, ms, n);
    forall v ensures HasVoted(b, ms, n + 1, v) <==> HasVoted(b, ms, n, v) || ms[n].pubkey == v {
      HasVotedStep(b, ms, n, v);
    }
    forall h ensures Tally(b, ms[..n + 1], h) == Tally(b, ms[..n], h) + if ms[n].hash == h then VotesOf(b,
        ms[n]) else 0 {
      TallyStep(b, ms, n, h);
    }
  }

  /** Longer lists agree on what was read. */
  lemma MoreArrive(b: Ballot, ms: seq<VoteMessage>, ms': seq<VoteMessage>, n: nat, voters: set<seq<byte>>,
                   counts: map<Hash, nat>)
    requires Proper(b) && n <= |ms| && ms <= ms' && Counted(b, ms, n, voters, counts)
    ensures Counted(b, ms', n, voters, counts)
  {
    hide VotesOf, Tally;
    assert ms[..n] == ms'[..n];
    forall v ensures HasVoted(b, ms, n, v) <==> HasVoted(b, ms', n, v) {
      if HasVoted(b, ms, n, v) {
        var j :| 0 <= j < n && ValidVote(b, ms, j) && ms[j].pubkey == v;
        assert ValidVote(b, ms', j);
      }
      if HasVoted(b, ms', n, v) {
        var j :| 0 <= j < n && ValidVote(b, ms', j) && ms'[j].pubkey == v;
        assert ValidVote(b, ms, j);
      }
    }
  }

  /** None of the first n messages panics. */
  ghost predicate Quiet(b: Ballot, ms: seq<VoteMessage>, n: nat, g: Group<Point>, B: Point)
    requires Ed25519(g, B) && Vrf.Digests(b.sha, 32) && n <= |ms|
  {
    forall i :: 0 <= i < n ==> !Crashes(b, ms[i], g, B)
  }

  /** What the loop knows after n messages. */
  ghost predicate Counting(b: Ballot, ms: seq<VoteMessage>, n: nat, voters: set<seq<byte>>, counts: map<Hash, nat>,
                           T: nat, g: Group<Point>, B: Point)
    requires Proper(b) && Ed25519(g, B) && Vrf.Digests(b.sha, 32)
  {
    && n <= |ms| && Counted(b, ms, n, voters, counts) && Quiet(b, ms, n, g, B)
    && forall k :: 0 <= k <= n ==> Undecided(b, ms, k, T)
  }

  lemma StillCounting(b: Ballot, ms: seq<VoteMessage>, ms': seq<VoteMessage>, n: nat, voters: set<seq<byte>>,
                      counts: map<Hash, nat>, T: nat, g: Group<Point>, B: Point)
    requires Proper(b) && Ed25519(g, B) && Vrf.Digests(b.sha, 32) && ms <= ms'
    requires Counting(b, ms, n, voters, counts, T, g, B)
    ensures Counting(b, ms', n, voters, counts, T, g, B)
  {
    hide VotesOf, Tally, Ed25519, Vrf.Digests, Crashes, Counted;
    MoreArrive(b, ms, ms', n, voters, counts);
    forall k | 0 <= k <= n ensures Undecided(b, ms', k, T) {
      assert ms[..k] == ms'[..k];
      assert Undecided(b, ms, k, T);
    }
  }

  /** The first hash to reach the threshold, the timeout, or the panic of processing a message. */
  datatype CountResult = Reached(hash: Hash) | Timeout | Crashed

  /**
   n messages of the list were read. A hash is returned at the first message at which one reaches the threshold; on
   timeout that is all of the list, and no hash had reached it after any of them; and a panic ends the count exactly
   at the first message that panics.
   */
  ghost predicate CountOutcome(b: Ballot, ms: seq<VoteMessage>, n: nat, T: nat, r: CountResult, g: Group<Point>,
                               B: Point)
    requires Proper(b) && Ed25519(g, B) && Vrf.Digests(b.sha, 32)
  {
    && n <= |ms|
    && match r
       case Timeout => n == |ms| && Quiet(b, ms, n, g, B) && forall k :: 0 <= k <= n ==> Undecided(b, ms, k, T)
       case Reached(h) =>
         && n > 0 && Quiet(b, ms, n, g, B) && (forall k :: 0 <= k < n ==> Undecided(b, ms, k, T))
         && FirstVote(b, ms, n - 1) && ms[n - 1].hash == h && Tally(b, ms[..n], h) >= T
       case Crashed =>
         && n > 0 && Quiet(b, ms, n - 1, g, B) && Crashes(b, ms[n - 1], g, B)
         && (forall k :: 0 <= k < n ==> Undecided(b, ms, k, T))
  }

  /** Deliver, while the list of key is being counted. */
  method Receive(peer: Peer, arrivals: seq<VoteMessage>, ghost b: Ballot, ghost key: seq<byte>, ghost list: List,
                 ghost n: nat, ghost voters: set<seq<byte>>, ghost counts: map<Hash, nat>, ghost T: nat,
                 ghost g: Group<Point>, ghost B: Point)
    requires Proper(b) && Ed25519(g, B) && Vrf.Digests(b.sha, 32)
    requires peer.Valid() && key in peer.incomingVotes && peer.incomingVotes[key] == list
    requires Counting(b, list.list, n, voters, counts, T, g, B)
    modifies peer, peer.incomingVotes.Values
    ensures peer.Valid() && key in peer.incomingVotes && peer.incomingVotes[key] == list
    ensures forall o :: o in peer.incomingVotes.Values ==> o in old(peer.incomingVotes.Values) || fresh(o)
    ensures forall k :: old(peer.Contents(k)) <= peer.Contents(k)
    ensures Counting(b, list.list, n, voters, counts, T, g, B)
  {
    hide VotesOf, Counting, Ed25519, Vrf.Digests;
    ghost var before := list.list;
    assert before == peer.Contents(key);
    Deliver(peer, arrivals);
    assert list.list == peer.Contents(key);
    StillCounting(b, before, list.list, n, voters, counts, T, g, B);
  }

  method countVotes(peer: Peer, b: Ballot, round: nat, step: nat, T: nat, schedule: seq<Event>, t: Package,
                    ghost g: Group<Point>, ghost B: Point) returns (r: CountResult, ghost n: nat)
    requires Proper(b) && Ed25519(g, B) && Vrf.Digests(b.sha, 32) && t.Ready(g, B)
    requires peer.Valid() && T > 0
    modifies peer, peer.incomingVotes.Values
    ensures peer.Valid()
    ensures forall k :: old(peer.Contents(k)) <= peer.Contents(k)
    ensures CountOutcome(b, peer.Contents(constructVoteKey(round, step)), n, T, r, g, B)
  {
    hide Counting, CountOutcome, constructVoteKey, peer.Valid, peer.Contents, Ed25519, Closed, Vrf.Digests, t.Ready;
    Curve(g, B);
    var counts: map<Hash, nat> := map[];
    var voters: set<seq<byte>> := {};
    ghost var key := constructVoteKey(round, step);
    var it := peer.voteIterator(round, step);
    var list := it.list;
    NothingCounted(b, list.list, T, g, B);
    var i := 0;
    n := 0;
    while true
      invariant i <= |schedule| && peer.Valid() && fresh(it) && it.list == list && it.index == n <= |list.list|
      invariant key in peer.incomingVotes && peer.incomingVotes[key] == list && t.Ready(g, B)
      invariant forall o :: o in peer.incomingVotes.Values ==> o in old(peer.incomingVotes.Values) || fresh(o)
      invariant forall k :: old(peer.Contents(k)) <= peer.Contents(k)
      invariant Counting(b, list.list, n, voters, counts, T, g, B)
      decreases |schedule| - i, |list.list| - n
    {
      var expired := true;
      if i < |schedule| {
        Receive(peer, schedule[i].arrivals, b, key, list, n, voters, counts, T, g, B);
        HasRead(b, list.list, n, voters, counts, T, g, B);
        expired := schedule[i].expired;
        i := i + 1;
      }
      var done;
      done, voters, counts, r := Advance(it, expired, b, voters, counts, T, t, g, B);
      n := it.index;
      if done {
        ContentsOf(peer, key, list);
        return;
      }
    }
  }

  /** One step of the iterator, and what follows from it. */
  method Advance(it: Iterator, expired: bool, b: Ballot, voters: set<seq<byte>>, counts: map<Hash, nat>, T: nat,
                 t: Package, ghost g: Group<Point>, ghost B: Point)
    returns (done: bool, voters': set<seq<byte>>, counts': map<Hash, nat>, r: CountResult)
    requires Proper(b) && Ed25519(g, B) && Vrf.Digests(b.sha, 32) && Closed(g) && B in g.carrier && t.Ready(g, B)
    requires it.index <= |it.list.list| && Counting(b, it.list.list, it.index, voters, counts, T, g, B)
    modifies it
    ensures it.index == old(it.index) + (if old(it.index) < |it.list.list| then 1 else 0)
    ensures !done ==> Counting(b, it.list.list, it.index, voters', counts', T, g, B)
    ensures !done ==> old(it.index) < |it.list.list| || !expired
    ensures done ==> CountOutcome(b, it.list.list, it.index, T, r, g, B)
  {
    hide Counting, CountOutcome, Ed25519, Closed, Vrf.Digests, t.Ready;
    var msg := it.next();
    if msg.None? {
      done, voters', counts', r := expired, voters, counts, Timeout;
      AllRead(b, it.list.list, it.index, voters, counts, T, g, B);
    } else {
      done, voters', counts', r := CountOne(b, it.list.list, it.index - 1, msg.value, voters, counts, T, t, g, B);
    }
  }

  lemma Curve(g: Group<Point>, B: Point)
    requires Ed25519(g, B)
    ensures Closed(g) && B in g.carrier
  {
  }

  lemma ContentsOf(peer: Peer, key: seq<byte>, list: List)
    requires key in peer.incomingVotes && peer.incomingVotes[key] == list
    ensures peer.Contents(key) == list.list
  {
  }

  lemma HasRead(b: Ballot, ms: seq<VoteMessage>, n: nat, voters: set<seq<byte>>, counts: map<Hash, nat>, T: nat,
                g: Group<Point>, B: Point)
    requires Proper(b) && Ed25519(g, B) && Vrf.Digests(b.sha, 32) && Counting(b, ms, n, voters, counts, T, g, B)
    ensures n <= |ms|
  {
  }

  lemma AllRead(b: Ballot, ms: seq<VoteMessage>, n: nat, voters: set<seq<byte>>, counts: map<Hash, nat>, T: nat,
                g: Group<Point>, B: Point)
    requires Proper(b) && Ed25519(g, B) && Vrf.Digests(b.sha, 32) && Counting(b, ms, n, voters, counts, T, g, B)
    requires n == |ms|
    ensures CountOutcome(b, ms, n, T, Timeout, g, B)
  {
    hide Ed25519, Vrf.Digests, Counted, Crashes, Undecided;
  }

  /** The else branch: message n is skipped, or counted, which may decide the hash, or panics. */
  method CountOne(b: Ballot, ghost ms: seq<VoteMessage>, ghost n: nat, msg: VoteMessage, voters: set<seq<byte>>,
                  counts: map<Hash, nat>, T: nat, t: Package, ghost g: Group<Point>, ghost B: Point)
    returns (done: bool, voters': set<seq<byte>>, counts': map<Hash, nat>, r: CountResult)
    requires Proper(b) && Ed25519(g, B) && Vrf.Digests(b.sha, 32) && t.Ready(g, B)
    requires n < |ms| && msg == ms[n] && Counting(b, ms, n, voters, counts, T, g, B)
    ensures !done ==> Counting(b, ms, n + 1, voters', counts', T, g, B)
    ensures done ==> CountOutcome(b, ms, n + 1, T, r, g, B)
  {
    hide VotesOf, FirstVote, Tally, HasVoted, Counted, Undecided, Ed25519, Vrf.Digests, Crashes, t.Ready;
    done, voters', counts', r := false, voters, counts, Timeout;
    var processed := processMsg(b, msg, t, g, B);
    if processed.Crash? {
      done, r := true, Crashed;
      return;
    }
    var votes, hash := processed.votes, processed.hash;
    if msg.pubkey in voters || votes == 0 {
      Skipped(b, ms, n, voters, counts, T);
      return;
    }
    Added(b, ms, n, voters, counts, T);
    voters' := voters + {msg.pubkey};
    counts' := counts[hash := (if hash in counts then counts[hash] else 0) + votes];
    if counts'[hash] >= T {
      done, r := true, Reached(hash);
    }
  }

  lemma NothingCounted(b: Ballot, ms: seq<VoteMessage>, T: nat, g: Group<Point>, B: Point)
    requires Proper(b) && Ed25519(g, B) && Vrf.Digests(b.sha, 32) && T > 0
    ensures Counting(b, ms, 0, {}, map[], T, g, B)
  {
    hide Ed25519, Vrf.Digests, Crashes;
    assert ms[..0] == [];
  }
}
