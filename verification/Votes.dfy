/** The vote store of peer.go and the counting of votes in algorand.go. */
module Votes {
  import opened Options
  import opened Words
  import opened ByteStrings
  import opened Octets

  type Hash = seq<byte>

  /**
   A vote. Its pubkey is the first 32 octets of its signature, fewer if the signature is shorter; signed says whether
   the rest of the signature verifies.
   */
  datatype VoteMessage = VoteMessage(pubkey: seq<byte>, signed: bool, round: nat, step: nat,
                                     vrf: seq<byte>, proof: seq<byte>, parentHash: Hash, hash: Hash)

  // ---------- keys ----------

  /** Eight octets, big-endian; both numbers are 64 bits wide. */
  function constructVoteKey(round: nat, step: nat): (key: seq<byte>)
    ensures |key| == 16
  {
    I2OSP(round, 8) + I2OSP(step, 8)
  }

  /** Votes of different rounds or steps never share a list. */
  lemma VoteKeyInjective(round: nat, step: nat, round': nat, step': nat)
    requires round < Pow256(8) && step < Pow256(8) && round' < Pow256(8) && step' < Pow256(8)
    requires constructVoteKey(round, step) == constructVoteKey(round', step')
    ensures round == round' && step == step'
  {
    hide I2OSP, Pow256;
    var a, b, a', b' := I2OSP(round, 8), I2OSP(step, 8), I2OSP(round', 8), I2OSP(step', 8);
    assert a == (a + b)[..8] && b == (a + b)[8..] && a' == (a' + b')[..8] && b' == (a' + b')[8..];
    I2OSPRoundTrip(round, 8);
    I2OSPRoundTrip(step, 8);
    I2OSPRoundTrip(round', 8);
    I2OSPRoundTrip(step', 8);
  }

  // ---------- the store ----------

  class List {
    var list: seq<VoteMessage>

    constructor ()
      ensures list == []
    {
      list := [];
    }

    method add(el: VoteMessage)
      modifies this
      ensures list == old(list) + [el]
    {
      list := list + [el];
    }

    function get(index: nat): (r: Option<VoteMessage>)
      reads this
      ensures r.Some? <==> index < |list|
      ensures r.Some? ==> r.value == list[index]
    {
      if index >= |list| then None else Some(list[index])
    }
  }

  class Iterator {
    const list: List
    var index: nat

    constructor (list: List)
      ensures this.list == list && index == 0
    {
      this.list, index := list, 0;
    }

    /** The next element, once it is there; until then the iterator stays where it is. */
    method next() returns (r: Option<VoteMessage>)
      modifies this
      ensures r == list.get(old(index))
      ensures index == old(index) + if r.Some? then 1 else 0
    {
      r := list.get(index);
      if r.Some? {
        index := index + 1;
      }
    }
  }

  class Peer {
    var incomingVotes: map<seq<byte>, List>

    constructor ()
      ensures Valid() && incomingVotes == map[]
    {
      incomingVotes := map[];
    }

    /** No two keys share a list. */
    ghost predicate Valid()
      reads this
    {
      forall k, k' :: k in incomingVotes && k' in incomingVotes && k != k' ==> incomingVotes[k] != incomingVotes[k']
    }

    ghost function Contents(key: seq<byte>): seq<VoteMessage>
      reads this, incomingVotes.Values
    {
      if key in incomingVotes then incomingVotes[key].list else []
    }

    /** The VOTE branch of handle: the vote goes to the end of its own list and nowhere else. */
    method handle(vote: VoteMessage)
      requires Valid()
      modifies this, incomingVotes.Values
      ensures Valid()
      ensures var key := constructVoteKey(vote.round, vote.step);
              && Contents(key) == old(Contents(key)) + [vote]
              && forall k :: k != key ==> Contents(k) == old(Contents(k))
      ensures forall k :: k in old(incomingVotes) ==> k in incomingVotes && incomingVotes[k] == old(incomingVotes[k])
      ensures forall o :: o in incomingVotes.Values ==> o in old(incomingVotes.Values) || fresh(o)
    {
      var key := constructVoteKey(vote.round, vote.step);
      var list: List;
      if key in incomingVotes {
        list := incomingVotes[key];
      } else {
        list := new List();
      }
      list.add(vote);
      incomingVotes := incomingVotes[key := list];
    }

    method voteIterator(round: nat, step: nat) returns (it: Iterator)
      requires Valid()
      modifies this
      ensures Valid() && fresh(it) && it.index == 0
      ensures forall k :: Contents(k) == old(Contents(k))
      ensures var key := constructVoteKey(round, step); key in incomingVotes && it.list == incomingVotes[key]
      ensures forall o :: o in incomingVotes.Values ==> o in old(incomingVotes.Values) || fresh(o)
    {
      var key := constructVoteKey(round, step);
      if key !in incomingVotes {
        var list := new List();
        incomingVotes := incomingVotes[key := list];
      }
      it := new Iterator(incomingVotes[key]);
    }
  }
}
