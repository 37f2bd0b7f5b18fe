/** BA, reduction and binaryBA of algorand.go as programs, which follow the step machine call by call. */
module AgreementProgram {
  import opened Options
  import opened Votes
  import opened Agreement

  /** Where a node is after n steps, if step i is given the input oracle(i). */
  ghost function Exec(k: Hashes, oracle: nat -> Input, l: Local, n: nat): Local {
    if n == 0 then l
    else
      var m := Exec(k, oracle, l, n - 1);
      if Active(m) then Step(k, m, oracle(n - 1)) else m
  }

  /** The votes it has sent by then, in order, if sortition gives it subUsers(step) sub-users in each step. */
  ghost function SentBy(me: Node, k: Hashes, oracle: nat -> Input, subUsers: int -> nat, l: Local, n: nat): seq<Vote> {
    if n == 0 then []
    else
      var m := Exec(k, oracle, l, n - 1);
      var before := SentBy(me, k, oracle, subUsers, l, n - 1);
      match Sends(m)
      case Some(v) => if subUsers(v.0) > 0 then before + [Vote(me, v.0, v.1)] else before
      case None => before
  }

  /** BA gives a result, hangs in binaryBA, or fails on a block that has not arrived. */
  datatype Outcome = Agreed(final: bool, hash: Hash) | Hangs | NoBlock

  /** An honest node in one round. What its counts and coins give is up to the oracle. */
  class Participant {
    const me: Node
    const k: Hashes
    const oracle: nat -> Input
    const subUsers: int -> nat
    const arrived: Hash -> bool
    var sent: seq<Vote>
    var calls: nat
    ghost const start: Local
    ghost var local: Local

    constructor (me: Node, k: Hashes, oracle: nat -> Input, subUsers: int -> nat, arrived: Hash -> bool, block: Hash)
      ensures Valid() && this.me == me && this.k == k && this.oracle == oracle
      ensures this.subUsers == subUsers && this.arrived == arrived
      ensures local == start && start.pc == VoteOne && start.block == block && sent == []
    {
      this.me, this.k, this.oracle, this.subUsers, this.arrived := me, k, oracle, subUsers, arrived;
      sent, calls := [], 0;
      start, local := Local(VoteOne, block, block, block, 0), Local(VoteOne, block, block, block, 0);
    }

    /** The node is where the step machine is, and has sent what the step machine has sent. */
    ghost predicate Valid()
      reads this
    {
      local == Exec(k, oracle, start, calls) && sent == SentBy(me, k, oracle, subUsers, start, calls)
    }

    method committeeVote(step: int, hash: Hash)
      requires Valid() && Active(local) && Sends(local) == Some((step, hash))
      modifies this
      ensures Valid() && sent == old(sent) + if subUsers(step) > 0 then [Vote(me, step, hash)] else []
      ensures local == Step(k, old(local), oracle(old(calls)))
    {
      hide Step;
      var j := subUsers(step);
      if j > 0 {
        sent := sent + [Vote(me, step, hash)];
      }
      local := Step(k, local, oracle(calls));
      calls := calls + 1;
    }

    method countVotes(step: int) returns (r: Option<Hash>, coin: bool)
      requires Valid() && Active(local) && Sends(local) == None && Counts(local) == Some(step)
      modifies this
      ensures Valid() && sent == old(sent)
      ensures local == Step(k, old(local), Input(r, coin))
    {
      hide Step;
      var i := oracle(calls);
      r, coin := i.counted, i.coin;
      local := Step(k, local, i);
      calls := calls + 1;
    }

    /** The machine moves on where the program makes no call. */
    method skip()
      requires Valid() && Active(local) && Sends(local) == None && Counts(local) == None
      modifies this
      ensures Valid() && sent == old(sent)
      ensures local == Step(k, old(local), oracle(old(calls)))
    {
      hide Step;
      local := Step(k, local, oracle(calls));
      calls := calls + 1;
    }

    /** A vote in a step of binaryBA, and the count of that step. */
    method voteAndCount(step: int, r: Hash) returns (c: Option<Hash>, coin: bool)
      requires Valid() && local.pc.VoteIn? && Sends(local) == Some((step, r))
      modifies this
      ensures Valid() && local == Step(k, old(local).(pc := CountIn(old(local).pc.phase)), Input(c, coin))
    {
      hide Valid;
      committeeVote(step, r);
      c, coin := countVotes(step);
    }

    /** committeeVote for the steps step+1 to step+3. */
    method voteAhead(step: int, r: Hash)
      requires Valid() && local.pc == Ahead(step + 1) && local.step == step && local.r == r
      modifies this
      ensures Valid() && local == old(local).(pc := if step == 1 then VoteFinal else CountFinal)
    {
      hide Valid;
      var s := step + 1;
      while s <= step + 3
        invariant step + 1 <= s <= step + 4 && Valid() && local == old(local).(pc := Ahead(s))
      {
        committeeVote(s, r);
        s := s + 1;
      }
      skip();
    }

    method reduction(hash: Hash) returns (r: Hash)
      requires Valid() && local.pc == VoteOne && local.block == hash
      modifies this
      ensures Valid() && local.pc == VoteIn(First) && local.step == 1 && local.hash == r && local.r == r
    {
      hide Valid;
      committeeVote(REDUCTION_ONE, hash);
      var hash1, _ := countVotes(REDUCTION_ONE);
      if hash1.None? {
        committeeVote(REDUCTION_TWO, k.empty);
      } else {
        committeeVote(REDUCTION_TWO, hash1.value);
      }
      var hash2, _ := countVotes(REDUCTION_TWO);
      if hash2.None? {
        return k.empty;
      }
      return hash2.value;
    }

    /** None stands for hanging forever. The loop body runs at most 75 times. */
    method binaryBA(hash: Hash) returns (result: Option<Hash>, ghost iterations: nat)
      requires Valid() && local.pc == VoteIn(First) && local.step == 1 && local.hash == hash && local.r == hash
      modifies this
      ensures Valid()
      ensures result.None? ==> local.pc == Hung
      ensures result.Some? ==> local.pc == CountFinal && local.r == result.value
      ensures iterations <= 75 && (result.None? ==> iterations == 75)
    {
      hide Valid;
      var step, r := 1, hash;
      iterations := 0;
      while step < MAXSTEPS
        invariant step == 1 + 2 * iterations && iterations <= 75 && Valid()
        invariant local.pc == VoteIn(First) && local.step == step && local.hash == hash && local.r == r
      {
        iterations := iterations + 1;
        var c, coin := voteAndCount(step, r);
        if c.None? {
          r := hash;
        } else {
          r := c.value;
          if r != k.empty {
            voteAhead(step, r);
            if step == 1 {
              committeeVote(FINAL, r);
            }
            return Some(r), iterations;
          }
        }
        step := step + 1;

        c, coin := voteAndCount(step, r);
        if c.None? {
          r := k.empty;
        } else {
          r := c.value;
          if r == k.empty {
            voteAhead(step, r);
            return Some(r), iterations;
          }
        }
        step := step + 1;

        c, coin := voteAndCount(step, r);
        if c.None? {
          r := if coin then k.empty else hash;
        } else {
          r := c.value;
        }
      }
      skip();
      return None, iterations;
    }

    /** The result of BA is where the step machine ended, if it ended and the block is there. */
    ghost predicate Answers(result: Outcome)
      reads this
    {
      && (result == Hangs <==> local.pc == Hung)
      && (result.Agreed? ==> local.pc == Done(result.final) && local.r == result.hash)
      && (result.Agreed? ==> result.hash == k.empty || arrived(result.hash))
      && (result == NoBlock ==> local.pc.Done? && local.r != k.empty && !arrived(local.r))
    }

    /** The final type is given exactly when the FINAL count gives the hash of the result. */
    method BA(block: Hash) returns (result: Outcome)
      requires Valid() && local.pc == VoteOne && local.block == block
      modifies this
      ensures Valid() && Answers(result)
    {
      hide Valid;
      var hash := reduction(block);
      var decided, _ := binaryBA(hash);
      if decided.None? {
        return Hangs;
      }
      hash := decided.value;
      var counted, _ := countVotes(FINAL);
      var r := if counted.Some? then counted.value else k.zero;
      if hash != k.empty && !arrived(hash) {
        return NoBlock;
      }
      return Agreed(r == hash, hash);
    }
  }
}
