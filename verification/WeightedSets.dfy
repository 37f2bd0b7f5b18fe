/** Sets of voters and their weight. */
module WeightedSets {

  ghost function Weigh<K>(s: set<K>, w: K -> nat): nat
    decreases |s|
  {
    if s == {} then 0
    else
      var x :| x in s;
      w(x) + Weigh(s - {x}, w)
  }

  /** Any element may be weighed first. */
  lemma {:induction false} WeighRemove<K>(s: set<K>, w: K -> nat, x: K)
    requires x in s
    ensures Weigh(s, w) == w(x) + Weigh(s - {x}, w)
    decreases |s|
  {
    var y :| y in s && Weigh(s, w) == w(y) + Weigh(s - {y}, w);
    if y != x {
      WeighRemove(s - {y}, w, x);
      WeighRemove(s - {x}, w, y);
      assert s - {y} - {x} == s - {x} - {y};
    }
  }

  lemma WeighAdd<K>(s: set<K>, w: K -> nat, x: K)
    requires x !in s
    ensures Weigh(s + {x}, w) == w(x) + Weigh(s, w)
  {
    WeighRemove(s + {x}, w, x);
    assert s + {x} - {x} == s;
  }

  lemma {:induction false} WeighSubset<K>(s: set<K>, t: set<K>, w: K -> nat)
    requires s <= t
    ensures Weigh(s, w) <= Weigh(t, w)
    decreases |s|
  {
    if s != {} {
      var x :| x in s;
      WeighRemove(s, w, x);
      WeighRemove(t, w, x);
      WeighSubset(s - {x}, t - {x}, w);
    }
  }

  lemma {:induction false} WeighUnion<K>(s: set<K>, t: set<K>, w: K -> nat)
    ensures Weigh(s + t, w) + Weigh(s * t, w) == Weigh(s, w) + Weigh(t, w)
    decreases |s|
  {
    if s == {} {
      assert s + t == t && s * t == {};
    } else {
      var x :| x in s;
      var s' := s - {x};
      WeighRemove(s, w, x);
      WeighUnion(s', t, w);
      if x in t {
        assert s' + t == s + t && (s * t) - {x} == s' * t;
        WeighRemove(s * t, w, x);
      } else {
        assert (s + t) - {x} == s' + t && s' * t == s * t;
        WeighRemove(s + t, w, x);
      }
    }
  }

  lemma WeighPart<K>(s: set<K>, t: set<K>, w: K -> nat)
    requires t <= s
    ensures Weigh(s, w) == Weigh(t, w) + Weigh(s - t, w)
  {
    WeighUnion(t, s - t, w);
    assert t + (s - t) == s && t * (s - t) == {};
  }

  /** Two sets inside good + bad that meet only in bad weigh at most good + 2 bad. */
  lemma Overlap<K>(s: set<K>, t: set<K>, good: set<K>, bad: set<K>, w: K -> nat)
    requires s <= good + bad && t <= good + bad && s * t <= bad
    ensures Weigh(s, w) + Weigh(t, w) <= Weigh(good, w) + 2 * Weigh(bad, w)
  {
    WeighUnion(s, t, w);
    WeighSubset(s * t, bad, w);
    WeighSubset(s + t, good + bad, w);
    WeighUnion(good, bad, w);
  }

  /** A set that outweighs bad has a member outside it. */
  lemma Outweighs<K>(s: set<K>, bad: set<K>, w: K -> nat) returns (x: K)
    requires Weigh(s, w) > Weigh(bad, w)
    ensures x in s && x !in bad
  {
    if s <= bad {
      WeighSubset(s, bad, w);
    }
    x :| x in s && x !in bad;
  }
}
