/** Abelian groups with an explicit carrier, and integer multiples in them. */
module Groups {

  datatype Group<!G> = Group(carrier: iset<G>, zero: G, add: (G, G) -> G, neg: G -> G)

  ghost predicate Closed<G(!new)>(g: Group<G>) {
    && g.zero in g.carrier
    && (forall x, y {:trigger g.add(x, y)} :: x in g.carrier && y in g.carrier ==> g.add(x, y) in g.carrier)
    && (forall x {:trigger g.neg(x)} :: x in g.carrier ==> g.neg(x) in g.carrier)
  }

  // The laws are stated through predicates on their arguments: a law applies to elements that are named to it.

  ghost predicate CommutesAt<G>(g: Group<G>, x: G, y: G) {
    g.add(x, y) == g.add(y, x)
  }

  ghost predicate AssociatesAt<G>(g: Group<G>, x: G, y: G, z: G) {
    g.add(g.add(x, y), z) == g.add(x, g.add(y, z))
  }

  ghost predicate InverseAt<G>(g: Group<G>, x: G) {
    g.add(x, g.zero) == x && g.add(x, g.neg(x)) == g.zero
  }

  ghost predicate Commutes<G(!new)>(g: Group<G>) {
    forall x, y {:trigger CommutesAt(g, x, y)} :: x in g.carrier && y in g.carrier ==> CommutesAt(g, x, y)
  }

  ghost predicate Associates<G(!new)>(g: Group<G>) {
    forall x, y, z {:trigger AssociatesAt(g, x, y, z)} ::
      x in g.carrier && y in g.carrier && z in g.carrier ==> AssociatesAt(g, x, y, z)
  }

  ghost predicate HasInverses<G(!new)>(g: Group<G>) {
    forall x {:trigger InverseAt(g, x)} :: x in g.carrier ==> InverseAt(g, x)
  }

  ghost predicate Abelian<G(!new)>(g: Group<G>) {
    Closed(g) && Commutes(g) && Associates(g) && HasInverses(g)
  }

  lemma Commute<G(!new)>(g: Group<G>, x: G, y: G)
    requires Abelian(g) && x in g.carrier && y in g.carrier
    ensures g.add(x, y) == g.add(y, x)
  {
    assert CommutesAt(g, x, y);
  }

  lemma Associate<G(!new)>(g: Group<G>, x: G, y: G, z: G)
    requires Abelian(g) && x in g.carrier && y in g.carrier && z in g.carrier
    ensures g.add(g.add(x, y), z) == g.add(x, g.add(y, z))
  {
    assert AssociatesAt(g, x, y, z);
  }

  lemma Neutral<G(!new)>(g: Group<G>, x: G)
    requires Abelian(g) && x in g.carrier
    ensures g.add(x, g.zero) == x && g.add(g.zero, x) == x
  {
    assert InverseAt(g, x);
    Commute(g, x, g.zero);
  }

  lemma Inverse<G(!new)>(g: Group<G>, x: G)
    requires Abelian(g) && x in g.carrier
    ensures g.add(x, g.neg(x)) == g.zero && g.add(g.neg(x), x) == g.zero
  {
    assert InverseAt(g, x);
    Commute(g, x, g.neg(x));
  }

  /** n x, for any integer n. */
  ghost function Times<G(!new)>(g: Group<G>, n: int, x: G): (r: G)
    requires Closed(g) && x in g.carrier
    ensures r in g.carrier
    decreases if n < 0 then -2 * n + 1 else 2 * n
  {
    if n == 0 then g.zero
    else if n > 0 then g.add(Times(g, n - 1, x), x)
    else g.neg(Times(g, -n, x))
  }

  lemma Cancel<G(!new)>(g: Group<G>, x: G, y: G, z: G)
    requires Abelian(g) && x in g.carrier && y in g.carrier && z in g.carrier
    requires g.add(x, z) == g.add(y, z)
    ensures x == y
  {
    hide Commutes, Associates, HasInverses;
    Inverse(g, z);
    Associate(g, x, z, g.neg(z));
    Associate(g, y, z, g.neg(z));
    Neutral(g, x);
    Neutral(g, y);
  }

  /** (x + y) + (z + w) = (x + z) + (y + w) */
  lemma Shuffle<G(!new)>(g: Group<G>, x: G, y: G, z: G, w: G)
    requires Abelian(g) && x in g.carrier && y in g.carrier && z in g.carrier && w in g.carrier
    ensures g.add(g.add(x, y), g.add(z, w)) == g.add(g.add(x, z), g.add(y, w))
  {
    hide Commutes, Associates, HasInverses;
    Associate(g, x, y, g.add(z, w));
    Associate(g, y, z, w);
    Commute(g, y, z);
    Associate(g, z, y, w);
    Associate(g, x, z, g.add(y, w));
  }

  /** (n + 1) x = n x + x, for any integer n. */
  lemma TimesSucc<G(!new)>(g: Group<G>, n: int, x: G)
    requires Abelian(g) && x in g.carrier
    ensures Times(g, n + 1, x) == g.add(Times(g, n, x), x)
  {
    hide Commutes, Associates, HasInverses;
    if n < 0 {
      var k := -n - 1;
      var y := Times(g, k, x);
      var z := g.add(y, x);
      assert Times(g, n, x) == g.neg(z);
      Associate(g, g.neg(z), x, y);
      Commute(g, x, y);
      Inverse(g, z);
      if k == 0 {
        Neutral(g, g.add(g.neg(z), x));
      } else {
        Inverse(g, y);
        Cancel(g, g.add(g.neg(z), x), g.neg(y), y);
      }
    }
  }

  lemma {:induction false} TimesAdds<G(!new)>(g: Group<G>, m: int, n: nat, x: G)
    requires Abelian(g) && x in g.carrier
    ensures Times(g, m + n, x) == g.add(Times(g, m, x), Times(g, n, x))
    decreases n
  {
    hide Commutes, Associates, HasInverses;
    if n == 0 {
      Neutral(g, Times(g, m, x));
    } else {
      TimesAdds(g, m, n - 1, x);
      TimesSucc(g, m + n - 1, x);
      Associate(g, Times(g, m, x), Times(g, n - 1, x), x);
    }
  }

  /** (m + n) x = m x + n x, for any integers. */
  lemma TimesSum<G(!new)>(g: Group<G>, m: int, n: int, x: G)
    requires Abelian(g) && x in g.carrier
    ensures Times(g, m + n, x) == g.add(Times(g, m, x), Times(g, n, x))
  {
    hide Commutes, Associates, HasInverses;
    if n >= 0 {
      TimesAdds(g, m, n, x);
    } else {
      TimesAdds(g, m + n, -n, x);
      var y, z := Times(g, -n, x), Times(g, m + n, x);
      Associate(g, z, y, g.neg(y));
      Inverse(g, y);
      Neutral(g, z);
    }
  }

  /** m (n x) = (m n) x */
  lemma {:induction false} TimesTimes<G(!new)>(g: Group<G>, m: nat, n: int, x: G)
    requires Abelian(g) && x in g.carrier
    ensures Times(g, m * n, x) == Times(g, m, Times(g, n, x))
    decreases m
  {
    hide Commutes, Associates, HasInverses;
    if m > 0 {
      TimesTimes(g, m - 1, n, x);
      TimesSum(g, (m - 1) * n, n, x);
      assert (m - 1) * n + n == m * n;
    }
  }

  lemma TimesNegates<G(!new)>(g: Group<G>, n: int, x: G)
    requires Abelian(g) && x in g.carrier
    ensures Times(g, -n, x) == g.neg(Times(g, n, x))
  {
    hide Commutes, Associates, HasInverses;
    var y := Times(g, n, x);
    TimesSum(g, -n, n, x);
    Inverse(g, y);
    Cancel(g, Times(g, -n, x), g.neg(y), y);
  }

  lemma TimesOne<G(!new)>(g: Group<G>, x: G)
    requires Abelian(g) && x in g.carrier
    ensures Times(g, 1, x) == x
  {
    hide Commutes, Associates, HasInverses;
    Neutral(g, x);
    assert Times(g, 1, x) == g.add(Times(g, 0, x), x);
  }

  /** a A + b B */
  ghost function Combination<G(!new)>(g: Group<G>, a: int, A: G, b: int, B: G): (r: G)
    requires Closed(g) && A in g.carrier && B in g.carrier
    ensures r in g.carrier
  {
    g.add(Times(g, a, A), Times(g, b, B))
  }

  lemma CombinationSum<G(!new)>(g: Group<G>, a: int, b: int, c: int, d: int, A: G, B: G)
    requires Abelian(g) && A in g.carrier && B in g.carrier
    ensures Combination(g, a + c, A, b + d, B) == g.add(Combination(g, a, A, b, B), Combination(g, c, A, d, B))
  {
    hide Commutes, Associates, HasInverses;
    TimesSum(g, a, c, A);
    TimesSum(g, b, d, B);
    Shuffle(g, Times(g, a, A), Times(g, c, A), Times(g, b, B), Times(g, d, B));
  }
}
