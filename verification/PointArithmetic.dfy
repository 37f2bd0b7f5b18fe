/**
 The point operations read as operations of the Edwards group: which group element a
 representation stands for, and what each operation of CurveOps does to it.
 */
module PointArithmetic {
  import opened Words
  import opened Congruence
  import opened FieldElement
  import opened CurvePoints
  import opened CurveOps
  import opened Groups

  datatype Point = Point(x: int, y: int)

  ghost predicate IsInverse(a: int, b: int) {
    Cong(a * b, 1)
  }

  /** a is invertible modulo p. */
  ghost predicate Unit(a: int) {
    exists b :: IsInverse(a, b)
  }

  lemma UnitProduct(a: int, b: int)
    requires Unit(a) && Unit(b)
    ensures Unit(a * b)
  {
    hide Cong;
    var c :| IsInverse(a, c);
    var d :| IsInverse(b, d);
    CongMul(a * c, 1, b * d, 1);
    assert (a * c) * (b * d) == (a * b) * (c * d);
    assert IsInverse(a * b, c * d);
  }

  lemma UnitCong(a: int, b: int)
    requires Unit(b) && Cong(a, b)
    ensures Unit(a)
  {
    hide Cong;
    var c :| IsInverse(b, c);
    CongRefl(c);
    CongMul(a, b, c, c);
    CongTrans(a * c, b * c, 1);
    assert IsInverse(a, c);
  }

  lemma TwoIsUnit()
    ensures Unit(2) && Unit(1)
  {
    CongBy(2 * ((P + 1) / 2), 1, 1);
    assert IsInverse(2, (P + 1) / 2);
    assert IsInverse(1, 1);
  }

  /**
   What is taken for granted of the curve: the Edwards addition law makes the points of the carrier an
   abelian group with neutral element (0, 1), in which subtracting (x, y) adds (-x, y), and its two
   denominators are invertible for every pair of points of the carrier.
   */
  ghost predicate EdwardsGroup(g: Group<Point>) {
    && Abelian(g)
    && g.zero == Point(0, 1)
    && (forall p {:trigger LiesOn(p)} :: p in g.carrier ==> LiesOn(p))
    && (forall p, q {:trigger Adds(g, p, q)} :: p in g.carrier && q in g.carrier ==> Adds(g, p, q))
    && (forall p, q {:trigger Subtracts(g, p, q)} :: p in g.carrier && q in g.carrier ==> Subtracts(g, p, q))
  }

  ghost predicate LiesOn(p: Point) {
    OnCurve(p.x, p.y)
  }

  ghost predicate Adds(g: Group<Point>, p: Point, q: Point) {
    AddsTo(p, q, g.add(p, q))
  }

  ghost predicate Subtracts(g: Group<Point>, p: Point, q: Point) {
    AddsTo(p, Point(-q.x, q.y), g.add(p, g.neg(q)))
  }

  ghost predicate AddsTo(p: Point, q: Point, r: Point) {
    && IsSum(p.x, p.y, q.x, q.y, r.x, r.y)
    && Unit(SumDenX(p.x, p.y, q.x, q.y)) && Unit(SumDenY(p.x, p.y, q.x, q.y))
  }

  // ---------- what a representation stands for ----------

  ghost predicate Is(e: Extended, p: Point)
    reads e.X, e.Y, e.Z, e.T
  {
    e.Valid() && e.Stands(p.x, p.y) && Unit(Value(e.Z))
  }

  ghost predicate IsProjective(e: Projective, p: Point)
    reads e.X, e.Y, e.Z
  {
    e.Valid() && e.Stands(p.x, p.y) && Unit(Value(e.Z))
  }

  ghost predicate IsCached(c: Cached, p: Point)
    reads c.yPlusX, c.yMinusX, c.Z, c.T2d
  {
    c.Valid() && c.Stands(p.x, p.y) && Unit(Value(c.Z))
  }

  ghost predicate IsPreComputed(c: PreComputed, p: Point)
    reads c.yPlusX, c.yMinusX, c.xy2d
  {
    c.Valid() && c.Stands(p.x, p.y)
  }

  datatype Fractions = Fractions(lam: int, xn: int, xd: int, yn: int, yd: int)

  ghost predicate Meets(t: Completed, f: Fractions, p: Point)
    reads t.X, t.Y, t.Z, t.T
  {
    && t.Valid() && t.Stands(f.lam, f.xn, f.xd, f.yn, f.yd)
    && Unit(f.lam) && Unit(f.xd) && Unit(f.yd)
    && Cong(p.x * f.xd, f.xn) && Cong(p.y * f.yd, f.yn)
  }

  ghost predicate IsCompleted(t: Completed, p: Point)
    reads t.X, t.Y, t.Z, t.T
  {
    t.Valid() && exists f :: Meets(t, f, p)
  }

  // ---------- the operations ----------

  method Extend(t: Completed, u: Extended, ghost p: Point)
    requires IsCompleted(t, p) && u.Valid() && t.Repr() !! u.Repr()
    modifies u.X, u.Y, u.Z, u.T
    ensures Is(u, p)
  {
    hide Cong, Value, Small, Scaled, Affine;
    ghost var f :| Meets(t, f, p);
    ToExtended(t, u, f.lam, f.xn, f.xd, f.yn, f.yd, p.x, p.y);
    UnitProduct(f.lam, f.lam);
    UnitProduct(f.xd, f.yd);
    UnitProduct(f.lam * f.lam, f.xd * f.yd);
    UnitCong(Value(u.Z), (f.lam * f.lam) * (f.xd * f.yd));
  }

  method Project(t: Completed, r: Projective, ghost p: Point)
    requires IsCompleted(t, p) && r.Valid() && t.Repr() !! {r.X, r.Y, r.Z}
    modifies r.X, r.Y, r.Z
    ensures IsProjective(r, p)
  {
    hide Cong, Value, Small, Scaled, Affine;
    ghost var f :| Meets(t, f, p);
    ToProjective(t, r, f.lam, f.xn, f.xd, f.yn, f.yd, p.x, p.y);
    UnitProduct(f.lam, f.lam);
    UnitProduct(f.xd, f.yd);
    UnitProduct(f.lam * f.lam, f.xd * f.yd);
    UnitCong(Value(r.Z), (f.lam * f.lam) * (f.xd * f.yd));
  }

  method AddCached(t: Completed, u: Extended, q: Cached, ghost g: Group<Point>, ghost a: Point, ghost b: Point)
    requires EdwardsGroup(g) && a in g.carrier && b in g.carrier
    requires t.Valid() && Is(u, a) && IsCached(q, b)
    requires t.Repr() !! u.Repr() && t.Repr() !! q.Repr()
    modifies t.X, t.Y, t.Z, t.T
    ensures IsCompleted(t, g.add(a, b))
  {
    hide Cong, Value, Small, Scaled, Affine, Abelian, SumDenX, SumDenY, Unit;
    assert Adds(g, a, b);
    ghost var f := Fractions(2 * (Value(u.Z) * Value(q.Z)), a.x * b.y + b.x * a.y, SumDenX(a.x, a.y, b.x, b.y),
                             a.y * b.y + a.x * b.x, SumDenY(a.x, a.y, b.x, b.y));
    TwoIsUnit();
    UnitProduct(Value(u.Z), Value(q.Z));
    UnitProduct(2, Value(u.Z) * Value(q.Z));
    geAdd(t, u, q, a.x, a.y, b.x, b.y);
    assert Meets(t, f, g.add(a, b));
  }

  method SubCached(t: Completed, u: Extended, q: Cached, ghost g: Group<Point>, ghost a: Point, ghost b: Point)
    requires EdwardsGroup(g) && a in g.carrier && b in g.carrier
    requires t.Valid() && Is(u, a) && IsCached(q, b)
    requires t.Repr() !! u.Repr() && t.Repr() !! q.Repr()
    modifies t.X, t.Y, t.Z, t.T
    ensures IsCompleted(t, g.add(a, g.neg(b)))
  {
    hide Cong, Value, Small, Scaled, Affine, Abelian, SumDenX, SumDenY, Unit;
    ghost var c := g.add(a, g.neg(b));
    assert Subtracts(g, a, b);
    ghost var f := Fractions(2 * (Value(u.Z) * Value(q.Z)), a.x * b.y + -b.x * a.y, SumDenX(a.x, a.y, -b.x, b.y),
                             a.y * b.y + a.x * -b.x, SumDenY(a.x, a.y, -b.x, b.y));
    TwoIsUnit();
    UnitProduct(Value(u.Z), Value(q.Z));
    UnitProduct(2, Value(u.Z) * Value(q.Z));
    geSub(t, u, q, a.x, a.y, b.x, b.y);
    assert Meets(t, f, c);
  }

  method AddMixed(t: Completed, u: Extended, q: PreComputed, ghost g: Group<Point>, ghost a: Point, ghost b: Point)
    requires EdwardsGroup(g) && a in g.carrier && b in g.carrier
    requires t.Valid() && Is(u, a) && IsPreComputed(q, b)
    requires t.Repr() !! u.Repr() && t.Repr() !! q.Repr()
    modifies t.X, t.Y, t.Z, t.T
    ensures IsCompleted(t, g.add(a, b))
  {
    hide Cong, Value, Small, Scaled, Affine, Abelian, SumDenX, SumDenY, Unit;
    assert Adds(g, a, b);
    ghost var f := Fractions(2 * Value(u.Z), a.x * b.y + b.x * a.y, SumDenX(a.x, a.y, b.x, b.y),
                             a.y * b.y + a.x * b.x, SumDenY(a.x, a.y, b.x, b.y));
    TwoIsUnit();
    UnitProduct(2, Value(u.Z));
    geMixedAdd(t, u, q, a.x, a.y, b.x, b.y);
    assert Meets(t, f, g.add(a, b));
  }

  /** Adding a table entry for (-x, y) subtracts (x, y). */
  method AddMixedNegated(t: Completed, u: Extended, q: PreComputed, ghost g: Group<Point>, ghost a: Point,
                         ghost b: Point)
    requires EdwardsGroup(g) && a in g.carrier && b in g.carrier
    requires t.Valid() && Is(u, a) && IsPreComputed(q, Point(-b.x, b.y))
    requires t.Repr() !! u.Repr() && t.Repr() !! q.Repr()
    modifies t.X, t.Y, t.Z, t.T
    ensures IsCompleted(t, g.add(a, g.neg(b)))
  {
    hide Cong, Value, Small, Scaled, Affine, Abelian, SumDenX, SumDenY, Unit;
    ghost var c := g.add(a, g.neg(b));
    assert Subtracts(g, a, b);
    ghost var f := Fractions(2 * Value(u.Z), a.x * b.y + -b.x * a.y, SumDenX(a.x, a.y, -b.x, b.y),
                             a.y * b.y + a.x * -b.x, SumDenY(a.x, a.y, -b.x, b.y));
    TwoIsUnit();
    UnitProduct(2, Value(u.Z));
    geMixedAdd(t, u, q, a.x, a.y, -b.x, b.y);
    assert Meets(t, f, c);
  }

  method SubMixed(t: Completed, u: Extended, q: PreComputed, ghost g: Group<Point>, ghost a: Point, ghost b: Point)
    requires EdwardsGroup(g) && a in g.carrier && b in g.carrier
    requires t.Valid() && Is(u, a) && IsPreComputed(q, b)
    requires t.Repr() !! u.Repr() && t.Repr() !! q.Repr()
    modifies t.X, t.Y, t.Z, t.T
    ensures IsCompleted(t, g.add(a, g.neg(b)))
  {
    hide Cong, Value, Small, Scaled, Affine, Abelian, SumDenX, SumDenY, Unit;
    ghost var c := g.add(a, g.neg(b));
    assert Subtracts(g, a, b);
    ghost var f := Fractions(2 * Value(u.Z), a.x * b.y + -b.x * a.y, SumDenX(a.x, a.y, -b.x, b.y),
                             a.y * b.y + a.x * -b.x, SumDenY(a.x, a.y, -b.x, b.y));
    TwoIsUnit();
    UnitProduct(2, Value(u.Z));
    geMixedSub(t, u, q, a.x, a.y, b.x, b.y);
    assert Meets(t, f, c);
  }

  /** The denominators of the addition law at twice the same point; on the curve they are those of doubling. */
  lemma DoubleDenominators(x: int, y: int)
    ensures SumDenX(x, y, x, y) == 1 + D * ((x * x) * (y * y))
    ensures SumDenY(x, y, x, y) == 1 - D * ((x * x) * (y * y))
  {
    assert (x * y) * (x * y) == (x * x) * (y * y);
  }

  lemma Complement(u: int, m: int)
    requires Cong(u, 1 + m)
    ensures Cong(2 - u, 1 - m)
  {
    hide Cong;
    CongRefl(2);
    CongAdd(2, 2, u, 1 + m);
    assert 2 - (1 + m) == 1 - m;
  }

  method DoublePoint(r: Projective, t: Completed, ghost g: Group<Point>, ghost a: Point)
    requires EdwardsGroup(g) && a in g.carrier
    requires IsProjective(r, a) && t.Valid() && {r.X, r.Y, r.Z} !! t.Repr()
    modifies t.X, t.Y, t.Z, t.T
    ensures IsCompleted(t, g.add(a, a))
  {
    hide Cong, Value, Small, Scaled, Affine, Abelian, SumDenX, SumDenY, Unit;
    ghost var c := g.add(a, a);
    assert Adds(g, a, a) && LiesOn(a);
    ghost var u := a.y * a.y - a.x * a.x;
    ghost var f := Fractions(Value(r.Z) * Value(r.Z), 2 * (a.x * a.y), u, a.y * a.y + a.x * a.x, 2 - u);
    UnitProduct(Value(r.Z), Value(r.Z));
    DoubleDenominators(a.x, a.y);
    Complement(u, D * ((a.x * a.x) * (a.y * a.y)));
    UnitCong(u, SumDenX(a.x, a.y, a.x, a.y));
    UnitCong(2 - u, SumDenY(a.x, a.y, a.x, a.y));
    SwapDenominator(u, SumDenX(a.x, a.y, a.x, a.y), c.x, 2 * (a.x * a.y));
    SwapDenominator(2 - u, SumDenY(a.x, a.y, a.x, a.y), c.y, a.y * a.y + a.x * a.x);
    Double(r, t, a.x, a.y);
    assert Meets(t, f, c);
  }

  method CopyToProjective(p: Extended, r: Projective, ghost a: Point)
    requires Is(p, a) && r.Valid() && p.Repr() !! {r.X, r.Y, r.Z}
    modifies r.X, r.Y, r.Z
    ensures IsProjective(r, a)
  {
    hide Cong, Value, Small;
    Copy(r.X, p.X, 2);
    Copy(r.Y, p.Y, 1);
    Copy(r.Z, p.Z, 1);
  }

  method CachePoint(p: Extended, r: Cached, d2: array<int32>, ghost a: Point)
    requires Is(p, a) && r.Valid() && p.Repr() !! r.Repr()
    requires IsElement(d2) && d2 !in r.Repr() && Limbs(d2) == D2_LIMBS
    modifies r.yPlusX, r.yMinusX, r.Z, r.T2d
    ensures IsCached(r, a)
  {
    hide Cong, Value, Small;
    ToCached(p, r, d2, a.x, a.y);
  }

  method ZeroExtended(p: Extended)
    requires p.Valid()
    modifies p.X, p.Y, p.Z, p.T
    ensures Is(p, Point(0, 1))
  {
    hide Value;
    FeZero(p.X);
    FeOne(p.Y);
    FeOne(p.Z);
    FeZero(p.T);
    TwoIsUnit();
  }

  method ZeroProjective(p: Projective)
    requires p.Valid()
    modifies p.X, p.Y, p.Z
    ensures IsProjective(p, Point(0, 1))
  {
    hide Value;
    FeZero(p.X);
    FeOne(p.Y);
    FeOne(p.Z);
    TwoIsUnit();
  }
}
