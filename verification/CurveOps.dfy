/**
 The point types of vrf/edwards25519/edwards25519.go as objects whose coordinates are written in
 place, and the operations on them. The ghost arguments are affine coordinates; the contracts say
 which affine point each result stands for and keep every limb inside FeMul's range.
 */
module CurveOps {
  import opened Words
  import opened Congruence
  import opened FieldElement
  import opened FieldMultiply
  import opened FieldChains
  import opened CurvePoints

  /** (X : Y : Z) with x = X/Z and y = Y/Z. A decompressed X has canonical limbs, up to two units. */
  class Projective {
    const X: array<int32>
    const Y: array<int32>
    const Z: array<int32>

    ghost predicate Valid() {
      IsElement(X) && IsElement(Y) && IsElement(Z) && X != Y && X != Z && Y != Z
    }

    ghost predicate Stands(x: int, y: int)
      requires Valid()
      reads X, Y, Z
    {
      && Small(X, 2) && Small(Y, 1) && Small(Z, 1)
      && Affine(Value(X), Value(Y), Value(Z), x, y)
    }

    constructor ()
      ensures Valid() && fresh(X) && fresh(Y) && fresh(Z)
    {
      X, Y, Z := new int32[10], new int32[10], new int32[10];
    }
  }

  /** (X : Y : Z : T) with x = X/Z, y = Y/Z and X Y = Z T. */
  class Extended {
    const X: array<int32>
    const Y: array<int32>
    const Z: array<int32>
    const T: array<int32>

    ghost predicate Valid() {
      && IsElement(X) && IsElement(Y) && IsElement(Z) && IsElement(T)
      && X != Y && X != Z && X != T && Y != Z && Y != T && Z != T
    }

    ghost function Repr(): set<object> {
      {X, Y, Z, T}
    }

    ghost predicate Stands(x: int, y: int)
      requires Valid()
      reads X, Y, Z, T
    {
      && Small(X, 2) && Small(Y, 1) && Small(Z, 1) && Small(T, 1)
      && Affine(Value(X), Value(Y), Value(Z), x, y)
      && Cong(Value(T), (x * y) * Value(Z))
    }

    constructor ()
      ensures Valid() && fresh(Repr())
    {
      X, Y, Z, T := new int32[10], new int32[10], new int32[10], new int32[10];
    }
  }

  /** ((X : Z), (Y : T)) with x = X/Z and y = Y/T. */
  class Completed {
    const X: array<int32>
    const Y: array<int32>
    const Z: array<int32>
    const T: array<int32>

    ghost predicate Valid() {
      && IsElement(X) && IsElement(Y) && IsElement(Z) && IsElement(T)
      && X != Y && X != Z && X != T && Y != Z && Y != T && Z != T
    }

    ghost function Repr(): set<object> {
      {X, Y, Z, T}
    }

    /** The coordinates are lam times the two fractions xn/xd and yn/yd, with limbs of at most three units. */
    ghost predicate Stands(lam: int, xn: int, xd: int, yn: int, yd: int)
      requires Valid()
      reads X, Y, Z, T
    {
      && Small(X, 3) && Small(Y, 3) && Small(Z, 3) && Small(T, 3)
      && Scaled(Value(X), Value(Y), Value(Z), Value(T), lam, xn, xd, yn, yd)
    }

    constructor ()
      ensures Valid() && fresh(Repr())
    {
      X, Y, Z, T := new int32[10], new int32[10], new int32[10], new int32[10];
    }
  }

  /** (Y+X, Y-X, Z, 2dT) of an extended point. */
  class Cached {
    const yPlusX: array<int32>
    const yMinusX: array<int32>
    const Z: array<int32>
    const T2d: array<int32>

    ghost predicate Valid() {
      && IsElement(yPlusX) && IsElement(yMinusX) && IsElement(Z) && IsElement(T2d)
      && yPlusX != yMinusX && yPlusX != Z && yPlusX != T2d && yMinusX != Z && yMinusX != T2d && Z != T2d
    }

    ghost function Repr(): set<object> {
      {yPlusX, yMinusX, Z, T2d}
    }

    ghost predicate Stands(x: int, y: int)
      requires Valid()
      reads yPlusX, yMinusX, Z, T2d
    {
      && Small(yPlusX, 3) && Small(yMinusX, 3) && Small(Z, 1) && Small(T2d, 1)
      && Cong(Value(yPlusX), (y + x) * Value(Z))
      && Cong(Value(yMinusX), (y - x) * Value(Z))
      && Cong(Value(T2d), (2 * D * (x * y)) * Value(Z))
    }

    constructor ()
      ensures Valid() && fresh(Repr())
    {
      yPlusX, yMinusX, Z, T2d := new int32[10], new int32[10], new int32[10], new int32[10];
    }
  }

  /** (y+x, y-x, 2dxy) of an affine point. */
  class PreComputed {
    const yPlusX: array<int32>
    const yMinusX: array<int32>
    const xy2d: array<int32>

    ghost predicate Valid() {
      && IsElement(yPlusX) && IsElement(yMinusX) && IsElement(xy2d)
      && yPlusX != yMinusX && yPlusX != xy2d && yMinusX != xy2d
    }

    ghost function Repr(): set<object> {
      {yPlusX, yMinusX, xy2d}
    }

    ghost predicate Stands(x: int, y: int)
      requires Valid()
      reads yPlusX, yMinusX, xy2d
    {
      && Small(yPlusX, 3) && Small(yMinusX, 3) && Small(xy2d, 1)
      && Cong(Value(yPlusX), y + x)
      && Cong(Value(yMinusX), y - x)
      && Cong(Value(xy2d), 2 * D * (x * y))
    }

    constructor ()
      ensures Valid() && fresh(Repr())
    {
      yPlusX, yMinusX, xy2d := new int32[10], new int32[10], new int32[10];
    }
  }

  /** FeMul on operands of n and m units. */
  method Multiply(h: array<int32>, f: array<int32>, g: array<int32>, ghost n: nat, ghost m: nat)
    requires IsElement(h) && IsElement(f) && IsElement(g)
    requires Small(f, n) && Small(g, m) && n <= 3 && m <= 3
    modifies h
    ensures Cong(Value(h), old(Value(f)) * old(Value(g)))
    ensures Small(h, 1)
  {
    SmallIsLoose(f, n);
    SmallIsLoose(g, m);
    FeMul(h, f, g);
  }

  /** FeSquare on an operand of n units. */
  method Square(h: array<int32>, f: array<int32>, ghost n: nat)
    requires IsElement(h) && IsElement(f)
    requires Small(f, n) && n <= 3
    modifies h
    ensures Cong(Value(h), old(Value(f)) * old(Value(f)))
    ensures Small(h, 1)
  {
    SmallIsLoose(f, n);
    FeSquare(h, f);
  }

  method Copy(dst: array<int32>, src: array<int32>, ghost n: nat)
    requires IsElement(dst) && IsElement(src) && Small(src, n)
    modifies dst
    ensures Value(dst) == old(Value(src)) && Small(dst, n)
  {
    FeCopy(dst, src);
  }

  lemma Grow(f: array<int32>, n: nat, m: nat)
    requires IsElement(f) && Small(f, n) && n <= m
    ensures Small(f, m)
  {
  }

  /** The first five steps of the four additions: (Y+X) plus, (Y-X) minus and t2d T, left in Z, Y and T. */
  method Products(r: Completed, p: Extended, plus: array<int32>, minus: array<int32>, t2d: array<int32>)
    requires r.Valid() && p.Valid() && IsElement(plus) && IsElement(minus) && IsElement(t2d)
    requires r.Repr() !! p.Repr() && plus !in r.Repr() && minus !in r.Repr() && t2d !in r.Repr()
    requires Small(p.X, 2) && Small(p.Y, 1) && Small(p.T, 1)
    requires Small(plus, 3) && Small(minus, 3) && Small(t2d, 1)
    modifies r.X, r.Y, r.Z, r.T
    ensures Cong(Value(r.Z), (Value(p.Y) + Value(p.X)) * Value(plus)) && Small(r.Z, 1)
    ensures Cong(Value(r.Y), (Value(p.Y) - Value(p.X)) * Value(minus)) && Small(r.Y, 1)
    ensures Cong(Value(r.T), Value(t2d) * Value(p.T)) && Small(r.T, 1)
  {
    hide Cong, Value, Small, Limbs;
    FeAdd(r.X, p.Y, p.X, 1, 2);
    FeSub(r.Y, p.Y, p.X, 1, 2);
    Multiply(r.Z, r.X, plus, 3, 3);
    Multiply(r.Y, r.Y, minus, 3, 3);
    Multiply(r.T, t2d, p.T, 1, 1);
  }

  /** The last four steps of geAdd and geMixedAdd. */
  method Sums(r: Completed, t0: array<int32>)
    requires r.Valid() && IsElement(t0) && t0 !in r.Repr()
    requires Small(r.Z, 1) && Small(r.Y, 1) && Small(r.T, 1) && Small(t0, 2)
    modifies r.X, r.Y, r.Z, r.T
    ensures Value(r.X) == old(Value(r.Z)) - old(Value(r.Y)) && Small(r.X, 3)
    ensures Value(r.Y) == old(Value(r.Z)) + old(Value(r.Y)) && Small(r.Y, 3)
    ensures Value(r.Z) == old(Value(t0)) + old(Value(r.T)) && Small(r.Z, 3)
    ensures Value(r.T) == old(Value(t0)) - old(Value(r.T)) && Small(r.T, 3)
  {
    hide Value, Small, Limbs;
    FeSub(r.X, r.Z, r.Y, 1, 1);
    FeAdd(r.Y, r.Z, r.Y, 1, 1);
    FeAdd(r.Z, t0, r.T, 2, 1);
    FeSub(r.T, t0, r.T, 2, 1);
    Grow(r.X, 2, 3);
    Grow(r.Y, 2, 3);
  }

  /** The last four steps of geSub and geMixedSub. */
  method Differences(r: Completed, t0: array<int32>)
    requires r.Valid() && IsElement(t0) && t0 !in r.Repr()
    requires Small(r.Z, 1) && Small(r.Y, 1) && Small(r.T, 1) && Small(t0, 2)
    modifies r.X, r.Y, r.Z, r.T
    ensures Value(r.X) == old(Value(r.Z)) - old(Value(r.Y)) && Small(r.X, 3)
    ensures Value(r.Y) == old(Value(r.Z)) + old(Value(r.Y)) && Small(r.Y, 3)
    ensures Value(r.Z) == old(Value(t0)) - old(Value(r.T)) && Small(r.Z, 3)
    ensures Value(r.T) == old(Value(t0)) + old(Value(r.T)) && Small(r.T, 3)
  {
    hide Value, Small, Limbs;
    FeSub(r.X, r.Z, r.Y, 1, 1);
    FeAdd(r.Y, r.Z, r.Y, 1, 1);
    FeSub(r.Z, t0, r.T, 2, 1);
    FeAdd(r.T, t0, r.T, 2, 1);
    Grow(r.X, 2, 3);
    Grow(r.Y, 2, 3);
  }

  /** r = p + q as fractions. */
  method geAdd(r: Completed, p: Extended, q: Cached, ghost x1: int, ghost y1: int, ghost x2: int, ghost y2: int)
    requires r.Valid() && p.Valid() && q.Valid()
    requires r.Repr() !! p.Repr() && r.Repr() !! q.Repr()
    requires p.Stands(x1, y1) && q.Stands(x2, y2)
    modifies r.X, r.Y, r.Z, r.T
    ensures r.Stands(2 * (Value(p.Z) * Value(q.Z)), x1 * y2 + x2 * y1, SumDenX(x1, y1, x2, y2),
                     y1 * y2 + x1 * x2, SumDenY(x1, y1, x2, y2))
  {
    hide Cong, Value, Small, Limbs, Scaled, SumDenX, SumDenY;
    var t0 := new int32[10];
    Products(r, p, q.yPlusX, q.yMinusX, q.T2d);
    Multiply(r.X, p.Z, q.Z, 1, 1);
    ghost var A, B, C, E := Value(r.Z), Value(r.Y), Value(r.T), Value(r.X);
    FeAdd(t0, r.X, r.X, 1, 1);
    Sums(r, t0);
    AddLaw(Value(p.X), Value(p.Y), Value(p.Z), Value(p.T), Value(q.yPlusX), Value(q.yMinusX), Value(q.Z), Value(q.T2d),
           A, B, C, E, x1, y1, x2, y2);
  }

  /** Subtracting (x2, y2) is adding (-x2, y2). */
  lemma NegatedOperand(Z2: int, T1: int, yp: int, ym: int, t2d: int, C: int, x2: int, y2: int)
    requires Cong(yp, (y2 + x2) * Z2) && Cong(ym, (y2 - x2) * Z2) && Cong(t2d, (2 * D * (x2 * y2)) * Z2)
    requires Cong(C, t2d * T1)
    ensures Cong(ym, (y2 + -x2) * Z2) && Cong(yp, (y2 - -x2) * Z2)
    ensures Cong(-t2d, (2 * D * (-x2 * y2)) * Z2)
    ensures Cong(-C, -t2d * T1)
  {
    hide Cong;
    CongNeg(t2d, (2 * D * (x2 * y2)) * Z2);
    CongNeg(C, t2d * T1);
    var m := x2 * y2;
    assert -x2 * y2 == -m;
    assert -((2 * D * m) * Z2) == (2 * D * -m) * Z2;
    assert -(t2d * T1) == -t2d * T1;
  }

  /** r = p - q as fractions. */
  method geSub(r: Completed, p: Extended, q: Cached, ghost x1: int, ghost y1: int, ghost x2: int, ghost y2: int)
    requires r.Valid() && p.Valid() && q.Valid()
    requires r.Repr() !! p.Repr() && r.Repr() !! q.Repr()
    requires p.Stands(x1, y1) && q.Stands(x2, y2)
    modifies r.X, r.Y, r.Z, r.T
    ensures r.Stands(2 * (Value(p.Z) * Value(q.Z)), x1 * y2 + -x2 * y1, SumDenX(x1, y1, -x2, y2),
                     y1 * y2 + x1 * -x2, SumDenY(x1, y1, -x2, y2))
  {
    hide Cong, Value, Small, Limbs, Scaled, SumDenX, SumDenY;
    var t0 := new int32[10];
    Products(r, p, q.yMinusX, q.yPlusX, q.T2d);
    Multiply(r.X, p.Z, q.Z, 1, 1);
    ghost var A, B, C, E := Value(r.Z), Value(r.Y), Value(r.T), Value(r.X);
    FeAdd(t0, r.X, r.X, 1, 1);
    Differences(r, t0);
    NegatedOperand(Value(q.Z), Value(p.T), Value(q.yPlusX), Value(q.yMinusX), Value(q.T2d), C, x2, y2);
    AddLaw(Value(p.X), Value(p.Y), Value(p.Z), Value(p.T), Value(q.yMinusX), Value(q.yPlusX), Value(q.Z), -Value(q.T2d),
           A, B, -C, E, x1, y1, -x2, y2);
  }

  /** r = p + q as fractions, for q with Z = 1. */
  method geMixedAdd(r: Completed, p: Extended, q: PreComputed, ghost x1: int, ghost y1: int, ghost x2: int,
                    ghost y2: int)
    requires r.Valid() && p.Valid() && q.Valid()
    requires r.Repr() !! p.Repr() && r.Repr() !! q.Repr()
    requires p.Stands(x1, y1) && q.Stands(x2, y2)
    modifies r.X, r.Y, r.Z, r.T
    ensures r.Stands(2 * Value(p.Z), x1 * y2 + x2 * y1, SumDenX(x1, y1, x2, y2),
                     y1 * y2 + x1 * x2, SumDenY(x1, y1, x2, y2))
  {
    hide Cong, Value, Small, Limbs, Scaled, SumDenX, SumDenY;
    var t0 := new int32[10];
    Products(r, p, q.yPlusX, q.yMinusX, q.xy2d);
    ghost var A, B, C, E := Value(r.Z), Value(r.Y), Value(r.T), Value(p.Z);
    FeAdd(t0, p.Z, p.Z, 1, 1);
    Sums(r, t0);
    CongRefl(E);
    AddLaw(Value(p.X), Value(p.Y), Value(p.Z), Value(p.T), Value(q.yPlusX), Value(q.yMinusX), 1, Value(q.xy2d),
           A, B, C, E, x1, y1, x2, y2);
  }

  /** r = p - q as fractions, for q with Z = 1. */
  method geMixedSub(r: Completed, p: Extended, q: PreComputed, ghost x1: int, ghost y1: int, ghost x2: int,
                    ghost y2: int)
    requires r.Valid() && p.Valid() && q.Valid()
    requires r.Repr() !! p.Repr() && r.Repr() !! q.Repr()
    requires p.Stands(x1, y1) && q.Stands(x2, y2)
    modifies r.X, r.Y, r.Z, r.T
    ensures r.Stands(2 * Value(p.Z), x1 * y2 + -x2 * y1, SumDenX(x1, y1, -x2, y2),
                     y1 * y2 + x1 * -x2, SumDenY(x1, y1, -x2, y2))
  {
    hide Cong, Value, Small, Limbs, Scaled, SumDenX, SumDenY;
    var t0 := new int32[10];
    Products(r, p, q.yMinusX, q.yPlusX, q.xy2d);
    ghost var A, B, C, E := Value(r.Z), Value(r.Y), Value(r.T), Value(p.Z);
    FeAdd(t0, p.Z, p.Z, 1, 1);
    Differences(r, t0);
    CongRefl(E);
    NegatedOperand(1, Value(p.T), Value(q.yPlusX), Value(q.yMinusX), Value(q.xy2d), C, x2, y2);
    AddLaw(Value(p.X), Value(p.Y), Value(p.Z), Value(p.T), Value(q.yMinusX), Value(q.yPlusX), 1, -Value(q.xy2d),
           A, B, -C, E, x1, y1, -x2, y2);
  }

  /** The squares of Double: X^2 in X, Y^2 in Z, 2 Z^2 in T and (X+Y)^2 in t0. */
  method DoubleSquares(p: Projective, r: Completed, t0: array<int32>)
    requires p.Valid() && r.Valid() && {p.X, p.Y, p.Z} !! r.Repr()
    requires IsElement(t0) && t0 !in r.Repr() && t0 !in {p.X, p.Y, p.Z}
    requires Small(p.X, 2) && Small(p.Y, 1) && Small(p.Z, 1)
    modifies r.X, r.Y, r.Z, r.T, t0
    ensures Cong(Value(r.X), Value(p.X) * Value(p.X)) && Small(r.X, 1)
    ensures Cong(Value(r.Z), Value(p.Y) * Value(p.Y)) && Small(r.Z, 1)
    ensures Cong(Value(r.T), 2 * (Value(p.Z) * Value(p.Z))) && Small(r.T, 1)
    ensures Cong(Value(t0), (Value(p.X) + Value(p.Y)) * (Value(p.X) + Value(p.Y))) && Small(t0, 1)
  {
    hide Cong, Value, Small, Limbs, Loose;
    Square(r.X, p.X, 2);
    Square(r.Z, p.Y, 1);
    SmallIsLoose(p.Z, 1);
    FeSquare2(r.T, p.Z);
    FeAdd(r.Y, p.X, p.Y, 2, 1);
    Square(t0, r.Y, 3);
  }

  /** r = 2 p as fractions. */
  method Double(p: Projective, r: Completed, ghost x: int, ghost y: int)
    requires p.Valid() && r.Valid() && {p.X, p.Y, p.Z} !! r.Repr()
    requires p.Stands(x, y)
    modifies r.X, r.Y, r.Z, r.T
    ensures r.Stands(Value(p.Z) * Value(p.Z), 2 * (x * y), y * y - x * x, y * y + x * x, 2 - (y * y - x * x))
  {
    hide Cong, Value, Small, Scaled, Affine, Limbs;
    var t0 := new int32[10];
    DoubleSquares(p, r, t0);
    DoubleLaw(Value(p.X), Value(p.Y), Value(p.Z), Value(r.X), Value(r.Z), Value(r.T), Value(t0), x, y);
    DoubleSums(r, t0);
  }

  /** The sums and differences that finish Double, on its four squares. */
  method DoubleSums(r: Completed, t0: array<int32>)
    requires r.Valid() && IsElement(t0) && t0 !in r.Repr()
    requires Small(r.X, 1) && Small(r.Z, 1) && Small(r.T, 1) && Small(t0, 1)
    modifies r.X, r.Y, r.Z, r.T
    ensures Value(r.X) == old(Value(t0)) - (old(Value(r.Z)) + old(Value(r.X))) && Small(r.X, 3)
    ensures Value(r.Y) == old(Value(r.Z)) + old(Value(r.X)) && Small(r.Y, 3)
    ensures Value(r.Z) == old(Value(r.Z)) - old(Value(r.X)) && Small(r.Z, 3)
    ensures Value(r.T) == old(Value(r.T)) - (old(Value(r.Z)) - old(Value(r.X))) && Small(r.T, 3)
  {
    hide Value, Small, Limbs;
    FeAdd(r.Y, r.Z, r.X, 1, 1);
    FeSub(r.Z, r.Z, r.X, 1, 1);
    FeSub(r.X, t0, r.Y, 1, 2);
    FeSub(r.T, r.T, r.Z, 1, 2);
    Grow(r.Y, 2, 3);
    Grow(r.Z, 2, 3);
  }

  /** The extended point of two fractions; it stands for (x, y) when x xd = xn and y yd = yn. */
  method ToExtended(p: Completed, r: Extended, ghost lam: int, ghost xn: int, ghost xd: int, ghost yn: int,
                    ghost yd: int,
                    ghost x: int, ghost y: int)
    requires p.Valid() && r.Valid() && p.Repr() !! r.Repr()
    requires p.Stands(lam, xn, xd, yn, yd)
    requires Cong(x * xd, xn) && Cong(y * yd, yn)
    modifies r.X, r.Y, r.Z, r.T
    ensures r.Stands(x, y)
    ensures Cong(Value(r.Z), (lam * lam) * (xd * yd))
  {
    hide Cong, Value, Small, Scaled, Affine;
    Multiply(r.X, p.X, p.T, 3, 3);
    Grow(r.X, 1, 2);
    Multiply(r.Y, p.Y, p.Z, 3, 3);
    Multiply(r.Z, p.Z, p.T, 3, 3);
    Multiply(r.T, p.X, p.Y, 3, 3);
    ExtendLaw(Value(p.X), Value(p.Y), Value(p.Z), Value(p.T), Value(r.X), Value(r.Y), Value(r.Z), Value(r.T),
              lam, xn, xd, yn, yd, x, y);
  }

  method ToProjective(p: Completed, r: Projective, ghost lam: int, ghost xn: int, ghost xd: int, ghost yn: int,
                      ghost yd: int,
                      ghost x: int, ghost y: int)
    requires p.Valid() && r.Valid() && p.Repr() !! {r.X, r.Y, r.Z}
    requires p.Stands(lam, xn, xd, yn, yd)
    requires Cong(x * xd, xn) && Cong(y * yd, yn)
    modifies r.X, r.Y, r.Z
    ensures r.Stands(x, y)
    ensures Cong(Value(r.Z), (lam * lam) * (xd * yd))
  {
    hide Cong, Value, Small, Scaled, Affine;
    Multiply(r.X, p.X, p.T, 3, 3);
    Grow(r.X, 1, 2);
    Multiply(r.Y, p.Y, p.Z, 3, 3);
    Multiply(r.Z, p.Z, p.T, 3, 3);
    CongRefl(Value(p.X) * Value(p.Y));
    ExtendLaw(Value(p.X), Value(p.Y), Value(p.Z), Value(p.T), Value(r.X), Value(r.Y), Value(r.Z),
        Value(p.X) * Value(p.Y),
              lam, xn, xd, yn, yd, x, y);
  }

  lemma CachedLaw(X: int, Y: int, Z: int, T: int, t2d: int, d2: int, x: int, y: int)
    requires Affine(X, Y, Z, x, y) && Cong(T, (x * y) * Z)
    requires Cong(d2, 2 * D) && Cong(t2d, T * d2)
    ensures Cong(Y + X, (y + x) * Z) && Cong(Y - X, (y - x) * Z)
    ensures Cong(t2d, (2 * D * (x * y)) * Z)
  {
    hide Cong;
    CongAdd(Y, y * Z, X, x * Z);
    assert y * Z + x * Z == (y + x) * Z && y * Z - x * Z == (y - x) * Z;
    CongMul(T, (x * y) * Z, d2, 2 * D);
    CongTrans(t2d, T * d2, ((x * y) * Z) * (2 * D));
    var m := x * y;
    assert (m * Z) * (2 * D) == (2 * D * m) * Z;
  }

  lemma ConstantD2(d2: array<int32>)
    requires IsElement(d2) && Limbs(d2) == D2_LIMBS
    ensures Small(d2, 1) && Cong(Value(d2), 2 * D)
  {
    CurveConstants();
  }

  /** d2 is the package constant 2d. */
  method ToCached(p: Extended, r: Cached, d2: array<int32>, ghost x: int, ghost y: int)
    requires p.Valid() && r.Valid() && p.Repr() !! r.Repr()
    requires IsElement(d2) && d2 !in r.Repr() && Limbs(d2) == D2_LIMBS
    requires p.Stands(x, y)
    modifies r.yPlusX, r.yMinusX, r.Z, r.T2d
    ensures r.Stands(x, y) && Value(r.Z) == Value(p.Z)
  {
    hide Cong, Value, Small, Affine;
    ConstantD2(d2);
    FeAdd(r.yPlusX, p.Y, p.X, 1, 2);
    FeSub(r.yMinusX, p.Y, p.X, 1, 2);
    Copy(r.Z, p.Z, 1);
    Multiply(r.T2d, p.T, d2, 1, 1);
    CachedLaw(Value(p.X), Value(p.Y), Value(p.Z), Value(p.T), Value(r.T2d), Value(d2), x, y);
  }
}
