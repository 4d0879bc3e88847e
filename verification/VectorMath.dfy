/** Euclidean and cosine distance over real vectors, with the inequalities that segment skipping rests on. */
module VectorMath {

  type Vector = seq<real>

  function Dot(a: Vector, b: Vector): real
    requires |a| == |b|
  {
    if a == [] then 0.0 else Dot(a[..|a| - 1], b[..|a| - 1]) + a[|a| - 1] * b[|a| - 1]
  }

  function Minus(a: Vector, b: Vector): Vector
    requires |a| == |b|
  {
    seq(|a|, i requires 0 <= i < |a| => a[i] - b[i])
  }

  function Scale(a: Vector, t: real): Vector {
    seq(|a|, i requires 0 <= i < |a| => a[i] * t)
  }

  // ---- Inner products ----

  lemma {:induction false} DotSymmetric(a: Vector, b: Vector)
    requires |a| == |b|
    ensures Dot(a, b) == Dot(b, a)
  {
    if a != [] {
      DotSymmetric(a[..|a| - 1], b[..|a| - 1]);
    }
  }

  lemma {:induction false} SquareNonNegative(a: Vector)
    ensures Dot(a, a) >= 0.0
  {
    if a != [] {
      SquareNonNegative(a[..|a| - 1]);
      var x := a[|a| - 1];
      assert x * x >= 0.0;
    }
  }

  lemma {:induction false} DotMinus(a: Vector, b: Vector, c: Vector)
    requires |a| == |b| == |c|
    ensures Dot(Minus(a, b), c) == Dot(a, c) - Dot(b, c)
  {
    if a != [] {
      var n := |a| - 1;
      DotMinus(a[..n], b[..n], c[..n]);
      assert Minus(a, b)[..n] == Minus(a[..n], b[..n]);
      assert (a[n] - b[n]) * c[n] == a[n] * c[n] - b[n] * c[n];
    }
  }

  lemma {:induction false} DotScale(a: Vector, b: Vector, t: real)
    requires |a| == |b|
    ensures Dot(Scale(a, t), b) == Dot(a, b) * t
  {
    if a != [] {
      var n := |a| - 1;
      DotScale(a[..n], b[..n], t);
      ScaleFront(a, t, n);
      Distributes(Dot(a[..n], b[..n]), a[n], b[n], t);
    }
  }

  lemma {:induction false} ScaleFront(a: Vector, t: real, n: nat)
    requires n <= |a|
    ensures Scale(a, t)[..n] == Scale(a[..n], t)
  {
    var left, right := Scale(a, t)[..n], Scale(a[..n], t);
    forall i | 0 <= i < n ensures left[i] == right[i] {
      assert a[..n][i] == a[i];
    }
  }

  lemma {:induction false} Distributes(d: real, x: real, y: real, t: real)
    ensures (d + x * y) * t == d * t + (x * t) * y
  {
    assert (d + x * y) * t == d * t + (x * y) * t;
    assert (x * y) * t == (x * t) * y;
  }

  // ---- Cauchy-Schwarz ----

  lemma {:induction false} SquareGap(d: real, b: real, x: real, y: real)
    ensures d * d * (y * y) + b * b * (x * x) - 2.0 * (b * d * (x * y)) >= 0.0
  {
    var e := d * y - b * x;
    assert e * e == d * d * (y * y) + b * b * (x * x) - 2.0 * (b * d * (x * y));
    assert e * e >= 0.0;
  }

  lemma {:induction false} PositiveProduct(x: real, y: real)
    requires x > 0.0 && y > 0.0
    ensures x * y > 0.0
  {
  }

  lemma {:induction false} PositiveFactor(b: real, s: real)
    requires b > 0.0 && b * s >= 0.0
    ensures s >= 0.0
  {
    assert s < 0.0 ==> b * -s > 0.0;
  }

  lemma {:induction false} ScaledBound(b: real, a: real, d: real, x: real, y: real)
    requires d * d <= a * b
    ensures b * (a * (y * y) + b * (x * x) - 2.0 * (d * (x * y))) >= 0.0
  {
    SquareGap(d, b, x, y);
    assert y * y >= 0.0;
    assert d * d * (y * y) <= (a * b) * (y * y);
    assert b * (a * (y * y) + b * (x * x) - 2.0 * (d * (x * y)))
        == (a * b) * (y * y) + b * b * (x * x) - 2.0 * (b * d * (x * y));
  }

  lemma {:induction false} ZeroOrPositiveSquare(d: real)
    ensures d == 0.0 || d * d > 0.0
  {
    if d > 0.0 {
      PositiveProduct(d, d);
    } else if d < 0.0 {
      PositiveProduct(-d, -d);
      assert (-d) * (-d) == d * d;
    }
  }

  /** The step of Cauchy-Schwarz: one more pair of coordinates. */
  lemma {:induction false} CrossTerm(a: real, b: real, d: real, x: real, y: real)
    requires a >= 0.0 && b >= 0.0 && d * d <= a * b
    ensures 2.0 * (d * (x * y)) <= a * (y * y) + b * (x * x)
  {
    if b > 0.0 {
      ScaledBound(b, a, d, x, y);
      PositiveFactor(b, a * (y * y) + b * (x * x) - 2.0 * (d * (x * y)));
    } else {
      assert a * b == 0.0;
      ZeroOrPositiveSquare(d);
      assert y * y >= 0.0 && a * (y * y) >= 0.0;
    }
  }

  lemma {:induction false} ExpandSquares(a: real, b: real, d: real, x: real, y: real)
    requires d * d <= a * b && 2.0 * (d * (x * y)) <= a * (y * y) + b * (x * x)
    ensures (d + x * y) * (d + x * y) <= (a + x * x) * (b + y * y)
  {
    assert (d + x * y) * (d + x * y) == d * d + 2.0 * (d * (x * y)) + (x * x) * (y * y);
    assert (a + x * x) * (b + y * y) == a * b + a * (y * y) + b * (x * x) + (x * x) * (y * y);
  }

  /** Cauchy-Schwarz: the square of an inner product is at most the product of the squares. */
  lemma {:induction false} CauchySchwarz(a: Vector, b: Vector)
    requires |a| == |b|
    ensures Dot(a, b) * Dot(a, b) <= Dot(a, a) * Dot(b, b)
  {
    if a != [] {
      var n := |a| - 1;
      CauchySchwarz(a[..n], b[..n]);
      SquareNonNegative(a[..n]);
      SquareNonNegative(b[..n]);
      CrossTerm(Dot(a[..n], a[..n]), Dot(b[..n], b[..n]), Dot(a[..n], b[..n]), a[n], b[n]);
      ExpandSquares(Dot(a[..n], a[..n]), Dot(b[..n], b[..n]), Dot(a[..n], b[..n]), a[n], b[n]);
    }
  }

  // ---- Distance ----

  /** `root` is the square root on non-negative reals. */
  ghost predicate IsRoot(root: real -> real) {
    forall x: real :: x >= 0.0 ==> root(x) >= 0.0 && root(x) * root(x) == x
  }

  lemma {:induction false} SquareOrder(x: real, y: real)
    requires y >= 0.0 && x * x <= y * y
    ensures x <= y
  {
    assert (x - y) * (x + y) == x * x - y * y;
    if x > y {
      PositiveProduct(x - y, x + y);
    }
  }

  function Norm(root: real -> real, a: Vector): real {
    root(Dot(a, a))
  }

  function Distance(root: real -> real, a: Vector, b: Vector): real
    requires |a| == |b|
  {
    Norm(root, Minus(a, b))
  }

  lemma {:induction false} NormSquared(root: real -> real, a: Vector)
    requires IsRoot(root)
    ensures Norm(root, a) >= 0.0 && Norm(root, a) * Norm(root, a) == Dot(a, a)
  {
    SquareNonNegative(a);
  }

  /** |u - w|^2 = |u|^2 - 2 u.w + |w|^2 */
  lemma {:induction false} MinusSquared(u: Vector, w: Vector)
    requires |u| == |w|
    ensures Dot(Minus(u, w), Minus(u, w)) == Dot(u, u) - 2.0 * Dot(u, w) + Dot(w, w)
  {
    DotMinus(u, w, Minus(u, w));
    DotSymmetric(u, Minus(u, w));
    DotSymmetric(w, Minus(u, w));
    DotMinus(u, w, u);
    DotMinus(u, w, w);
    DotSymmetric(w, u);
  }

  lemma {:induction false} DotAtMostNorms(root: real -> real, u: Vector, w: Vector)
    requires IsRoot(root) && |u| == |w|
    ensures Dot(u, w) <= Norm(root, u) * Norm(root, w) && -Dot(u, w) <= Norm(root, u) * Norm(root, w)
  {
    hide Dot, Norm;
    NormSquared(root, u);
    NormSquared(root, w);
    CauchySchwarz(u, w);
    BoundedByProduct(Dot(u, w), Norm(root, u), Norm(root, w));
  }

  lemma {:induction false} BoundedByProduct(d: real, x: real, y: real)
    requires x >= 0.0 && y >= 0.0 && d * d <= (x * x) * (y * y)
    ensures d <= x * y && -d <= x * y
  {
    assert x * y >= 0.0;
    assert (x * y) * (x * y) == (x * x) * (y * y);
    assert (-d) * (-d) == d * d;
    SquareOrder(d, x * y);
    SquareOrder(-d, x * y);
  }

  lemma {:induction false} MinusSwapped(a: Vector, b: Vector)
    requires |a| == |b|
    ensures Dot(Minus(a, b), Minus(a, b)) == Dot(Minus(b, a), Minus(b, a))
  {
    MinusSquared(a, b);
    MinusSquared(b, a);
    DotSymmetric(a, b);
  }

  lemma {:induction false} DistanceSymmetric(root: real -> real, a: Vector, b: Vector)
    requires |a| == |b|
    ensures Distance(root, a, b) == Distance(root, b, a)
  {
    MinusSwapped(a, b);
  }

  lemma {:induction false} SumSquared(x: real, y: real)
    ensures (x + y) * (x + y) == x * x + 2.0 * (x * y) + y * y
  {
  }

  /** |u - w| <= |u| + |w| */
  lemma {:induction false} NormOfMinus(root: real -> real, u: Vector, w: Vector)
    requires IsRoot(root) && |u| == |w|
    ensures Norm(root, Minus(u, w)) <= Norm(root, u) + Norm(root, w)
  {
    NormSquared(root, u);
    NormSquared(root, w);
    NormSquared(root, Minus(u, w));
    MinusSquared(u, w);
    DotAtMostNorms(root, u, w);
    SumSquared(Norm(root, u), Norm(root, w));
    SquareOrder(Norm(root, Minus(u, w)), Norm(root, u) + Norm(root, w));
  }

  /** The triangle inequality. */
  lemma {:induction false} Triangle(root: real -> real, a: Vector, b: Vector, c: Vector)
    requires IsRoot(root) && |a| == |b| == |c|
    ensures Distance(root, a, c) <= Distance(root, a, b) + Distance(root, b, c)
  {
    var u, w := Minus(a, b), Minus(c, b);
    assert Minus(u, w) == Minus(a, c);
    NormOfMinus(root, u, w);
    DistanceSymmetric(root, c, b);
  }

  /** A point within `r` of the centre is between `d - r` and `d + r` from a query at `d` from the centre. */
  lemma {:induction false} BallBounds(root: real -> real, query: Vector, centre: Vector, v: Vector, r: real)
    requires IsRoot(root) && |query| == |centre| == |v| && Distance(root, centre, v) <= r
    ensures Distance(root, query, centre) - r <= Distance(root, query, v) <= Distance(root, query, centre) + r
  {
    Triangle(root, query, centre, v);
    Triangle(root, query, v, centre);
    DistanceSymmetric(root, v, centre);
  }

  // ---- Cosine distance ----

  function Unit(root: real -> real, a: Vector): Vector
    requires Norm(root, a) > 0.0
  {
    Scale(a, 1.0 / Norm(root, a))
  }

  /** `a <=> b`: one minus the cosine of the angle. */
  ghost function CosineDistance(root: real -> real, a: Vector, b: Vector): real
    requires |a| == |b| && Norm(root, a) > 0.0 && Norm(root, b) > 0.0
  {
    PositiveProduct(Norm(root, a), Norm(root, b));
    1.0 - Dot(a, b) / (Norm(root, a) * Norm(root, b))
  }

  lemma {:induction false} ScaledDot(a: Vector, b: Vector, s: real, t: real)
    requires |a| == |b|
    ensures Dot(Scale(a, s), Scale(b, t)) == (Dot(a, b) * s) * t
  {
    hide Dot, Scale;
    DotScale(a, ScaledBy(b, t, |a|), s);
    DotSymmetric(a, ScaledBy(b, t, |a|));
    DotScale(b, a, t);
    DotSymmetric(b, a);
    Reorder(Dot(a, b), s, t);
  }

  ghost function ScaledBy(b: Vector, t: real, n: nat): (r: Vector)
    requires |b| == n
    ensures r == Scale(b, t) && |r| == n
  {
    Scale(b, t)
  }

  lemma {:induction false} Reorder(d: real, s: real, t: real)
    ensures (d * t) * s == (d * s) * t
  {
  }

  lemma {:induction false} UnitDot(root: real -> real, a: Vector, b: Vector)
    requires |a| == |b| && Norm(root, a) > 0.0 && Norm(root, b) > 0.0
    ensures |Unit(root, a)| == |Unit(root, b)|
    ensures Dot(Unit(root, a), Unit(root, b)) == (Dot(a, b) * (1.0 / Norm(root, a))) * (1.0 / Norm(root, b))
  {
    hide Dot;
    ScaledDot(a, b, 1.0 / Norm(root, a), 1.0 / Norm(root, b));
  }

  lemma {:induction false} Reciprocals(d: real, x: real, y: real)
    requires x > 0.0 && y > 0.0
    ensures x * y > 0.0 && d * (1.0 / x) * (1.0 / y) == d / (x * y)
  {
    PositiveProduct(x, y);
    var e := d * (1.0 / x) * (1.0 / y);
    assert (1.0 / x) * x == 1.0 && (1.0 / y) * y == 1.0;
    assert e * (x * y) == d * ((1.0 / x) * x) * ((1.0 / y) * y);
    assert e * (x * y) == d;
  }

  lemma {:induction false} UnitSquare(root: real -> real, a: Vector)
    requires IsRoot(root) && Norm(root, a) > 0.0
    ensures Dot(Unit(root, a), Unit(root, a)) == 1.0
  {
    UnitDot(root, a, a);
    NormSquared(root, a);
    var x := Norm(root, a);
    Reciprocals(Dot(a, a), x, x);
    assert (x * x) / (x * x) == 1.0;
  }

  /** Cosine distance is half the squared distance of the unit vectors. */
  lemma {:induction false} CosineIsHalfSquare(root: real -> real, a: Vector, b: Vector)
    requires IsRoot(root) && |a| == |b| && Norm(root, a) > 0.0 && Norm(root, b) > 0.0
    ensures var e := Distance(root, Unit(root, a), Unit(root, b));
            e >= 0.0 && CosineDistance(root, a, b) == e * e / 2.0
  {
    hide Dot, Minus, Norm, Unit;
    UnitDot(root, a, b);
    UnitSquare(root, a);
    UnitSquare(root, b);
    HalfSquareOfUnits(root, Unit(root, a), Unit(root, b));
    Reciprocals(Dot(a, b), Norm(root, a), Norm(root, b));
  }

  lemma {:induction false} HalfSquareOfUnits(root: real -> real, u: Vector, w: Vector)
    requires IsRoot(root) && |u| == |w| && Dot(u, u) == 1.0 && Dot(w, w) == 1.0
    ensures var e := Distance(root, u, w); e >= 0.0 && e * e / 2.0 == 1.0 - Dot(u, w)
  {
    NormSquared(root, Minus(u, w));
    MinusSquared(u, w);
  }
}
