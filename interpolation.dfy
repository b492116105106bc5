/**
 * Quadratic interpolation through three points, over exact reals.
 *
 * The editor builds the 3x3 system whose rows are [x², x, 1], one per point,
 * and solves it for (a, b, c) so that y = a·x² + b·x + c passes through the
 * three points. This module states that system as a matrix, solves it in
 * closed form (Newton's divided differences), and proves that the solve
 * fails exactly when the matrix is singular, that on success the result is
 * the one and only solution of the system, and that it reproduces every
 * point's y.
 */
module Interpolation {

  /** A point of the plane. */
  datatype Point = Point(x: real, y: real)

  /** The coefficients of y = a·x² + b·x + c. */
  datatype Coeffs = Coeffs(a: real, b: real, c: real)

  /** The one way the linear solve can fail. */
  datatype SolveError = SingularMatrix

  datatype Result<T> = Ok(value: T) | Err(error: SolveError)

  /** The parabola with coefficients k, evaluated at x. */
  function Eval(k: Coeffs, x: real): real
  {
    k.a * x * x + k.b * x + k.c
  }

  /** The parabola k passes through the three points. */
  predicate Interpolates(k: Coeffs, p1: Point, p2: Point, p3: Point)
  {
    Eval(k, p1.x) == p1.y && Eval(k, p2.x) == p2.y && Eval(k, p3.x) == p3.y
  }

  /** No two of the three points share an x-coordinate. */
  predicate DistinctX(p1: Point, p2: Point, p3: Point)
  {
    p1.x != p2.x && p1.x != p3.x && p2.x != p3.x
  }

  // ---------------------------------------------------------------------
  // The linear system A·(a, b, c)ᵀ = (y1, y2, y3)ᵀ
  // ---------------------------------------------------------------------

  datatype Vec3 = Vec3(v0: real, v1: real, v2: real)

  /** A 3x3 matrix, row by row. */
  datatype Matrix3 = Matrix3(r0: Vec3, r1: Vec3, r2: Vec3)

  function Dot(r: Vec3, k: Coeffs): real
  {
    r.v0 * k.a + r.v1 * k.b + r.v2 * k.c
  }

  /** The matrix-vector product A·k. */
  function Apply(m: Matrix3, k: Coeffs): Vec3
  {
    Vec3(Dot(m.r0, k), Dot(m.r1, k), Dot(m.r2, k))
  }

  /** The determinant, by cofactor expansion along the first row. */
  function Det(m: Matrix3): real
  {
    m.r0.v0 * (m.r1.v1 * m.r2.v2 - m.r1.v2 * m.r2.v1)
    - m.r0.v1 * (m.r1.v0 * m.r2.v2 - m.r1.v2 * m.r2.v0)
    + m.r0.v2 * (m.r1.v0 * m.r2.v1 - m.r1.v1 * m.r2.v0)
  }

  /** The system matrix: one row [x², x, 1] per point. */
  function Vandermonde(p1: Point, p2: Point, p3: Point): Matrix3
  {
    Matrix3(Vec3(p1.x * p1.x, p1.x, 1.0),
            Vec3(p2.x * p2.x, p2.x, 1.0),
            Vec3(p3.x * p3.x, p3.x, 1.0))
  }

  /** The right-hand side: the three y values. */
  function Ys(p1: Point, p2: Point, p3: Point): Vec3
  {
    Vec3(p1.y, p2.y, p3.y)
  }

  /** Row i of the Vandermonde product is the parabola evaluated at x_i. */
  lemma ApplyVandermonde(p1: Point, p2: Point, p3: Point, k: Coeffs)
    ensures Apply(Vandermonde(p1, p2, p3), k)
         == Vec3(Eval(k, p1.x), Eval(k, p2.x), Eval(k, p3.x))
    ensures Apply(Vandermonde(p1, p2, p3), k) == Ys(p1, p2, p3)
        <==> Interpolates(k, p1, p2, p3)
  {
    RowIsEval(p1.x, k);
    RowIsEval(p2.x, k);
    RowIsEval(p3.x, k);
  }

  lemma RowIsEval(x: real, k: Coeffs)
    ensures Dot(Vec3(x * x, x, 1.0), k) == Eval(k, x)
  {
    assert (x * x) * k.a == k.a * x * x;
  }

  /** The Vandermonde determinant factors into the pairwise differences of the x values. */
  lemma VandermondeDet(p1: Point, p2: Point, p3: Point)
    ensures Det(Vandermonde(p1, p2, p3)) == (p1.x - p2.x) * (p1.x - p3.x) * (p2.x - p3.x)
  {
    var x1, x2, x3 := p1.x, p2.x, p3.x;
    calc {
      Det(Vandermonde(p1, p2, p3));
      x1 * x1 * (x2 - x3) - x1 * (x2 * x2 - x3 * x3) + (x2 * x2 * x3 - x2 * x3 * x3);
      { assert x2 * x2 - x3 * x3 == (x2 - x3) * (x2 + x3);
        assert x2 * x2 * x3 - x2 * x3 * x3 == (x2 - x3) * (x2 * x3); }
      (x2 - x3) * (x1 * x1 - x1 * (x2 + x3) + x2 * x3);
      { assert x1 * x1 - x1 * (x2 + x3) + x2 * x3 == (x1 - x2) * (x1 - x3); }
      (x2 - x3) * ((x1 - x2) * (x1 - x3));
    }
  }

  /** The system matrix is singular exactly when two points share an x. */
  lemma SingularIffRepeatedX(p1: Point, p2: Point, p3: Point)
    ensures Det(Vandermonde(p1, p2, p3)) == 0.0 <==> !DistinctX(p1, p2, p3)
  {
    VandermondeDet(p1, p2, p3);
    var u, v, w := p1.x - p2.x, p1.x - p3.x, p2.x - p3.x;
    if u != 0.0 && v != 0.0 && w != 0.0 {
      NonZeroProduct(u, v);
      NonZeroProduct(u * v, w);
    }
  }

  lemma NonZeroProduct(u: real, v: real)
    requires u != 0.0 && v != 0.0
    ensures u * v != 0.0
  {
  }

  // ---------------------------------------------------------------------
  // The closed-form solve
  // ---------------------------------------------------------------------

  /**
   * The parabola in expanded form whose Newton form is
   * y1 + d1·(x - x1) + a·(x - x1)·(x - x2).
   */
  function FromNewton(x1: real, x2: real, y1: real, d1: real, a: real): Coeffs
  {
    Coeffs(a, d1 - a * (x1 + x2), y1 - d1 * x1 + a * x1 * x2)
  }

  lemma NewtonForm(x1: real, x2: real, y1: real, d1: real, a: real, x: real)
    ensures Eval(FromNewton(x1, x2, y1, d1, a), x)
         == y1 + d1 * (x - x1) + a * (x - x1) * (x - x2)
  {
    assert a * (x - x1) * (x - x2) == a * x * x - a * (x1 + x2) * x + a * x1 * x2;
    assert (d1 - a * (x1 + x2)) * x == d1 * x - a * (x1 + x2) * x;
  }

  /**
   * Solves the Vandermonde system for the coefficients of the parabola
   * through the three points, or reports that the matrix is singular.
   */
  function Solve(p1: Point, p2: Point, p3: Point): (r: Result<Coeffs>)
    ensures r.Ok? <==> DistinctX(p1, p2, p3)
    ensures r.Ok? ==> Interpolates(r.value, p1, p2, p3)
  {
    if !DistinctX(p1, p2, p3) then Err(SingularMatrix)
    else
      var d1 := (p2.y - p1.y) / (p2.x - p1.x);
      var d2 := (p3.y - p2.y) / (p3.x - p2.x);
      var a := (d2 - d1) / (p3.x - p1.x);
      var k := FromNewton(p1.x, p2.x, p1.y, d1, a);
      NewtonInterpolates(p1, p2, p3, d1, d2, a);
      Ok(k)
  }

  lemma NewtonInterpolates(p1: Point, p2: Point, p3: Point, d1: real, d2: real, a: real)
    requires DistinctX(p1, p2, p3)
    requires d1 == (p2.y - p1.y) / (p2.x - p1.x)
    requires d2 == (p3.y - p2.y) / (p3.x - p2.x)
    requires a == (d2 - d1) / (p3.x - p1.x)
    ensures Interpolates(FromNewton(p1.x, p2.x, p1.y, d1, a), p1, p2, p3)
  {
    var x1, x2, x3 := p1.x, p2.x, p3.x;
    NewtonForm(x1, x2, p1.y, d1, a, x1);
    NewtonForm(x1, x2, p1.y, d1, a, x2);
    NewtonForm(x1, x2, p1.y, d1, a, x3);
    assert d1 * (x2 - x1) == p2.y - p1.y;
    assert d2 * (x3 - x2) == p3.y - p2.y;
    assert a * (x3 - x1) == d2 - d1;
    calc {
      p1.y + d1 * (x3 - x1) + a * (x3 - x1) * (x3 - x2);
      p1.y + d1 * (x3 - x1) + (d2 - d1) * (x3 - x2);
      p1.y + d1 * (x2 - x1) + d2 * (x3 - x2);
      p3.y;
    }
  }

  // ---------------------------------------------------------------------
  // Uniqueness, and what singularity means
  // ---------------------------------------------------------------------

  function Sub(k: Coeffs, l: Coeffs): Coeffs
  {
    Coeffs(k.a - l.a, k.b - l.b, k.c - l.c)
  }

  function Add(k: Coeffs, l: Coeffs): Coeffs
  {
    Coeffs(k.a + l.a, k.b + l.b, k.c + l.c)
  }

  lemma EvalLinear(k: Coeffs, l: Coeffs, x: real)
    ensures Eval(Sub(k, l), x) == Eval(k, x) - Eval(l, x)
    ensures Eval(Add(k, l), x) == Eval(k, x) + Eval(l, x)
  {
    assert (k.a - l.a) * x * x == k.a * x * x - l.a * x * x;
    assert (k.a + l.a) * x * x == k.a * x * x + l.a * x * x;
  }

  /** A quadratic with three distinct roots is the zero polynomial. */
  lemma ThreeRootsMeansZero(k: Coeffs, x1: real, x2: real, x3: real)
    requires x1 != x2 && x1 != x3 && x2 != x3
    requires Eval(k, x1) == 0.0 && Eval(k, x2) == 0.0 && Eval(k, x3) == 0.0
    ensures k == Coeffs(0.0, 0.0, 0.0)
  {
    var a, b := k.a, k.b;
    // q(xj) - q(xi) = (xj - xi)·(a·(xi + xj) + b)
    assert Eval(k, x2) - Eval(k, x1) == (x2 - x1) * (a * (x1 + x2) + b);
    assert Eval(k, x3) - Eval(k, x1) == (x3 - x1) * (a * (x1 + x3) + b);
    ProductZero(x2 - x1, a * (x1 + x2) + b);
    ProductZero(x3 - x1, a * (x1 + x3) + b);
    assert a * (x3 - x2) == 0.0;
    ProductZero(x3 - x2, a);
    assert b == 0.0;
    assert k.c == Eval(k, x1) - a * x1 * x1 - b * x1;
  }

  lemma ProductZero(u: real, v: real)
    requires u != 0.0 && u * v == 0.0
    ensures v == 0.0
  {
  }

  /**
   * When the x values are distinct the matrix is non-singular and the
   * solve's result is the only solution of the system: a vector satisfies A·k = y exactly when
   * it is the solve's result.
   */
  lemma SolveIsUniqueSolution(p1: Point, p2: Point, p3: Point, k: Coeffs)
    requires DistinctX(p1, p2, p3)
    ensures Det(Vandermonde(p1, p2, p3)) != 0.0
    ensures Solve(p1, p2, p3).Ok?
    ensures Apply(Vandermonde(p1, p2, p3), k) == Ys(p1, p2, p3)
        <==> k == Solve(p1, p2, p3).value
  {
    SingularIffRepeatedX(p1, p2, p3);
    var s := Solve(p1, p2, p3).value;
    ApplyVandermonde(p1, p2, p3, k);
    ApplyVandermonde(p1, p2, p3, s);
    if Interpolates(k, p1, p2, p3) {
      EvalLinear(k, s, p1.x);
      EvalLinear(k, s, p2.x);
      EvalLinear(k, s, p3.x);
      ThreeRootsMeansZero(Sub(k, s), p1.x, p2.x, p3.x);
    }
  }

  /**
   * A parabola that vanishes at all three x values when two of them
   * coincide: (x - u)·(x - v) with u, v covering the x values.
   */
  function Kernel(p1: Point, p2: Point, p3: Point): Coeffs
  {
    var u := p1.x;
    var v := if p1.x == p2.x then p3.x else p2.x;
    Coeffs(1.0, -(u + v), u * v)
  }

  lemma KernelRoot(u: real, v: real, x: real)
    requires x == u || x == v
    ensures Eval(Coeffs(1.0, -(u + v), u * v), x) == 0.0
  {
    assert Eval(Coeffs(1.0, -(u + v), u * v), x) == (x - u) * (x - v);
  }

  lemma KernelVanishes(p1: Point, p2: Point, p3: Point)
    requires !DistinctX(p1, p2, p3)
    ensures Eval(Kernel(p1, p2, p3), p1.x) == 0.0
    ensures Eval(Kernel(p1, p2, p3), p2.x) == 0.0
    ensures Eval(Kernel(p1, p2, p3), p3.x) == 0.0
  {
    var u := p1.x;
    var v := if p1.x == p2.x then p3.x else p2.x;
    KernelRoot(u, v, p1.x);
    KernelRoot(u, v, p2.x);
    KernelRoot(u, v, p3.x);
  }

  /**
   * On a singular matrix the solve fails, and the system has no unique
   * solution: any solution k can be shifted by a non-zero kernel vector
   * and still be a solution.
   */
  lemma SingularHasNoUniqueSolution(p1: Point, p2: Point, p3: Point, k: Coeffs)
    requires Det(Vandermonde(p1, p2, p3)) == 0.0
    ensures Solve(p1, p2, p3) == Err(SingularMatrix)
    ensures Apply(Vandermonde(p1, p2, p3), k) == Ys(p1, p2, p3) ==>
              Add(k, Kernel(p1, p2, p3)) != k &&
              Apply(Vandermonde(p1, p2, p3), Add(k, Kernel(p1, p2, p3))) == Ys(p1, p2, p3)
  {
    SingularIffRepeatedX(p1, p2, p3);
    var z := Kernel(p1, p2, p3);
    KernelVanishes(p1, p2, p3);
    ApplyVandermonde(p1, p2, p3, k);
    ApplyVandermonde(p1, p2, p3, Add(k, z));
    EvalLinear(k, z, p1.x);
    EvalLinear(k, z, p2.x);
    EvalLinear(k, z, p3.x);
  }

  /**
   * Replacing one point by another gives the same coefficients exactly
   * when the new point already lies on the old parabola.
   */
  lemma ResolveUnchangedIff(p1: Point, p2: Point, p3: Point, q: Point)
    requires DistinctX(p1, p2, p3) && DistinctX(p1, q, p3)
    ensures Solve(p1, q, p3) == Solve(p1, p2, p3)
        <==> Eval(Solve(p1, p2, p3).value, q.x) == q.y
  {
    var s := Solve(p1, p2, p3).value;
    if Eval(s, q.x) == q.y {
      SolveIsUniqueSolution(p1, q, p3, s);
      ApplyVandermonde(p1, q, p3, s);
    }
  }
}
