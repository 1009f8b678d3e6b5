/** What the codes and values SqEquation produces mean for the equation
    a*x*x + b*x + c == 0 over the reals. */
module SquareEquationRoots {
  import opened SquareEquation

  /** The left-hand side of the equation at x. */
  function Eval(a: real, b: real, c: real, x: real): real {
    a * x * x + b * x + c
  }

  /** What the solver needs of the library square root. */
  ghost predicate IsSqrt(sqrt: real -> real) {
    forall y :: 0.0 <= y ==> 0.0 <= sqrt(y) && sqrt(y) * sqrt(y) == y
  }

  /** A nonzero real has a positive square. */
  lemma SquarePositive(t: real)
    requires t != 0.0
    ensures t * t > 0.0
  {
  }

  /** A product is zero exactly when one of its factors is. */
  lemma ProductZero(x: real, y: real)
    ensures x * y == 0.0 <==> x == 0.0 || y == 0.0
  {
  }

  /** 4a times the equation's left-hand side is a square less the discriminant. */
  lemma CompletedSquare(a: real, b: real, c: real, x: real)
    ensures 4.0 * a * Eval(a, b, c, x)
            == (2.0 * a * x + b) * (2.0 * a * x + b) - Discriminant(a, b, c)
  {
  }

  /** With a == 0 the discriminant is b*b, so it is zero only when b is. */
  lemma DiscriminantWithoutSquareTerm(b: real, c: real)
    ensures Discriminant(0.0, b, c) == b * b
    ensures Discriminant(0.0, b, c) == 0.0 <==> b == 0.0
  {
    if b != 0.0 {
      calc {
        Discriminant(0.0, b, c);
      ==
        b * b;
      >  { SquarePositive(b); }
        0.0;
      }
    }
  }

  /** Over exact reals the d == 0, a == 0, b != 0 branch cannot be taken: LINEQ never comes back. */
  lemma LinEqNeverReturned(a: real, b: real, c: real, sqrt: real -> real)
    ensures Solve(a, b, c, sqrt).count != LINEQ
  {
    DiscriminantWithoutSquareTerm(b, c);
  }

  /** Which code comes back depends only on the tolerance test, the sign of d and whether a is zero. */
  lemma ReturnCodes(a: real, b: real, c: real, sqrt: real -> real)
    ensures var n, d := Solve(a, b, c, sqrt).count, Discriminant(a, b, c);
            && (n == SQEQ_INF <==> IsZero(a, b, c) != 0)
            && (n == 1 <==> IsZero(a, b, c) == 0 && d == 0.0 && a != 0.0)
            && (n == 2 <==> IsZero(a, b, c) == 0 && d > 0.0 && a != 0.0)
            && (n == 0 <==> IsZero(a, b, c) == 0 && (d < 0.0 || a == 0.0))
  {
    DiscriminantWithoutSquareTerm(b, c);
  }

  /** A genuine linear equation (a == 0, b != 0) has the root -c/b, yet takes the
      d > 0 path and is reported as having no roots, with neither slot written. */
  lemma LinearEquationMisreported(a: real, b: real, c: real, sqrt: real -> real)
    requires a == 0.0 && b != 0.0 && IsZero(a, b, c) == 0
    ensures Solve(a, b, c, sqrt) == Solution(0, Neither)
    ensures Eval(a, b, c, -c / b) == 0.0
  {
    DiscriminantWithoutSquareTerm(b, c);
  }

  /** "No roots" is true except for the misreported linear equation: then no real x
      solves the equation, and neither slot is written. */
  lemma NoRootsReported(a: real, b: real, c: real, sqrt: real -> real)
    requires Solve(a, b, c, sqrt).count == 0
    requires !(a == 0.0 && b != 0.0)
    ensures Solve(a, b, c, sqrt).written == Neither
    ensures forall x :: Eval(a, b, c, x) != 0.0
  {
    var d := Discriminant(a, b, c);
    if a == 0.0 {
      // b == 0 as well, and c is not negligible, so the equation reads c == 0
      assert c != 0.0;
    } else {
      assert d < 0.0;
      forall x ensures Eval(a, b, c, x) != 0.0 {
        CompletedSquare(a, b, c, x);
        var t := 2.0 * a * x + b;
        assert t * t >= 0.0;
      }
    }
  }

  /** For a != 0 and a zero discriminant, -b/2/a is the one and only real root. */
  lemma DoubleRoot(a: real, b: real, c: real)
    requires a != 0.0 && Discriminant(a, b, c) == 0.0
    ensures forall y :: Eval(a, b, c, y) == 0.0 <==> y == -b / 2.0 / a
  {
    var r := -b / 2.0 / a;
    forall y ensures Eval(a, b, c, y) == 0.0 <==> y == r {
      CompletedSquare(a, b, c, y);
      var t := 2.0 * a * y + b;
      ProductZero(t, t);
    }
  }

  /** Code 1: both slots hold -b/2/a, and that is the one and only real root. */
  lemma OneRootReported(a: real, b: real, c: real, sqrt: real -> real)
    requires Solve(a, b, c, sqrt).count == 1
    ensures a != 0.0 && Discriminant(a, b, c) == 0.0
    ensures Solve(a, b, c, sqrt).written == Both(-b / 2.0 / a, -b / 2.0 / a)
    ensures forall y :: Eval(a, b, c, y) == 0.0 <==> y == -b / 2.0 / a
  {
    DoubleRoot(a, b, c);
  }

  /** Vieta: for a != 0, a*(y - x1)*(y - x2) is the equation's left-hand side when
      a*(x1 + x2) == -b and a*x1*x2 == c; so its roots are exactly x1 and x2. */
  lemma Factored(a: real, b: real, c: real, x1: real, x2: real, y: real)
    requires a != 0.0
    requires a * (x1 + x2) == -b && a * (x1 * x2) == c
    ensures Eval(a, b, c, y) == a * ((y - x1) * (y - x2))
    ensures Eval(a, b, c, y) == 0.0 <==> y == x1 || y == x2
  {
  }

  /** A square root of a positive discriminant is positive. */
  lemma SqrtPositive(sqrt: real -> real, d: real)
    requires IsSqrt(sqrt) && d > 0.0
    ensures sqrt(d) > 0.0 && sqrt(d) * sqrt(d) == d
  {
  }

  /** The pair the code writes for d > 0, with s*s == d: their sum is -b/a and their
      product c/a (both stated without division). */
  lemma SumAndProduct(a: real, b: real, c: real, s: real)
    requires a != 0.0 && s * s == Discriminant(a, b, c)
    ensures var x1, x2 := (-b + s) / 2.0 / a, (-b - s) / 2.0 / a;
            a * (x1 + x2) == -b && a * (x1 * x2) == c
  {
  }

  /** For a != 0 and a positive s with s*s == d, the pair the code writes for d > 0
      is two distinct values, and they are exactly the real roots. */
  lemma DistinctRoots(a: real, b: real, c: real, s: real)
    requires a != 0.0 && s > 0.0 && s * s == Discriminant(a, b, c)
    ensures var x1, x2 := (-b + s) / 2.0 / a, (-b - s) / 2.0 / a;
            x1 != x2 && forall y :: Eval(a, b, c, y) == 0.0 <==> y == x1 || y == x2
  {
    var x1, x2 := (-b + s) / 2.0 / a, (-b - s) / 2.0 / a;
    SumAndProduct(a, b, c, s);
    forall y ensures Eval(a, b, c, y) == 0.0 <==> y == x1 || y == x2 {
      Factored(a, b, c, x1, x2, y);
    }
  }

  /** Code 2 (with a square root that meets IsSqrt): the two slots hold distinct values,
      (-b + sqrt d)/2/a first, and they are exactly the real roots. */
  lemma TwoRootsReported(a: real, b: real, c: real, sqrt: real -> real)
    requires IsSqrt(sqrt)
    requires Solve(a, b, c, sqrt).count == 2
    ensures a != 0.0 && Discriminant(a, b, c) > 0.0
    ensures var d := Discriminant(a, b, c);
            Solve(a, b, c, sqrt).written
            == Both((-b + sqrt(d)) / 2.0 / a, (-b - sqrt(d)) / 2.0 / a)
    ensures var w := Solve(a, b, c, sqrt).written;
            w.x1 != w.x2 &&
            forall y :: Eval(a, b, c, y) == 0.0 <==> y == w.x1 || y == w.x2
  {
    var d := Discriminant(a, b, c);
    SqrtPositive(sqrt, d);
    DistinctRoots(a, b, c, sqrt(d));
  }

  /** For a != 0 and s > 0, (-b + s)/2/a exceeds (-b - s)/2/a exactly when a > 0:
      their difference is s/a. */
  lemma PairOrder(a: real, b: real, s: real)
    requires a != 0.0 && s > 0.0
    ensures var x1, x2 := (-b + s) / 2.0 / a, (-b - s) / 2.0 / a;
            x1 > x2 <==> a > 0.0
  {
    var x1, x2 := (-b + s) / 2.0 / a, (-b - s) / 2.0 / a;
    assert (x1 - x2) * a == s;
  }

  /** The two roots come back in the code's order, not sorted: the larger first
      exactly when a > 0. */
  lemma TwoRootsOrder(a: real, b: real, c: real, sqrt: real -> real)
    requires IsSqrt(sqrt)
    requires Solve(a, b, c, sqrt).count == 2
    ensures var w := Solve(a, b, c, sqrt).written;
            w.Both? && (w.x1 > w.x2 <==> a > 0.0)
  {
    var d := Discriminant(a, b, c);
    SqrtPositive(sqrt, d);
    PairOrder(a, b, sqrt(d));
  }

  /** 1 is the only square root of 1 that IsSqrt allows. */
  lemma SqrtOfOne(sqrt: real -> real)
    requires IsSqrt(sqrt)
    ensures sqrt(1.0) == 1.0
  {
    var s := sqrt(1.0);
    ProductZero(s + 1.0, s - 1.0);
  }

  /** The worked cases: (1,-3,2) gives 2 then 1; (1,2,1) gives -1 twice; (1,0,1) and
      (0,0,5) give no roots; (0,2,4) gives no roots rather than the linear root -2. */
  lemma Examples(sqrt: real -> real)
    requires IsSqrt(sqrt)
    ensures Solve(1.0, -3.0, 2.0, sqrt) == Solution(2, Both(2.0, 1.0))
    ensures Solve(1.0, 2.0, 1.0, sqrt) == Solution(1, Both(-1.0, -1.0))
    ensures Solve(1.0, 0.0, 1.0, sqrt) == Solution(0, Neither)
    ensures Solve(0.0, 0.0, 5.0, sqrt) == Solution(0, Neither)
    ensures Solve(0.0, 2.0, 4.0, sqrt) == Solution(0, Neither)
  {
    SqrtOfOne(sqrt);
  }

  /** SQEQ_INF is right for the identity 0 == 0: every real x solves it. */
  lemma IdentityReported(a: real, b: real, c: real, sqrt: real -> real)
    requires a == 0.0 && b == 0.0 && c == 0.0
    ensures Solve(a, b, c, sqrt) == Solution(SQEQ_INF, Neither)
    ensures forall x :: Eval(a, b, c, x) == 0.0
  {
  }

  /** SQEQ_INF means "all coefficients negligible", not "every x is a root":
      (0, 0, c) with 0 < c <= DBL_EPSILON has no root at all, yet comes back as SQEQ_INF. */
  lemma NegligibleWithoutRoots(a: real, b: real, c: real, sqrt: real -> real)
    requires a == 0.0 && b == 0.0 && 0.0 < c <= DBL_EPSILON
    ensures Solve(a, b, c, sqrt) == Solution(SQEQ_INF, Neither)
    ensures forall x :: Eval(a, b, c, x) != 0.0
  {
  }

  /** Likewise (a, 0, -a) with 0 < a <= DBL_EPSILON has exactly the two roots 1 and -1,
      yet comes back as SQEQ_INF. */
  lemma NegligibleWithTwoRoots(a: real, b: real, c: real, sqrt: real -> real)
    requires 0.0 < a <= DBL_EPSILON && b == 0.0 && c == -a
    ensures Solve(a, b, c, sqrt) == Solution(SQEQ_INF, Neither)
    ensures forall x :: Eval(a, b, c, x) == 0.0 <==> x == 1.0 || x == -1.0
  {
    forall x ensures Eval(a, b, c, x) == 0.0 <==> x == 1.0 || x == -1.0 {
      Factored(a, b, c, 1.0, -1.0, x);
    }
  }
}
