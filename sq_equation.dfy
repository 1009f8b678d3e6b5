/** The square-equation classifier of main.c: the tolerance test IsZero and the
    solver SqEquation, which returns a root count (or a sentinel) and writes the
    roots through two output slots.

    Doubles are modelled as exact reals; the library square root is a parameter
    of the solver (see SquareEquationRoots.IsSqrt for what is assumed of it). */
module SquareEquation {

  /** Returned when every coefficient is negligible; meant as "infinitely many roots". */
  const SQEQ_INF := -1

  /** Returned for a linear equation whose root was written to the first slot. */
  const LINEQ := 3

  /** DBL_EPSILON of an IEEE-754 double, 2^-52, the "equal to zero" tolerance. */
  const DBL_EPSILON: real := 1.0 / 4503599627370496.0

  /** The library fabs: the absolute value of x. */
  function Fabs(x: real): real {
    if x < 0.0 then -x else x
  }

  /** x lies in the closed interval [-DBL_EPSILON, DBL_EPSILON]. */
  predicate Negligible(x: real) {
    -DBL_EPSILON <= x <= DBL_EPSILON
  }

  /** -1 when all three coefficients are within DBL_EPSILON of zero, otherwise 0. */
  function IsZero(a: real, b: real, c: real): (r: int)
    ensures r == -1 || r == 0
    ensures r == -1 <==> Negligible(a) && Negligible(b) && Negligible(c)
  {
    if Fabs(a) <= DBL_EPSILON && Fabs(b) <= DBL_EPSILON && Fabs(c) <= DBL_EPSILON then -1 else 0
  }

  /** The discriminant d that SqEquation computes before any test. */
  function Discriminant(a: real, b: real, c: real): real {
    b * b - 4.0 * a * c
  }

  /** Which of the two output slots a call writes, and with what. */
  datatype Written = Neither | FirstOnly(x1: real) | Both(x1: real, x2: real)

  /** What a call of SqEquation returns and writes. */
  datatype Solution = Solution(count: int, written: Written)

  /** The outcome of SqEquation, branch for branch in the order the code tests them. */
  function Solve(a: real, b: real, c: real, sqrt: real -> real): (s: Solution)
    ensures s.count in {SQEQ_INF, 0, 1, 2, LINEQ}
    ensures s.count == SQEQ_INF <==> IsZero(a, b, c) != 0
    ensures s.count == SQEQ_INF || s.count == 0 ==> s.written == Neither
    ensures s.count == 1 ==> a != 0.0 && s.written.Both? && s.written.x1 == s.written.x2
    ensures s.count == 2 ==> a != 0.0 && Discriminant(a, b, c) > 0.0 && s.written.Both?
    ensures s.count == LINEQ ==>
              a == 0.0 && b != 0.0 && s.written.FirstOnly? && b * s.written.x1 + c == 0.0
  {
    var d := Discriminant(a, b, c);
    if IsZero(a, b, c) != 0 then
      Solution(SQEQ_INF, Neither)
    else if d == 0.0 then
      if a != 0.0 then
        Solution(1, Both(-b / 2.0 / a, -b / 2.0 / a))
      else if b != 0.0 then
        Solution(LINEQ, FirstOnly(-c / b))
      else
        Solution(0, Neither)
    else if d < 0.0 then
      Solution(0, Neither)
    else if d > 0.0 then
      if a != 0.0 then
        Solution(2, Both((-b + sqrt(d)) / 2.0 / a, (-b - sqrt(d)) / 2.0 / a))
      else
        Solution(0, Neither)
    else
      // d is zero, negative or positive: no path falls off the end
      assert false; Solution(0, Neither)
  }

  /** A caller-owned double that SqEquation may write through a pointer. */
  class Slot {
    var value: real
  }

  /** main.c's SqEquation. The slots are non-null by their type and must be
      distinct; only they are changed, and only in the branches that write them. */
  method SqEquation(a: real, b: real, c: real, x1: Slot, x2: Slot, sqrt: real -> real)
    returns (n: int)
    requires x1 != x2
    modifies x1, x2
    ensures n == Solve(a, b, c, sqrt).count
    ensures match Solve(a, b, c, sqrt).written
            case Neither => x1.value == old(x1.value) && x2.value == old(x2.value)
            case FirstOnly(r) => x1.value == r && x2.value == old(x2.value)
            case Both(r1, r2) => x1.value == r1 && x2.value == r2
  {
    var d := Discriminant(a, b, c);

    if IsZero(a, b, c) != 0 {
      return SQEQ_INF;
    }

    if d == 0.0 {
      if a != 0.0 {
        x1.value := -b / 2.0 / a;
        x2.value := -b / 2.0 / a;
        return 1;
      } else {
        if b != 0.0 {
          x1.value := -c / b;
          return LINEQ;
        } else {
          return 0;
        }
      }
    }

    if d < 0.0 {
      return 0;
    }

    if d > 0.0 {
      if a != 0.0 {
        x1.value := (-b + sqrt(d)) / 2.0 / a;
        x2.value := (-b - sqrt(d)) / 2.0 / a;
        return 2;
      } else {
        return 0;
      }
    }

    assert false;
  }
}
