# Square-equation classifier

A Dafny model of the solver in `main.c`. It solves `a*x*x + b*x + c == 0`. `IsZero` decides whether all three
coefficients are "equal to zero", meaning each lies within `DBL_EPSILON` of zero. `SqEquation` returns a root count
or a sentinel and writes the roots through two output pointers. The sentinels are `SQEQ_INF` (-1, meant as infinitely many
roots) and `LINEQ` (3, a linear equation whose root went to the first slot). They are the constants `SQEQ_INF` and
`LINEQ` of module `SquareEquation`.

Files:

- `sq_equation.dfy`, module `SquareEquation`, holds the code as written:
  - the constants;
  - `Fabs`, the library `fabs` (main.c:18);
  - `IsZero`;
  - `Discriminant`, the `d` of main.c:35;
  - `Solve`, a pure function giving the code's outcome, branch for branch in the source's order;
  - class `Slot`, a caller-owned `double` reached through a pointer;
  - method `SqEquation`, the routine itself. It writes the slots exactly where the source does: both at lines 46-47
    and 70-71, only the first at line 54, neither elsewhere.
- `sq_equation_roots.dfy`, module `SquareEquationRoots`, holds what those codes and values mean for the equation
  over the reals. Codes 0, 1 and 2 are proved to give the real roots, with the exception below. Three
  discrepancies are proved as they stand, not fixed:
  - `SQEQ_INF` means "all three coefficients negligible", not "every x is a root". It is right for `0 == 0`
    (`IdentityReported`). But `(0, 0, c)` with `0 < c <= DBL_EPSILON` has no root (`NegligibleWithoutRoots`), and
    `(a, 0, -a)` with `0 < a <= DBL_EPSILON` has exactly the roots 1 and -1 (`NegligibleWithTwoRoots`).
  - `LINEQ` can never come back.
  - A genuine linear equation is reported as having no roots.

Modelling choices:

- Doubles are exact `real`s.
- `DBL_EPSILON` is its exact value 2^-52. `Examples` relies on `DBL_EPSILON < 1`, so that 1, 2 and 5 are not
  negligible. `NegligibleWithoutRoots` and `NegligibleWithTwoRoots` apply to some input only because
  `DBL_EPSILON > 0`. `IdentityReported` and `NoRootsReported` need `DBL_EPSILON >= 0`, so that 0 is negligible.
  No other proof depends on its value.
- The library `sqrt` is a function-typed parameter of `Solve` and `SqEquation`. The code calls it only when
  `d > 0` (main.c:66-70), and it uses the result without checking it. So neither member places a requirement on
  `sqrt`. The lemmas about the values written for code 2 assume
  `IsSqrt(sqrt)`: for every `y >= 0`, `sqrt(y) >= 0` and `sqrt(y) * sqrt(y) == y`.
- The two checks at main.c:32-33 become preconditions of `SqEquation`. The slots have the non-null type `Slot`, and
  `requires x1 != x2`. The method `modifies x1, x2` and nothing else.
- The model follows the code as written:
  - `(0, 2, 4)` returns 0 although -2 solves it. The comment at main.c:28 promises "corresponding numbers of
    roots", and this result falls short of that. See `LinearEquationMisreported` and `Examples`.
  - The two roots of code 2 come back in the code's order, `(-b + sqrt d)/2/a` first. They are not sorted, so the
    larger comes first only when `a > 0`. See `TwoRootsOrder`.
- Calling `Solve` twice on the same inputs gives the same outcome because it is a function. Nothing else needs
  stating about idempotence.

## Model

| member | source | states |
|---|---|---|
| `SquareEquation.IsZero` | main.c:16-23 | The result is -1 or 0, and nothing else. It is -1 exactly when each of a, b and c lies in [-DBL_EPSILON, DBL_EPSILON]. |
| `SquareEquation.Solve` | main.c:35-75 | The code is always one of {SQEQ_INF, 0, 1, 2, LINEQ}, because every path ends in a return (trichotomy on d). SQEQ_INF comes back exactly when IsZero holds. SQEQ_INF and 0 write neither slot. Code 1 needs a != 0 and writes the same value to both slots. Code 2 needs a != 0 and d > 0 and writes both slots. LINEQ needs a == 0 and b != 0, writes only the first slot, and that value x1 satisfies b*x1 + c == 0. |
| `SquareEquation.SqEquation` | main.c:30-76 | Requires two distinct, non-null slots and changes nothing but them. It returns Solve's code. A slot that Solve does not write keeps its old value. This holds in particular for both slots under SQEQ_INF, although d is computed before the IsZero test. A slot that Solve writes holds exactly the value Solve gives. |
| `SquareEquationRoots.DiscriminantWithoutSquareTerm` | main.c:35 | With a == 0 the discriminant is b*b, so it is zero exactly when b is. |
| `SquareEquationRoots.LinEqNeverReturned` | main.c:50-58 | Over exact reals, LINEQ is never returned for any input, since a == 0 and d == 0 force b == 0. |
| `SquareEquationRoots.ReturnCodes` | main.c:37-75 | The code depends only on the tolerance test, the sign of d and whether a is zero, in both directions. SQEQ_INF iff IsZero. 1 iff not IsZero, d == 0 and a != 0. 2 iff not IsZero, d > 0 and a != 0. 0 iff not IsZero and (d < 0 or a == 0). |
| `SquareEquationRoots.LinearEquationMisreported` | main.c:66-74 | Take a == 0 and b != 0 with the coefficients not all negligible. The call returns 0 and writes neither slot, although -c/b solves the equation. |
| `SquareEquationRoots.NoRootsReported` | main.c:57-64 | Code 0 writes neither slot. Apart from the misreported linear equation, no real x satisfies the equation when code 0 comes back. This covers d < 0, and a == b == 0 with c not negligible. |
| `SquareEquationRoots.DoubleRoot` | main.c:46-47 | Take a != 0 and d == 0. Then -b/2/a is a root, and no other real number is. |
| `SquareEquationRoots.OneRootReported` | main.c:42-48 | Code 1 means a != 0 and d == 0, with both slots holding -b/2/a. That value is a root, and the only real root. |
| `SquareEquationRoots.DistinctRoots` | main.c:66-72 | Take a != 0 and s > 0 with s*s == d. Then (-b + s)/2/a and (-b - s)/2/a differ, and they are exactly the real roots. |
| `SquareEquationRoots.TwoRootsReported` | main.c:66-72 | Assume a square root meeting IsSqrt. Code 2 means a != 0 and d > 0. The first slot holds (-b + sqrt d)/2/a and the second (-b - sqrt d)/2/a. The two differ and are exactly the real roots. |
| `SquareEquationRoots.PairOrder` | main.c:70-71 | Take a != 0 and s > 0. Then (-b + s)/2/a is larger than (-b - s)/2/a exactly when a > 0. |
| `SquareEquationRoots.TwoRootsOrder` | main.c:70-71 | The pair of code 2 is not sorted. The first value is the larger exactly when a > 0. |
| `SquareEquationRoots.IdentityReported` | main.c:37-40 | For a == b == c == 0 the call returns SQEQ_INF and writes neither slot, and every real x is a root. |
| `SquareEquationRoots.NegligibleWithoutRoots` | main.c:37-40 | For a == b == 0 and 0 < c <= DBL_EPSILON the call returns SQEQ_INF and writes neither slot, although no real x is a root. |
| `SquareEquationRoots.NegligibleWithTwoRoots` | main.c:37-40 | For 0 < a <= DBL_EPSILON, b == 0 and c == -a the call returns SQEQ_INF and writes neither slot, although the real roots are exactly 1 and -1. |
| `SquareEquationRoots.Examples` | main.c:42-75 | (1, -3, 2) gives 2 with slots 2 and 1. (1, 2, 1) gives 1 with both slots -1. (1, 0, 1) and (0, 0, 5) give 0. (0, 2, 4) gives 0, not the linear root -2. |

## Left out

- `main` (main.c:80-104) is not modelled. It seeds `rand` from the clock, loops over 20 random coefficient
  triples and prints the results: I/O and nondeterminism, not classifier logic.
- IEEE-754 behaviour is not modelled. That covers rounding in `b * b - 4 * a * c` and in the divisions.
  - Underflow is also left out. It can make `b * b` zero for a tiny nonzero `b`, and it is the only way `LINEQ`
    comes back for doubles.
  - NaN and infinite coefficients are left out too. `d` is NaN when a coefficient is NaN, when `b * b` and
    `4 * a * c` are both infinite with the same sign, or when `4 * a * c` multiplies zero by an infinity. Then
    every comparison at main.c:42, 61 and 66 is false and control reaches the end of the function. That is
    undefined behaviour once the caller uses the result. Other infinite inputs do return, with infinite or NaN
    roots. For example `(+inf, 0, 1)` gives `d = -inf` and code 0, and `(1, +inf, 0)` gives code 2 with NaN and
    `-inf` in the slots.
- The library `sqrt` is not modelled; it is a parameter. Only the lemmas about the code-2 values assume anything
  of it (`IsSqrt`).
- The abort of a failed `assert` at main.c:32-33 is not modelled. Those conditions are preconditions here.
