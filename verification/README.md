# Solve Iterative Functions: a verified model of the calculator engine

This project models the computational core of the Solve Iterative Functions
calculator. That core is the browser-side algorithm engine
(`js/calculator-engine.js`) and the Python script that runs the same
recurrence (`CompositaeCalculator.py`).

The engine has three parts:

- **The algorithm registry.** It maps algorithm names to handlers and lists
  them in first-registration order.
- **The numerical half-iterate.** It approximates a function f with
  f(f(x)) = x^2 + 1. It unwinds the recursion F(x, n) = sqrt(F(x^2 + 1, n - 1) - 1)
  down to the seed |x|^sqrt(2), and caches results per (x, n).
- **The composita solver.** It computes the power-series coefficients A(n, 1)
  of a function A with A(A(x)) = a x + b x^2, when f1 = a (as in the script,
  where f1 = a = 1): the weight
  C(k, n - k) a^(2k - n) b^(n - k) is the composita of a x + b x^2. The
  engine's own registration text (`js/calculator-engine.js:138`) names the
  target as a x^2 + b x instead; the model follows the weight the code
  computes. It uses the triangular
  recurrence A(n, k) = (F(n, k) - sum_{m=k+1}^{n-1} A(n, m) A(m, k)) / (f1^(n/2) + f1^(k/2)),
  memoised on (n, k). Around it sit a factorial, a binomial coefficient and a
  power-sum evaluator.

The Python script runs the same recurrence with three differences. It weights
each term by comb(n, k) where the engine uses combination(k, n - k). It uses a
memo dictionary the caller passes in. And it raises ZeroDivisionError in one
place only: when the weight raises a = 0 to a negative power (n > 2k), which
ends the whole solve. Where the engine divides by a zero denominator, the
script's numerator is a numpy scalar, so it too gets inf or NaN, stores it in
the memo and returns it.

## Numbers

Numbers are exact reals. A computed value is a `Num`: either `Real(r)`, or
`Undefined(e)`, where the tag e records why the value is undefined.

- **PowerOfZero** means 0 raised to a negative power. In the engine this
  yields Infinity (or NaN once combined); in the Python script it raises
  ZeroDivisionError.
- **ZeroDivisor** means a division by a zero denominator. In the engine this
  yields Infinity or NaN, and in the Python script numpy's inf or NaN; neither
  raises.
- **NegativeRadicand** means a half-integer power or a square root of a
  negative number. In the engine this is NaN; in Python it is a complex value.
- **NegativeFactorial** means the factorial of a negative number, which the
  engine returns as NaN.

Operations on an undefined operand stay undefined and keep the worse tag.
PowerOfZero is the worst tag, and no operation creates it from operands that
lack it, so "the Python call raised" is exactly "the value is
`Undefined(PowerOfZero)`" (`CompositaeCalculator.Observed`).

The model takes the two transcendental primitives as parameters of type
`Primitives`: the square root, and t^sqrt(2) for t >= 0. `Lawful()` gives them
only these facts:

- the square root is the non-negative root;
- t^sqrt(2) is non-negative;
- from t = 1 on, t^sqrt(2) is at least t.

f1^(n/2) is an exact integer power when n is even. When n is odd it is
sqrt(f1)^n, and it is undefined for a negative f1.

## The first coefficient and the two weights

A(1, 1) is f1^(1/2) (`js/calculator-engine.js:89-92`), so the first
coefficient is a square root of f1, not f1 itself, and it is undefined for a
negative f1. `Composita.FirstCoefficient` states this.

The two solvers also differ in their weights. The engine's weight
combination(k, n - k) and the script's comb(n, k) are different numbers.
`Composita.WeightsDiffer` exhibits this at (n, k) = (2, 1), where the
weights are b and 2b. The model keeps both as written, as the variants
`Engine` and `Script` of the one recurrence `Composita.A`.

## Model

| member | source | states |
|---|---|---|
| AlgorithmRegistry.Registry.constructor | js/calculator-engine.js:2 | the registry starts empty, with no names listed |
| AlgorithmRegistry.Registry.Register | js/calculator-engine.js:4-9 | an empty or non-string name throws "Algorithm name must be a non-empty string." and leaves the registry unchanged; otherwise the name now finds this handler, every other name finds what it found before, and the listing gains the name only if it was new |
| AlgorithmRegistry.Registry.Lookup | js/calculator-engine.js:11 | only a valid name can find a handler; an unregistered name finds none |
| AlgorithmRegistry.Registry.List | js/calculator-engine.js:13 | every name appears once, and the listed names are exactly the names with a handler; no listed name is empty |
| NumericalHalfIterate.F | js/calculator-engine.js:18-40 | a defined result is non-negative, and an undefined one always comes from a negative radicand (NaN) |
| NumericalHalfIterate.BaseCase | js/calculator-engine.js:24-28 | with no iterations left the result is \|x\|^sqrt(2): defined, non-negative, and at least \|x\| once \|x\| >= 1 |
| NumericalHalfIterate.RecurrenceIdentity | js/calculator-engine.js:30-39 | F(x, n) is NaN exactly when v = F(x^2 + 1, n - 1) is NaN or below 1; otherwise F(x, n)^2 + 1 = v |
| NumericalHalfIterate.AtLeastArgument | js/calculator-engine.js:24-39 | from an argument y >= 1, F(y, n) is defined and at least y |
| NumericalHalfIterate.AlwaysDefined | js/calculator-engine.js:33-36 | in exact arithmetic the NaN branch is never taken: F is always defined, and after one step it is at least \|x\| |
| NumericalHalfIterate.Unwind | js/calculator-engine.js:24-39 | applying y -> y^2 + 1 n times to F(x, n) gives \|g^n(x)\|^sqrt(2), where g^n is that map applied n times to x |
| NumericalHalfIterate.EvenInX | js/calculator-engine.js:25-30 | F(-x, n) = F(x, n) |
| NumericalHalfIterate.Approximator.constructor | js/calculator-engine.js:15-16 | the memo starts empty and sound |
| NumericalHalfIterate.Approximator.ComputeF | js/calculator-engine.js:18-40 | returns F(x, iterations), whether from the memo or computed; afterwards the key is cached, and every entry still equals F at its key |
| NumericalHalfIterate.Approximator.CreateSeries | js/calculator-engine.js:42-45 | returns one value per input, in order, each equal to F(xs[i], iterations), and keeps the memo sound |
| NumericalHalfIterate.Approximator.Reset | js/calculator-engine.js:50 | the memo is empty |
| Combinatorics.Factorial | js/calculator-engine.js:57-65 | NaN (NegativeFactorial) for a negative argument; otherwise n!, so 1 at 0 |
| Combinatorics.Combination | js/calculator-engine.js:67-77 | the multiplicative loop over min(k, n - k) equals the binomial coefficient C(n, k), which is 0 outside 0 <= k <= n |
| Combinatorics.BinomialSymmetric | js/calculator-engine.js:70-71 | C(n, k) = C(n, n - k), so switching to n - k leaves the result unchanged |
| Combinatorics.BinomialFactorial | js/calculator-engine.js:67-77 | Pascal's rule agrees with n! / (k! (n - k)!) |
| Combinatorics.MultiplicativeStep | js/calculator-engine.js:73-75 | one loop step C(n, i - 1) * (n - i + 1) / i gives C(n, i) |
| Composita.FComposita | js/calculator-engine.js:79-83 | 0 when k > n; 0 when n > 2k and a != 0; a power of zero (NaN, from 0 · Infinity, since combination(k, n - k) is 0 there) when n > 2k and a = 0; otherwise defined |
| Composita.FCompositaPy | CompositaeCalculator.py:8-11 | 0 when k > n; a power of zero, so ZeroDivisionError, exactly when n > 2k and a = 0; non-zero when 0 <= k <= n and a, b != 0 |
| Composita.WeightsDiffer | js/calculator-engine.js:81 | at (2, 1) the engine's weight is b and the script's is 2b |
| Numerics.IntPow | js/calculator-engine.js:82 | Math.pow(a, 2k - n) and a ** (2k - n) over an integer exponent: undefined exactly for a zero base with a negative exponent, and then a power of zero (Infinity in the engine, ZeroDivisionError in the script) |
| Numerics.IntPowInverse | js/calculator-engine.js:82 | a non-zero base gives a defined, non-zero power, and a negative power times the matching positive power is 1 |
| Numerics.HalfPow | js/calculator-engine.js:90 | Math.pow(f1, n / 2) and f1 ** (n / 2) (also at js/calculator-engine.js:106 and CompositaeCalculator.py:19, 25): undefined exactly for an odd n and a negative f1, and then a negative radicand, never a power of zero |
| Composita.A | js/calculator-engine.js:85-110 | the recurrence itself, for both solvers (CompositaeCalculator.py:14-30 is the script variant): f1^(n/2) on the diagonal, 0 above it, Quotient below it; it has no contract of its own, and its properties are the lemmas in this table |
| Composita.Quotient | js/calculator-engine.js:106-107 | (weight - sumTerm) / (f1^(n/2) + f1^(k/2)) below the diagonal; a definition without a contract, whose meaning is stated by Composita.SolvesCompositaEquation |
| Composita.SumTerm | js/calculator-engine.js:99-104 | the running sum of A(n, m) * A(m, k) for m = k + 1 .. hi - 1, added from the left; a definition without a contract, whose properties are Composita.SumTermDefined and Composita.SumTermStaysRaised |
| Composita.SolvesCompositaEquation | js/calculator-engine.js:99-107 | a defined A(n, k) solves A(n, k) A(k, k) + sum_m A(n, m) A(m, k) + A(n, n) A(n, k) = F(n, k) |
| Composita.DefinedOnNondegenerateInput | js/calculator-engine.js:85-110 | with f1 > 0 and a != 0 every coefficient is defined |
| Composita.SumTermDefined | js/calculator-engine.js:99-104 | with f1 > 0 and a != 0 every partial sum is defined |
| Composita.DegenerateLinearCoefficient | js/calculator-engine.js:106-107 | with f1 = 0 the denominator vanishes and every A(n, k) with 1 <= k < n is a division by zero (Infinity/NaN in the engine, inf/NaN in the script), or a power of zero carried in from the numerator; with a != 0 it is exactly a division by zero |
| Composita.DegenerateDenominator | CompositaeCalculator.py:25 | with f1 = 0 the denominator f1^(n/2) + f1^(k/2) is 0 for all n, k >= 1 |
| Composita.NoPowerOfZero | CompositaeCalculator.py:11 | with a != 0 no entry of the triangle is a power of zero, so the script never raises ZeroDivisionError |
| Composita.NoPowerOfZeroSum | CompositaeCalculator.py:21-24 | with a != 0 no partial sum is a power of zero |
| Composita.ZeroTargetCoefficient | CompositaeCalculator.py:11 | with a = 0 every A(n, k) with n > 2k is a power of zero |
| Composita.ColumnHasPowerOfZero | CompositaeCalculator.py:33-38 | some A(j, 1) with 1 <= j <= maxDegree is a power of zero exactly when a = 0 and maxDegree >= 3 (so maxDegree 2 with f1 = 0 returns [0, 2b/0.0] without raising, e.g. [0, inf] for b > 0) |
| Composita.SecondCoefficientNoPowerOfZero | CompositaeCalculator.py:11 | A(2, 1) has the weight a^0 b and an empty sum, so it is never a power of zero |
| Composita.FirstCoefficient | js/calculator-engine.js:89-92 | A(1, 1) is f1^(1/2): undefined for f1 < 0, otherwise the non-negative square root of f1 |
| Composita.SumTermStaysRaised | CompositaeCalculator.py:21-24 | once the running sum is a power of zero it stays one |
| Composita.RaisedTermRaises | CompositaeCalculator.py:21-25 | a power of zero in either factor A(n, m) or A(m, k) makes A(n, k) one |
| Composita.RaisedTermRaisesSum | CompositaeCalculator.py:21-24 | a power of zero in a factor makes the whole sum one |
| Composita.RaisedTermRaisesPartialSum | CompositaeCalculator.py:21-24 | a power of zero in the factors at m makes the partial sum up to m + 1 one |
| Composita.RaisedSumRaises | CompositaeCalculator.py:25 | a power of zero in the sum makes A(n, k) one |
| Composita.MemoDependsOnParameters | js/calculator-engine.js:86-87 | a memo keyed on (n, k) alone can be sound for one f1 and unsound for another |
| CompositaSolver.Solver.constructor | js/calculator-engine.js:54-55 | the memo starts empty, with no parameters recorded |
| CompositaSolver.Solver.ComputeAComposita | js/calculator-engine.js:85-110 | if the memo is empty or was filled for the same (f1, a, b), returns the recurrence's A(n, k); it caches (n, k), keeps every earlier entry as it was, and keeps the memo sound |
| CompositaSolver.Solver.SumTerms | js/calculator-engine.js:99-104 | the loop adds A(n, m) * A(m, k) for m = k + 1 .. n - 1 in that order and returns exactly the recurrence's partial sum; the memo stays sound and keeps its earlier entries |
| CompositaSolver.Solver.AddTerm | js/calculator-engine.js:101-103 | one pass of the loop adds A(n, m) * A(m, k) to the running sum and yields the partial sum up to m + 1; the memo stays sound and keeps its earlier entries |
| CompositaSolver.Solver.ComputeCoefficients | js/calculator-engine.js:112-119 | clears the memo, then returns max(maxDegree, 0) entries, entry i being A(i + 1, 1); afterwards the memo is sound for the current (f1, a, b) and holds every (j, 1) with 1 <= j <= maxDegree, and for maxDegree < 1 it is left empty |
| CompositaSolver.Solver.Reset | js/calculator-engine.js:128 | the memo is empty and no parameters are recorded |
| CompositaSolver.EvaluatePolynomial | js/calculator-engine.js:121-122 | evaluatePolynomial: the sum of c_i x^(i + 1) accumulated left to right, defined exactly when every coefficient is |
| CompositaSolver.EvaluatesAsHorner | js/calculator-engine.js:121-122 | with all coefficients defined, the left-to-right sum of c_i x^(i+1) equals Horner's rule x (c_0 + x (c_1 + ...)) |
| CompositaSolver.HornerAppend | js/calculator-engine.js:121-122 | appending c to the coefficients adds c x^(len + 1) |
| CompositaSolver.VanishesAtZero | js/calculator-engine.js:121-122 | with all coefficients defined, the series is 0 at x = 0 |
| CompositaSolver.UndefinedCoefficientSpreads | js/calculator-engine.js:121-122 | one undefined coefficient makes the value undefined |
| CompositaSolver.EvaluateExample | js/calculator-engine.js:121-122 | [2, 3] evaluates to 5 at x = 1 and to 16 at x = 2 |
| CompositaeCalculator.Memo.constructor | CompositaeCalculator.py:35 | a fresh memo dictionary is empty |
| CompositaeCalculator.HalfPowNeverRaises | CompositaeCalculator.py:19 | in exact arithmetic f1 ** (n / 2) never raises ZeroDivisionError |
| CompositaeCalculator.ComputeAComposita | CompositaeCalculator.py:14-30 | raises exactly when the recurrence meets a power of zero, and otherwise returns A(n, k) with comb(n, k) weights, inf/NaN from a zero denominator included; a returned value is stored under (n, k); earlier entries are kept unchanged; every entry equals the recurrence and none is a power of zero |
| CompositaeCalculator.SumTerms | CompositaeCalculator.py:21-24 | raises exactly when the recurrence's partial sum is a power of zero and otherwise returns that sum; the memo stays sound and keeps its earlier entries |
| CompositaeCalculator.ComputeACoefficients | CompositaeCalculator.py:33-38 | raises exactly when some A(j, 1) with 1 <= j <= maxDegree is a power of zero, which Composita.ColumnHasPowerOfZero shows is a = 0 with maxDegree >= 3; otherwise returns max(maxDegree, 0) entries, entry i being A(i + 1, 1) |
| Numerics.PowerOfZeroAbsorbs | CompositaeCalculator.py:21-25 | a power of zero in an operand of +, -, * or / makes the result one, as the raised exception propagates |
| Numerics.PowerOfZeroOnlyFromOperands | CompositaeCalculator.py:25 | no operation creates a power of zero its operands lack; in particular the division by a zero denominator gives a division by zero (inf/NaN), not a raise |
| Numerics.DivisionByZero | js/calculator-engine.js:107 | a zero divisor yields a division by zero, or a power of zero already in the dividend |
| Numerics.HalfPowOfNonNegative | js/calculator-engine.js:90 | for f1 >= 0, f1^(n/2) = sqrt(f1)^n for every n |
| Numerics.HalfPowPositive | js/calculator-engine.js:106 | for f1 > 0, f1^(n/2) is defined and positive, so the denominator never vanishes |

## Left out

- **Floating point.** IEEE-754 rounding, overflow to Infinity and underflow
  are not modelled, because the model computes over exact reals. In Python a
  float `**` that overflows raises OverflowError (for example `10 ** 400.0`)
  rather than returning inf; that error path is not modelled either, so
  "never raises" and "raises exactly when the recurrence meets a power of
  zero" are claims about exact arithmetic. Infinity and
  NaN collapse into `Undefined`. The model therefore misses the IEEE cases in
  which an infinity becomes finite again, such as a finite value divided by
  Infinity.
- **Math primitives.** `Math.sqrt`, `Math.pow` with a fractional exponent, and
  |x|^sqrt(2) are parameters that satisfy `Primitives.Lawful()`, not computed
  functions.
- **Non-integer arguments.** JavaScript accepts any number for `num`, `n`,
  `k`, `iterations` and `maxDegree`. The model takes integers; n and k are
  naturals, as every call from computeCoefficients provides.
- **Memo keys.** The string keys `${x}-${iterations}` and `${n},${k}` are
  modelled as pairs. Numbers that print alike, such as 0 and -0, share a
  string key; F takes the same value at 0 and -0
  (`NumericalHalfIterate.EvenInX`).
- **Registry metadata.** The `metadata` argument, which is stored and never
  read, is not modelled.
- **Module-level wiring.** The three module-level registrations, including the
  `futureSolverTemplate` placeholder, and the `window.CalculatorEngine` export
  (`js/calculator-engine.js:132-151`) are not modelled.
- **Python float results.** scipy's `comb` returns a numpy float64; it is
  modelled as the exact binomial coefficient. Because of it, a zero
  denominator gives numpy's inf or NaN (with a RuntimeWarning, not modelled)
  instead of raising.
- **Python output and script.** The `np.array` conversion becomes a sequence.
  Plotting and module-level script execution (`CompositaeCalculator.py:40-72`)
  are not part of this model.
- **Complex values.** A complex power in the script is tracked only as
  "left the reals" (NegativeRadicand); its value is not modelled.
- **Other files.** `js/calculator-app.js` (DOM and charting), `js/static.js`
  (network requests) and `Factorial.py` (a wrapper over sympy with file and
  console I/O) are not part of this model.
