/**
 The composita recurrence for a polynomial half-iterate f of
 F(x) = a*x + b*x^2: the triangle A(n, k) (n >= k) of coefficients, solved
 from the top: A(n, n) = f1^(n/2) and, for n > k,

   A(n, k) = (F(n, k) - sum_{m=k+1}^{n-1} A(n, m) * A(m, k)) / (f1^(n/2) + f1^(k/2)).

 The browser engine and the Python script run the same recurrence with two
 different weights F(n, k); the recurrence is written once and the weight is
 chosen by a Variant.
 */
module Composita {
  import opened Numerics
  import opened Combinatorics

  /** Which implementation's weight the recurrence uses. */
  datatype Variant =
    | Engine   // the browser engine: combination(k, n - k) * a^(2k-n) * b^(n-k)
    | Script   // the Python script:  comb(n, k) * a^(2k-n) * b^(n-k)

  /** The parameters a solve is run with: f1, whose square root is the linear coefficient A(1, 1), and the target's a and b. */
  datatype Params = Params(f1: real, a: real, b: real)

  /**
   The engine's weight FComposita(n, k, a, b). Its binomial is combination(k, n - k),
   which vanishes for n > 2k, where a^(2k-n) is a negative power.
   */
  function FComposita(n: int, k: int, a: real, b: real): (r: Num)
    ensures r.Real? <==> (k > n || n <= 2 * k || a != 0.0)
    ensures (k > n || (n > 2 * k && a != 0.0)) ==> r == Real(0.0)
    ensures k <= n && n > 2 * k && a == 0.0 ==> r == Undefined(PowerOfZero)
  {
    if k > n then Real(0.0)
    else Mul(Mul(Real(Binomial(k, n - k) as real), IntPow(a, 2 * k - n)), IntPow(b, n - k))
  }

  lemma BinomialPositive(n: int, k: int)
    requires 0 <= k <= n
    ensures 0 < Binomial(n, k)
  {
    FactPositive(k);
    FactPositive(n - k);
    BinomialFactorial(n, k);
  }

  /**
   The script's weight F_composita(n, k, a, b), with comb(n, k). Inside the
   triangle it never vanishes when a and b are non-zero.
   */
  function FCompositaPy(n: int, k: int, a: real, b: real): (r: Num)
    ensures r.Real? <==> (k > n || n <= 2 * k || a != 0.0)
    ensures k > n ==> r == Real(0.0)
    ensures k <= n && n > 2 * k && a == 0.0 ==> r == Undefined(PowerOfZero)
    ensures 0 <= k <= n && a != 0.0 && b != 0.0 ==> r.Real? && r.r != 0.0
  {
    if k > n then Real(0.0)
    else
      var r := Mul(Mul(Real(Binomial(n, k) as real), IntPow(a, 2 * k - n)), IntPow(b, n - k));
      assert 0 <= k <= n && a != 0.0 && b != 0.0 ==> r.Real? && r.r != 0.0 by {
        if 0 <= k <= n && a != 0.0 && b != 0.0 {
          BinomialPositive(n, k);
          IntPowInverse(a, 2 * k - n);
          IntPowInverse(b, n - k);
          ProductNonZero(Binomial(n, k) as real, IntPow(a, 2 * k - n), IntPow(b, n - k));
        }
      }
      r
  }

  /** A product of three non-zero factors is defined and non-zero. */
  lemma ProductNonZero(c: real, x: Num, y: Num)
    requires c != 0.0 && x.Real? && x.r != 0.0 && y.Real? && y.r != 0.0
    ensures Mul(Mul(Real(c), x), y).Real? && Mul(Mul(Real(c), x), y).r != 0.0
  {
    assert c * x.r != 0.0;
  }

  /** The two weights already disagree at (n, k) = (2, 1): b against 2b. */
  lemma WeightsDiffer(a: real, b: real)
    ensures FComposita(2, 1, a, b) == Real(b)
    ensures FCompositaPy(2, 1, a, b) == Real(2.0 * b)
  {
    assert Binomial(1, 1) == 1;
    assert IntPow(a, 0) == Real(1.0) by {
      assert Pow(a, 0) == 1.0;
    }
    assert IntPow(b, 1) == Real(b) by {
      assert Pow(b, 1) == b * Pow(b, 0);
    }
    assert Binomial(2, 1) == 2 by {
      assert Binomial(1, 0) == 1 && Binomial(1, 1) == 1;
    }
    assert FComposita(2, 1, a, b) == Mul(Mul(Real(1.0), Real(1.0)), Real(b));
    assert FCompositaPy(2, 1, a, b) == Mul(Mul(Real(2.0), Real(1.0)), Real(b));
  }

  function Weight(v: Variant, n: int, k: int, a: real, b: real): Num
  {
    match v
    case Engine => FComposita(n, k, a, b)
    case Script => FCompositaPy(n, k, a, b)
  }

  /** The recurrence, terminating because n - k decreases in every recursive call. */
  function A(math: Primitives, v: Variant, p: Params, n: nat, k: nat): Num
    decreases n - k, 2, 0
  {
    if n == k then HalfPow(math, p.f1, n)
    else if n < k then Real(0.0)
    else Quotient(math, v, p, n, k)
  }

  /** Below the diagonal: (weight - sum) / (f1^(n/2) + f1^(k/2)). */
  function Quotient(math: Primitives, v: Variant, p: Params, n: nat, k: nat): Num
    requires k < n
    decreases n - k, 1, 0
  {
    Div(Sub(Weight(v, n, k, p.a, p.b), SumTerm(math, v, p, n, k, n)),
        Add(HalfPow(math, p.f1, n), HalfPow(math, p.f1, k)))
  }

  /** The running sum of A(n, m) * A(m, k) for m from k + 1 up to hi - 1, added from the left. */
  function SumTerm(math: Primitives, v: Variant, p: Params, n: nat, k: nat, hi: nat): Num
    requires k < n && hi <= n
    decreases n - k, 0, hi
  {
    if hi <= k + 1 then Real(0.0)
    else Add(SumTerm(math, v, p, n, k, hi - 1),
             Mul(A(math, v, p, n, hi - 1), A(math, v, p, hi - 1, k)))
  }

  /**
   The coefficient equation at (n, k): x * lower + s + upper * x == w, that is
   A(n, k) * A(k, k) + sum_{m=k+1}^{n-1} A(n, m) * A(m, k) + A(n, n) * A(n, k) == F(n, k),
   with every term defined.
   */
  predicate Balanced(x: Num, lower: Num, s: Num, upper: Num, w: Num)
  {
    && x.Real? && lower.Real? && s.Real? && upper.Real? && w.Real?
    && x.r * lower.r + s.r + upper.r * x.r == w.r
  }

  /**
   A defined A(n, k) below the diagonal solves the coefficient equation it
   was derived from: sum_{m=k}^{n} A(n, m) * A(m, k) == F(n, k).
   */
  lemma SolvesCompositaEquation(math: Primitives, v: Variant, p: Params, n: nat, k: nat)
    requires k < n && A(math, v, p, n, k).Real?
    ensures Balanced(A(math, v, p, n, k), A(math, v, p, k, k), SumTerm(math, v, p, n, k, n),
                     A(math, v, p, n, n), Weight(v, n, k, p.a, p.b))
  {
    var lower, upper := HalfPow(math, p.f1, k), HalfPow(math, p.f1, n);
    var s, w := SumTerm(math, v, p, n, k, n), Weight(v, n, k, p.a, p.b);
    assert A(math, v, p, n, k) == Div(Sub(w, s), Add(upper, lower));
    assert A(math, v, p, k, k) == lower && A(math, v, p, n, n) == upper;
    Balance(w, s, upper, lower);
  }

  /** Multiplying the quotient (w - s) / (upper + lower) back out. */
  lemma Balance(w: Num, s: Num, upper: Num, lower: Num)
    requires Div(Sub(w, s), Add(upper, lower)).Real?
    ensures Balanced(Div(Sub(w, s), Add(upper, lower)), lower, s, upper, w)
  {
    var numerator, denominator := Sub(w, s), Add(upper, lower);
    DefinedQuotient(numerator, denominator);
    var x := Div(numerator, denominator).r;
    Rearrange(x, denominator.r, lower.r, upper.r, s.r, w.r);
  }

  lemma Rearrange(x: real, d: real, lower: real, upper: real, s: real, w: real)
    requires d == upper + lower && x * d == w - s
    ensures x * lower + s + upper * x == w
  {
  }

  /** With a positive f1 and a non-zero a, every entry of the triangle is defined. */
  lemma {:induction false} DefinedOnNondegenerateInput(math: Primitives, v: Variant, p: Params, n: nat, k: nat)
    requires math.Lawful() && 0.0 < p.f1 && p.a != 0.0
    ensures A(math, v, p, n, k).Real?
    decreases n - k, 1, 0
  {
    HalfPowPositive(math, p.f1, n);
    HalfPowPositive(math, p.f1, k);
    if n > k {
      SumTermDefined(math, v, p, n, k, n);
    }
  }

  lemma {:induction false} SumTermDefined(math: Primitives, v: Variant, p: Params, n: nat, k: nat, hi: nat)
    requires math.Lawful() && 0.0 < p.f1 && p.a != 0.0
    requires k < n && hi <= n
    ensures SumTerm(math, v, p, n, k, hi).Real?
    decreases n - k, 0, hi
  {
    if hi > k + 1 {
      SumTermDefined(math, v, p, n, k, hi - 1);
      DefinedOnNondegenerateInput(math, v, p, n, hi - 1);
      DefinedOnNondegenerateInput(math, v, p, hi - 1, k);
    }
  }

  /**
   With f1 == 0 every denominator below the diagonal is 0 + 0: the entry is a
   division by zero, or a power of zero when the numerator already is one,
   which a non-zero a rules out.
   */
  lemma DegenerateLinearCoefficient(math: Primitives, v: Variant, p: Params, n: nat, k: nat)
    requires math.Lawful() && p.f1 == 0.0 && 1 <= k < n
    ensures A(math, v, p, n, k) == Undefined(ZeroDivisor) || A(math, v, p, n, k) == Undefined(PowerOfZero)
    ensures p.a != 0.0 ==> A(math, v, p, n, k) == Undefined(ZeroDivisor)
  {
    var w, s := Weight(v, n, k, p.a, p.b), SumTerm(math, v, p, n, k, n);
    var d := Add(HalfPow(math, p.f1, n), HalfPow(math, p.f1, k));
    assert A(math, v, p, n, k) == Div(Sub(w, s), d);
    DegenerateDenominator(math, n, k);
    DivisionByZero(Sub(w, s));
    if p.a != 0.0 {
      NoPowerOfZeroSum(math, v, p, n, k, n);
      PowerOfZeroOnlyFromOperands(w, s);
    }
  }

  lemma DegenerateDenominator(math: Primitives, n: nat, k: nat)
    requires math.Lawful() && 1 <= k && 1 <= n
    ensures Add(HalfPow(math, 0.0, n), HalfPow(math, 0.0, k)) == Real(0.0)
  {
    HalfPowOfNonNegative(math, 0.0, n);
    HalfPowOfNonNegative(math, 0.0, k);
    PowAdd(0.0, 1, n - 1);
    PowAdd(0.0, 1, k - 1);
  }

  /**
   With a non-zero a no weight is a power of zero, so no entry of the
   triangle is one: whatever else fails, the script does not raise.
   */
  lemma {:induction false} NoPowerOfZero(math: Primitives, v: Variant, p: Params, n: nat, k: nat)
    requires p.a != 0.0
    ensures A(math, v, p, n, k) != Undefined(PowerOfZero)
    decreases n - k, 1, 0
  {
    if n > k {
      NoPowerOfZeroSum(math, v, p, n, k, n);
      var w, s := Weight(v, n, k, p.a, p.b), SumTerm(math, v, p, n, k, n);
      var d := Add(HalfPow(math, p.f1, n), HalfPow(math, p.f1, k));
      assert A(math, v, p, n, k) == Div(Sub(w, s), d);
      PowerOfZeroOnlyFromOperands(HalfPow(math, p.f1, n), HalfPow(math, p.f1, k));
      PowerOfZeroOnlyFromOperands(w, s);
      PowerOfZeroOnlyFromOperands(Sub(w, s), d);
    }
  }

  lemma {:induction false} NoPowerOfZeroSum(math: Primitives, v: Variant, p: Params, n: nat, k: nat, hi: nat)
    requires p.a != 0.0
    requires k < n && hi <= n
    ensures SumTerm(math, v, p, n, k, hi) != Undefined(PowerOfZero)
    decreases n - k, 0, hi
  {
    if hi > k + 1 {
      NoPowerOfZeroSum(math, v, p, n, k, hi - 1);
      NoPowerOfZero(math, v, p, n, hi - 1);
      NoPowerOfZero(math, v, p, hi - 1, k);
      var x, y := A(math, v, p, n, hi - 1), A(math, v, p, hi - 1, k);
      PowerOfZeroOnlyFromOperands(x, y);
      PowerOfZeroOnlyFromOperands(SumTerm(math, v, p, n, k, hi - 1), Mul(x, y));
    }
  }

  /** With a == 0 every entry with n > 2k has a weight 0^(2k - n), a power of zero. */
  lemma ZeroTargetCoefficient(math: Primitives, v: Variant, p: Params, n: nat, k: nat)
    requires p.a == 0.0 && k < n && n > 2 * k
    ensures A(math, v, p, n, k) == Undefined(PowerOfZero)
  {
    var w, s := Weight(v, n, k, p.a, p.b), SumTerm(math, v, p, n, k, n);
    var d := Add(HalfPow(math, p.f1, n), HalfPow(math, p.f1, k));
    assert A(math, v, p, n, k) == Div(Sub(w, s), d);
    PowerOfZeroAbsorbs(w, s);
    PowerOfZeroAbsorbs(Sub(w, s), d);
  }

  /**
   Among the first maxDegree coefficients A(j, 1), a power of zero occurs
   exactly when a == 0 and maxDegree >= 3: A(1, 1) is f1^(1/2) and A(2, 1)
   has the weight with a^0, while A(3, 1) has the weight with a^(-1).
   */
  lemma ColumnHasPowerOfZero(math: Primitives, v: Variant, p: Params, maxDegree: int)
    ensures (exists j :: 1 <= j <= maxDegree && A(math, v, p, j, 1) == Undefined(PowerOfZero))
        <==> p.a == 0.0 && 3 <= maxDegree
  {
    if p.a == 0.0 && 3 <= maxDegree {
      ZeroTargetCoefficient(math, v, p, 3, 1);
    } else if p.a != 0.0 {
      forall j | 1 <= j <= maxDegree
        ensures A(math, v, p, j, 1) != Undefined(PowerOfZero)
      {
        NoPowerOfZero(math, v, p, j, 1);
      }
    } else {
      forall j | 1 <= j <= maxDegree
        ensures A(math, v, p, j, 1) != Undefined(PowerOfZero)
      {
        if j == 2 {
          SecondCoefficientNoPowerOfZero(math, v, p);
        }
      }
    }
  }

  /** A(2, 1) has the weight with a^0 and an empty sum, so it is never a power of zero. */
  lemma SecondCoefficientNoPowerOfZero(math: Primitives, v: Variant, p: Params)
    ensures A(math, v, p, 2, 1) != Undefined(PowerOfZero)
  {
    var w, s := Weight(v, 2, 1, p.a, p.b), SumTerm(math, v, p, 2, 1, 2);
    var d := Add(HalfPow(math, p.f1, 2), HalfPow(math, p.f1, 1));
    assert s == Real(0.0);
    assert w.Real?;
    assert A(math, v, p, 2, 1) == Div(Sub(w, s), d);
    PowerOfZeroOnlyFromOperands(HalfPow(math, p.f1, 2), HalfPow(math, p.f1, 1));
    PowerOfZeroOnlyFromOperands(w, s);
    PowerOfZeroOnlyFromOperands(Sub(w, s), d);
  }

  /** The first coefficient A(1, 1) is f1^(1/2): a square root of f1, or undefined for a negative f1. */
  lemma FirstCoefficient(math: Primitives, v: Variant, p: Params)
    requires math.Lawful()
    ensures p.f1 < 0.0 ==> A(math, v, p, 1, 1) == Undefined(NegativeRadicand)
    ensures 0.0 <= p.f1 ==> (A(math, v, p, 1, 1).Real?
                             && 0.0 <= A(math, v, p, 1, 1).r
                             && A(math, v, p, 1, 1).r * A(math, v, p, 1, 1).r == p.f1)
  {
    if 0.0 <= p.f1 {
      HalfPowOfNonNegative(math, p.f1, 1);
    }
  }

  /** Once the running sum has hit a power of zero it stays there. */
  lemma {:induction false} SumTermStaysRaised(math: Primitives, v: Variant, p: Params, n: nat, k: nat, lo: nat, hi: nat)
    requires k < n && lo <= hi <= n
    requires SumTerm(math, v, p, n, k, lo) == Undefined(PowerOfZero)
    ensures SumTerm(math, v, p, n, k, hi) == Undefined(PowerOfZero)
    decreases hi
  {
    if lo < hi {
      SumTermStaysRaised(math, v, p, n, k, lo, hi - 1);
    }
  }

  /**
   A power of zero in any product A(n, m) * A(m, k) with k < m < n makes
   A(n, k) a power of zero too.
   */
  lemma RaisedTermRaises(math: Primitives, v: Variant, p: Params, n: nat, k: nat, m: nat)
    requires k < m < n
    requires A(math, v, p, n, m) == Undefined(PowerOfZero) || A(math, v, p, m, k) == Undefined(PowerOfZero)
    ensures A(math, v, p, n, k) == Undefined(PowerOfZero)
  {
    RaisedTermRaisesSum(math, v, p, n, k, m);
    RaisedSumRaises(math, v, p, n, k);
  }

  lemma RaisedTermRaisesSum(math: Primitives, v: Variant, p: Params, n: nat, k: nat, m: nat)
    requires k < m < n
    requires A(math, v, p, n, m) == Undefined(PowerOfZero) || A(math, v, p, m, k) == Undefined(PowerOfZero)
    ensures SumTerm(math, v, p, n, k, n) == Undefined(PowerOfZero)
  {
    RaisedTermRaisesPartialSum(math, v, p, n, k, m);
    SumTermStaysRaised(math, v, p, n, k, m + 1, n);
  }

  lemma RaisedTermRaisesPartialSum(math: Primitives, v: Variant, p: Params, n: nat, k: nat, m: nat)
    requires k < m < n
    requires A(math, v, p, n, m) == Undefined(PowerOfZero) || A(math, v, p, m, k) == Undefined(PowerOfZero)
    ensures SumTerm(math, v, p, n, k, m + 1) == Undefined(PowerOfZero)
  {
    var x, y, s0 := A(math, v, p, n, m), A(math, v, p, m, k), SumTerm(math, v, p, n, k, m);
    SumTermStep(math, v, p, n, k, m, s0, x, y);
    RaisedSum(s0, x, y);
  }

  lemma RaisedSumRaises(math: Primitives, v: Variant, p: Params, n: nat, k: nat)
    requires k < n && SumTerm(math, v, p, n, k, n) == Undefined(PowerOfZero)
    ensures A(math, v, p, n, k) == Undefined(PowerOfZero)
  {
    var w, s := Weight(v, n, k, p.a, p.b), SumTerm(math, v, p, n, k, n);
    var d := Add(HalfPow(math, p.f1, n), HalfPow(math, p.f1, k));
    assert A(math, v, p, n, k) == Div(Sub(w, s), d);
    RaisedQuotient(w, s, d);
  }

  lemma RaisedSum(s: Num, x: Num, y: Num)
    requires x == Undefined(PowerOfZero) || y == Undefined(PowerOfZero)
    ensures Add(s, Mul(x, y)) == Undefined(PowerOfZero)
  {
    PowerOfZeroAbsorbs(x, y);
    PowerOfZeroAbsorbs(s, Mul(x, y));
  }

  lemma RaisedQuotient(w: Num, s: Num, d: Num)
    requires s == Undefined(PowerOfZero)
    ensures Div(Sub(w, s), d) == Undefined(PowerOfZero)
  {
    PowerOfZeroAbsorbs(w, s);
    PowerOfZeroAbsorbs(Sub(w, s), d);
  }

  /** Every entry of a memo table keyed on (n, k) is the recurrence's value for the given parameters. */
  ghost predicate MemoSound(math: Primitives, v: Variant, p: Params, memo: map<(nat, nat), Num>)
  {
    forall key | key in memo :: memo[key] == A(math, v, p, key.0, key.1)
  }

  /** One more term of the running sum, as the loop adds it. */
  lemma SumTermStep(math: Primitives, v: Variant, p: Params, n: nat, k: nat, m: nat, sum: Num, left: Num, right: Num)
    requires k < m < n
    requires sum == SumTerm(math, v, p, n, k, m)
    requires left == A(math, v, p, n, m) && right == A(math, v, p, m, k)
    ensures Add(sum, Mul(left, right)) == SumTerm(math, v, p, n, k, m + 1)
  {
  }

  /** Once the sum is complete, the quotient the solvers form is A(n, k). */
  lemma QuotientStep(math: Primitives, v: Variant, p: Params, n: nat, k: nat, sum: Num)
    requires k < n && sum == SumTerm(math, v, p, n, k, n)
    ensures A(math, v, p, n, k)
         == Div(Sub(Weight(v, n, k, p.a, p.b), sum), Add(HalfPow(math, p.f1, n), HalfPow(math, p.f1, k)))
  {
  }

  /** Storing the recurrence's own value keeps a memo sound. */
  lemma MemoExtend(math: Primitives, v: Variant, p: Params, memo: map<(nat, nat), Num>, n: nat, k: nat)
    requires MemoSound(math, v, p, memo)
    ensures MemoSound(math, v, p, memo[(n, k) := A(math, v, p, n, k)])
  {
  }

  /**
   The memo key omits (f1, a, b): the same table can be sound for one
   parameter set and unsound for another, so it must be cleared between solves.
   */
  lemma MemoDependsOnParameters(math: Primitives, v: Variant, a: real, b: real)
    ensures MemoSound(math, v, Params(1.0, a, b), map[(2, 2) := Real(1.0)])
    ensures !MemoSound(math, v, Params(4.0, a, b), map[(2, 2) := Real(1.0)])
  {
    assert Pow(1.0, 1) == 1.0 * Pow(1.0, 0);
    assert Pow(4.0, 1) == 4.0 * Pow(4.0, 0);
    assert A(math, v, Params(1.0, a, b), 2, 2) == Real(1.0);
    assert A(math, v, Params(4.0, a, b), 2, 2) == Real(4.0);
  }
}
