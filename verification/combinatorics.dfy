/**
 The integer combinatorics of the composita solver: the factorial and the
 binomial coefficient, each as a reference definition and as the loop the
 engine runs over floating-point numbers (here exact reals).
 */
module Combinatorics {
  import opened Numerics

  /** n! as the product 1 * 2 * ... * n. */
  function Fact(n: nat): nat
  {
    if n == 0 then 1 else n * Fact(n - 1)
  }

  /** The binomial coefficient by Pascal's rule; zero outside 0 <= k <= n. */
  function Binomial(n: int, k: int): nat
    decreases n
  {
    if k < 0 || k > n then 0
    else if k == 0 || k == n then 1
    else Binomial(n - 1, k - 1) + Binomial(n - 1, k)
  }

  lemma {:induction false} FactPositive(n: nat)
    ensures 1 <= Fact(n)
  {
    if n > 0 {
      FactPositive(n - 1);
    }
  }

  /** Choosing k is choosing the n - k left out. */
  lemma {:induction false} BinomialSymmetric(n: int, k: int)
    ensures Binomial(n, k) == Binomial(n, n - k)
  {
    if 0 < k < n {
      BinomialSymmetric(n - 1, k - 1);
      BinomialSymmetric(n - 1, k);
    }
  }

  /** Pascal's rule agrees with the factorial formula n! / (k! (n-k)!). */
  lemma {:induction false} BinomialFactorial(n: nat, k: nat)
    requires k <= n
    ensures Binomial(n, k) * Fact(k) * Fact(n - k) == Fact(n)
  {
    if 0 < k < n {
      BinomialFactorial(n - 1, k - 1);
      BinomialFactorial(n - 1, k);
      PascalStep(n, k, Binomial(n - 1, k - 1), Binomial(n - 1, k),
                 Fact(k - 1), Fact(n - 1 - k), Fact(n - 1));
    }
  }

  /** The algebra of one Pascal step, on plain integers. */
  lemma PascalStep(n: int, k: int, left: int, right: int, fk1: int, fnk1: int, fn1: int)
    requires left * fk1 * ((n - k) * fnk1) == fn1
    requires right * (k * fk1) * fnk1 == fn1
    ensures (left + right) * (k * fk1) * ((n - k) * fnk1) == n * fn1
  {
    PascalExpand(left, right, k, n - k, fk1, fnk1);
    assert k * fn1 + (n - k) * fn1 == n * fn1;
  }

  /** The ring identity behind PascalStep, with d standing for n - k. */
  lemma PascalExpand(left: int, right: int, k: int, d: int, fk1: int, fnk1: int)
    ensures (left + right) * (k * fk1) * (d * fnk1)
         == k * (left * fk1 * (d * fnk1)) + d * (right * (k * fk1) * fnk1)
  {
  }

  /** One step of the multiplicative formula: C(n, i) * i == C(n, i - 1) * (n - i + 1). */
  lemma Absorption(n: nat, i: nat)
    requires 1 <= i <= n
    ensures Binomial(n, i) * i == Binomial(n, i - 1) * (n - i + 1)
  {
    BinomialFactorial(n, i);
    BinomialFactorial(n, i - 1);
    FactPositive(i - 1);
    FactPositive(n - i);
    assert Fact(i) == i * Fact(i - 1);
    assert Fact(n - (i - 1)) == (n - i + 1) * Fact(n - i);
    AbsorptionStep(Binomial(n, i), Binomial(n, i - 1), i, n - i + 1, Fact(i - 1), Fact(n - i), Fact(n));
  }

  /** The algebra of Absorption, on plain integers: cancel the positive factor fa * fb. */
  lemma AbsorptionStep(b1: int, b0: int, i: int, j: int, fa: int, fb: int, fn: int)
    requires 0 < fa && 0 < fb
    requires b1 * (i * fa) * fb == fn
    requires b0 * fa * (j * fb) == fn
    ensures b1 * i == b0 * j
  {
    var c := fa * fb;
    assert 0 < c;
    assert (b1 * i) * c == fn;
    assert (b0 * j) * c == fn;
    assert (b1 * i - b0 * j) * c == 0;
  }

  /** The loop step of Combination, over the reals: from C(n, i - 1) to C(n, i). */
  lemma MultiplicativeStep(n: nat, i: nat, res: real)
    requires 1 <= i <= n && res == Binomial(n, i - 1) as real
    ensures (res * (n - i + 1) as real) / i as real == Binomial(n, i) as real
  {
    var b1, b0 := Binomial(n, i), Binomial(n, i - 1);
    assert b1 * i == b0 * (n - i + 1) by {
      Absorption(n, i);
    }
    RealQuotient(b1, b0, i, n - i + 1, res);
  }

  lemma RealQuotient(b1: int, b0: int, i: int, j: int, res: real)
    requires 0 < i && b1 * i == b0 * j && res == b0 as real
    ensures (res * j as real) / i as real == b1 as real
  {
    assert (b1 * i) as real == b1 as real * i as real;
    assert (b0 * j) as real == b0 as real * j as real;
  }

  /**
   The engine's factorial: NaN for a negative argument, otherwise the
   product accumulated from 2 up to the argument.
   */
  method Factorial(num: int) returns (r: Num)
    ensures num < 0 ==> r == Undefined(NegativeFactorial)
    ensures 0 <= num ==> r == Real(Fact(num) as real)
  {
    if num < 0 {
      return Undefined(NegativeFactorial);
    }
    if num == 0 {
      return Real(1.0);
    }
    var result := 1.0;
    var i := 2;
    while i <= num
      invariant 2 <= i <= num + 1
      invariant result == Fact(i - 1) as real
    {
      result := result * i as real;
      i := i + 1;
    }
    return Real(result);
  }

  /**
   The engine's binomial coefficient: the multiplicative formula
   res := res * (n - i + 1) / i over the smaller of k and n - k.
   */
  method Combination(n: int, k: int) returns (r: real)
    ensures r == Binomial(n, k) as real
  {
    if k < 0 || k > n {
      return 0.0;
    }
    if k == 0 || k == n {
      return 1.0;
    }
    var safeK := k;
    if safeK as real > n as real / 2.0 {
      safeK := n - safeK;
    }
    assert 0 < safeK < n && Binomial(n, safeK) == Binomial(n, k) by {
      BinomialSymmetric(n, k);
    }
    var res := 1.0;
    var i := 1;
    while i <= safeK
      invariant 1 <= i <= safeK + 1
      invariant res == Binomial(n, i - 1) as real
    {
      MultiplicativeStep(n, i, res);
      res := (res * (n - i + 1) as real) / i as real;
      i := i + 1;
    }
    return res;
  }
}
