/**
 The engine's composita solver: the memoised recurrence behind
 computeCoefficients, and evaluatePolynomial over the coefficients it
 returns. The memo is keyed on (n, k) alone and lives between calls; it is
 cleared at the start of every computeCoefficients call and by reset.
 */
module CompositaSolver {
  import opened Numerics
  import opened Wrappers
  import opened Composita

  class Solver {
    const math: Primitives
    var memo: map<(nat, nat), Num>
    /** The parameters the memo's entries were computed for, if any. */
    ghost var params: Option<Params>

    /** A non-empty memo holds only values of the recurrence for the parameters in use. */
    ghost predicate Valid()
      reads this
    {
      && (params.None? ==> memo == map[])
      && (params.Some? ==> MemoSound(math, Engine, params.value, memo))
    }

    constructor (math: Primitives)
      ensures Valid() && this.math == math && memo == map[] && params == None
    {
      this.math := math;
      memo := map[];
      params := None;
    }

    /**
     computeAComposita: A(n, k) for the parameters (f1, a, b), from the
     memo when present, otherwise by the recurrence, caching every value
     it computes.
     */
    method ComputeAComposita(n: nat, k: nat, f1: real, a: real, b: real) returns (r: Num)
      requires Valid()
      requires params == None || params == Some(Params(f1, a, b))
      modifies this
      ensures Valid() && params == Some(Params(f1, a, b))
      ensures r == A(math, Engine, Params(f1, a, b), n, k)
      ensures (n, k) in memo
      ensures forall key :: key in old(memo) ==> key in memo && memo[key] == old(memo)[key]
      decreases n - k, 2
    {
      var p := Params(f1, a, b);
      params := Some(p);
      var key := (n, k);
      if key in memo {
        return memo[key];
      }
      if n == k {
        var baseValue := HalfPow(math, f1, n);
        MemoExtend(math, Engine, p, memo, n, k);
        memo := memo[key := baseValue];
        return baseValue;
      }
      if n < k {
        MemoExtend(math, Engine, p, memo, n, k);
        memo := memo[key := Real(0.0)];
        return Real(0.0);
      }
      var sumTerm := SumTerms(n, k, f1, a, b);
      var denominator := Add(HalfPow(math, f1, n), HalfPow(math, f1, k));
      var result := Div(Sub(FComposita(n, k, a, b), sumTerm), denominator);
      QuotientStep(math, Engine, p, n, k, sumTerm);
      MemoExtend(math, Engine, p, memo, n, k);
      memo := memo[key := result];
      return result;
    }

    /**
     The sumTerm loop of computeAComposita: A(n, m) * A(m, k) added up for
     m = k + 1 .. n - 1, in that order.
     */
    method SumTerms(n: nat, k: nat, f1: real, a: real, b: real) returns (sumTerm: Num)
      requires k < n
      requires Valid() && params == Some(Params(f1, a, b))
      modifies this
      ensures Valid() && params == Some(Params(f1, a, b))
      ensures sumTerm == SumTerm(math, Engine, Params(f1, a, b), n, k, n)
      ensures forall key :: key in old(memo) ==> key in memo && memo[key] == old(memo)[key]
      decreases n - k, 1
    {
      var p := Params(f1, a, b);
      sumTerm := Real(0.0);
      var m: nat := k + 1;
      while m < n
        invariant k + 1 <= m <= n
        invariant params == Some(p) && MemoSound(math, Engine, p, memo)
        invariant sumTerm == SumTerm(math, Engine, p, n, k, m)
        invariant forall key :: key in old(memo) ==> key in memo && memo[key] == old(memo)[key]
      {
        sumTerm := AddTerm(n, k, m, f1, a, b, sumTerm);
        m := m + 1;
      }
    }

    /** One pass of the sumTerm loop: add A(n, m) * A(m, k) to the running sum. */
    method AddTerm(n: nat, k: nat, m: nat, f1: real, a: real, b: real, sum: Num) returns (next: Num)
      requires k < m < n
      requires Valid() && params == Some(Params(f1, a, b))
      requires sum == SumTerm(math, Engine, Params(f1, a, b), n, k, m)
      modifies this
      ensures Valid() && params == Some(Params(f1, a, b))
      ensures next == SumTerm(math, Engine, Params(f1, a, b), n, k, m + 1)
      ensures forall key :: key in old(memo) ==> key in memo && memo[key] == old(memo)[key]
      decreases n - k, 0
    {
      var left := ComputeAComposita(n, m, f1, a, b);
      var right := ComputeAComposita(m, k, f1, a, b);
      SumTermStep(math, Engine, Params(f1, a, b), n, k, m, sum, left, right);
      next := Add(sum, Mul(left, right));
    }

    /**
     computeCoefficients: clear the memo, then A(n, 1) for n = 1 .. maxDegree,
     which is empty when maxDegree < 1.
     */
    method ComputeCoefficients(maxDegree: int, f1: real, a: real, b: real) returns (cs: seq<Num>)
      requires Valid()
      modifies this
      ensures Valid()
      ensures maxDegree < 1 ==> memo == map[] && params == None
      ensures 1 <= maxDegree ==> params == Some(Params(f1, a, b))
      ensures forall j :: 1 <= j <= maxDegree ==> (j, 1) in memo
      ensures |cs| == (if maxDegree < 0 then 0 else maxDegree)
      ensures forall i :: 0 <= i < |cs| ==> cs[i] == A(math, Engine, Params(f1, a, b), i + 1, 1)
    {
      memo := map[];
      params := None;
      cs := [];
      var n := 1;
      while n <= maxDegree
        invariant 1 <= n && (maxDegree < 1 ==> n == 1) && (1 <= maxDegree ==> n <= maxDegree + 1)
        invariant |cs| == n - 1
        invariant forall i :: 0 <= i < |cs| ==> cs[i] == A(math, Engine, Params(f1, a, b), i + 1, 1)
        invariant Valid() && (params == None || params == Some(Params(f1, a, b)))
        invariant n == 1 ==> memo == map[] && params == None
        invariant 1 < n ==> params == Some(Params(f1, a, b))
        invariant forall j :: 1 <= j < n ==> (j, 1) in memo
      {
        ghost var before := memo;
        var c := ComputeAComposita(n, 1, f1, a, b);
        ColumnGrows(before, memo, n);
        cs := cs + [c];
        n := n + 1;
      }
    }

    /** reset: empty the memo. */
    method Reset()
      modifies this
      ensures Valid() && memo == map[] && params == None
    {
      memo := map[];
      params := None;
    }
  }

  /** Keeping every key and adding (n, 1) extends the cached column A(1, 1) .. A(n, 1). */
  lemma ColumnGrows(before: map<(nat, nat), Num>, after: map<(nat, nat), Num>, n: nat)
    requires forall j :: 1 <= j < n ==> (j, 1) in before
    requires forall key :: key in before ==> key in after && after[key] == before[key]
    requires (n, 1) in after
    ensures forall j :: 1 <= j < n + 1 ==> (j, 1) in after
  {
  }

  /**
   evaluatePolynomial: sum of cs[i] * x^(i + 1), accumulated from the
   first coefficient to the last.
   */
  function EvaluatePolynomial(cs: seq<Num>, x: real): (r: Num)
    ensures r.Real? <==> AllDefined(cs)
  {
    if cs == [] then Real(0.0)
    else
      var init := cs[..|cs| - 1];
      assert AllDefined(cs) <==> AllDefined(init) && cs[|cs| - 1].Real? by {
        assert forall i :: 0 <= i < |init| ==> init[i] == cs[i];
      }
      Add(EvaluatePolynomial(init, x), Mul(cs[|cs| - 1], Real(Pow(x, |cs|))))
  }

  predicate AllDefined(cs: seq<Num>)
  {
    forall i :: 0 <= i < |cs| ==> cs[i].Real?
  }

  /** Reference definition: Horner's rule for c0 x + c1 x^2 + ... (no constant term). */
  function Horner(cs: seq<Num>, x: real): real
    requires AllDefined(cs)
  {
    if cs == [] then 0.0 else x * (cs[0].r + Horner(cs[1..], x))
  }

  /** Horner's rule grows at the top: one more coefficient adds c * x^(|cs| + 1). */
  lemma {:induction false} HornerAppend(cs: seq<Num>, c: Num, x: real)
    requires AllDefined(cs) && c.Real?
    ensures AllDefined(cs + [c])
    ensures Horner(cs + [c], x) == Horner(cs, x) + c.r * Pow(x, |cs| + 1)
  {
    assert AllDefined(cs + [c]);
    if cs != [] {
      assert (cs + [c])[1..] == cs[1..] + [c];
      HornerAppend(cs[1..], c, x);
      Distribute(x, cs[0].r, Horner(cs[1..], x), c.r, Pow(x, |cs|));
    }
  }

  lemma Distribute(x: real, c0: real, h: real, c: real, q: real)
    ensures x * (c0 + (h + c * q)) == x * (c0 + h) + c * (x * q)
  {
  }

  /** With every coefficient defined, the left fold agrees with Horner's rule. */
  lemma {:induction false} EvaluatesAsHorner(cs: seq<Num>, x: real)
    requires AllDefined(cs)
    ensures EvaluatePolynomial(cs, x) == Real(Horner(cs, x))
  {
    if cs != [] {
      var init := cs[..|cs| - 1];
      assert AllDefined(init);
      EvaluatesAsHorner(init, x);
      HornerAppend(init, cs[|cs| - 1], x);
      assert init + [cs[|cs| - 1]] == cs;
    }
  }

  /** The series has no constant term: it vanishes at x = 0. */
  lemma VanishesAtZero(cs: seq<Num>)
    requires AllDefined(cs)
    ensures EvaluatePolynomial(cs, 0.0) == Real(0.0)
  {
    EvaluatesAsHorner(cs, 0.0);
  }

  /** One undefined coefficient makes the whole sum undefined. */
  lemma {:induction false} UndefinedCoefficientSpreads(cs: seq<Num>, x: real, i: nat)
    requires i < |cs| && cs[i].Undefined?
    ensures EvaluatePolynomial(cs, x).Undefined?
    decreases |cs|
  {
    if i < |cs| - 1 {
      UndefinedCoefficientSpreads(cs[..|cs| - 1], x, i);
    }
  }

  /** Two coefficients c0, c1 give c0 x + c1 x^2. */
  lemma TwoTerms(c0: real, c1: real, x: real)
    ensures EvaluatePolynomial([Real(c0), Real(c1)], x) == Real(c0 * x + c1 * (x * x))
  {
    var cs := [Real(c0), Real(c1)];
    var first := [Real(c0)];
    assert EvaluatePolynomial(first, x) == Real(c0 * x) by {
      assert first[..0] == [];
      assert Pow(x, 1) == x;
    }
    assert cs[..1] == first;
    assert Pow(x, 2) == x * x by {
      assert Pow(x, 1) == x;
    }
    assert EvaluatePolynomial(cs, x) == Add(EvaluatePolynomial(first, x), Mul(Real(c1), Real(Pow(x, 2))));
  }

  /** [2, 3] evaluates to 2x + 3x^2: 5 at x = 1 and 16 at x = 2. */
  lemma EvaluateExample()
    ensures EvaluatePolynomial([Real(2.0), Real(3.0)], 1.0) == Real(5.0)
    ensures EvaluatePolynomial([Real(2.0), Real(3.0)], 2.0) == Real(16.0)
  {
    TwoTerms(2.0, 3.0, 1.0);
    TwoTerms(2.0, 3.0, 2.0);
  }
}
