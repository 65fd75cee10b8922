/**
 The Python script's composita solver. It follows the same recurrence as
 the engine but weights each term by comb(n, k) and keeps its memo in a
 dictionary the caller passes in. Its weight raises ZeroDivisionError when
 it raises a == 0 to a negative power, and the exception ends the whole
 solve. A zero denominator does not raise: the numerator is a numpy scalar
 (comb returns a numpy float), so the quotient is an infinity or NaN that
 is stored and returned like any other value.
 */
module CompositaeCalculator {
  import opened Numerics
  import opened Composita

  /** The result of a call that may raise ZeroDivisionError. */
  datatype Outcome<T> = Returned(value: T) | RaisedZeroDivision

  /** The memo dictionary, keyed on (n, k) and shared by all calls of one solve. */
  class Memo {
    var entries: map<(nat, nat), Num>

    constructor ()
      ensures entries == map[]
    {
      entries := map[];
    }
  }

  /**
   Every stored entry is the recurrence's value at its key, and none is a
   power of zero: a call that raises stores nothing for its own key. An
   infinity or NaN from a zero denominator is stored like any value.
   */
  ghost predicate Sound(math: Primitives, p: Params, entries: map<(nat, nat), Num>)
  {
    forall key | key in entries ::
      entries[key] == A(math, Script, p, key.0, key.1) && entries[key] != Undefined(PowerOfZero)
  }

  /** How a value of the recurrence reaches the caller: a power of zero is raised, anything else returned. */
  function Observed(x: Num): Outcome<Num>
  {
    if x == Undefined(PowerOfZero) then RaisedZeroDivision else Returned(x)
  }

  /**
   In exact arithmetic f1^(n/2) is a real number or a complex one and never
   raises ZeroDivisionError (float overflow, which raises OverflowError, is
   not modelled).
   */
  lemma HalfPowNeverRaises(math: Primitives, f1: real, n: nat)
    ensures HalfPow(math, f1, n) != Undefined(PowerOfZero)
  {
  }

  /**
   compute_A_composita: the recurrence's value at (n, k), raising exactly
   when the recurrence meets a power of zero, and recording each value it
   returns in the memo.
   */
  method ComputeAComposita(math: Primitives, n: nat, k: nat, f1: real, a: real, b: real, memo: Memo)
    returns (r: Outcome<Num>)
    requires Sound(math, Params(f1, a, b), memo.entries)
    modifies memo
    ensures Sound(math, Params(f1, a, b), memo.entries)
    ensures r == Observed(A(math, Script, Params(f1, a, b), n, k))
    ensures r.Returned? ==> (n, k) in memo.entries
    ensures forall key :: key in old(memo.entries) ==>
              key in memo.entries && memo.entries[key] == old(memo.entries)[key]
    decreases n - k, 1
  {
    var p := Params(f1, a, b);
    if (n, k) in memo.entries {
      return Returned(memo.entries[(n, k)]);
    }
    var result: Num;
    if n == k {
      HalfPowNeverRaises(math, f1, n);
      result := HalfPow(math, f1, n);
    } else if n > k {
      var sum := SumTerms(math, n, k, f1, a, b, memo);
      if sum.RaisedZeroDivision? {
        RaisedSumRaises(math, Script, p, n, k);
        return RaisedZeroDivision;
      }
      var sumTerm := sum.value;
      var weight := FCompositaPy(n, k, a, b);
      QuotientStep(math, Script, p, n, k, sumTerm);
      if weight == Undefined(PowerOfZero) {
        PowerOfZeroAbsorbs(weight, sumTerm);
        PowerOfZeroAbsorbs(Sub(weight, sumTerm), Add(HalfPow(math, f1, n), HalfPow(math, f1, k)));
        return RaisedZeroDivision;
      }
      var denominator := Add(HalfPow(math, f1, n), HalfPow(math, f1, k));
      HalfPowNeverRaises(math, f1, n);
      HalfPowNeverRaises(math, f1, k);
      PowerOfZeroOnlyFromOperands(HalfPow(math, f1, n), HalfPow(math, f1, k));
      PowerOfZeroOnlyFromOperands(weight, sumTerm);
      PowerOfZeroOnlyFromOperands(Sub(weight, sumTerm), denominator);
      result := Div(Sub(weight, sumTerm), denominator);
    } else {
      result := Real(0.0);
    }
    memo.entries := memo.entries[(n, k) := result];
    return Returned(result);
  }

  /**
   The generator expression summed for sum_term: A(n, m) * A(m, k) for
   m = k + 1 .. n - 1, in that order; the first raising call ends the sum.
   */
  method SumTerms(math: Primitives, n: nat, k: nat, f1: real, a: real, b: real, memo: Memo)
    returns (r: Outcome<Num>)
    requires k < n
    requires Sound(math, Params(f1, a, b), memo.entries)
    modifies memo
    ensures Sound(math, Params(f1, a, b), memo.entries)
    ensures r == Observed(SumTerm(math, Script, Params(f1, a, b), n, k, n))
    ensures forall key :: key in old(memo.entries) ==>
              key in memo.entries && memo.entries[key] == old(memo.entries)[key]
    decreases n - k, 0
  {
    var p := Params(f1, a, b);
    var sumTerm := Real(0.0);
    var m := k + 1;
    while m < n
      invariant k + 1 <= m <= n
      invariant Sound(math, p, memo.entries)
      invariant sumTerm == SumTerm(math, Script, p, n, k, m)
      invariant sumTerm != Undefined(PowerOfZero)
      invariant forall key :: key in old(memo.entries) ==>
                  key in memo.entries && memo.entries[key] == old(memo.entries)[key]
    {
      var left := ComputeAComposita(math, n, m, f1, a, b, memo);
      if left.RaisedZeroDivision? {
        RaisedTermRaisesSum(math, Script, p, n, k, m);
        return RaisedZeroDivision;
      }
      var right := ComputeAComposita(math, m, k, f1, a, b, memo);
      if right.RaisedZeroDivision? {
        RaisedTermRaisesSum(math, Script, p, n, k, m);
        return RaisedZeroDivision;
      }
      SumTermStep(math, Script, p, n, k, m, sumTerm, left.value, right.value);
      PowerOfZeroOnlyFromOperands(left.value, right.value);
      PowerOfZeroOnlyFromOperands(sumTerm, Mul(left.value, right.value));
      sumTerm := Add(sumTerm, Mul(left.value, right.value));
      m := m + 1;
    }
    return Returned(sumTerm);
  }

  /**
   compute_A_coefficients: A(n, 1) for n = 1 .. maxDegree with a fresh memo;
   the call raises exactly when one of those coefficients meets a power of
   zero, which ColumnHasPowerOfZero pins down to a == 0 and maxDegree >= 3.
   */
  method ComputeACoefficients(math: Primitives, maxDegree: int, f1: real, a: real, b: real)
    returns (r: Outcome<seq<Num>>)
    ensures r.RaisedZeroDivision? <==>
              exists j :: 1 <= j <= maxDegree && A(math, Script, Params(f1, a, b), j, 1) == Undefined(PowerOfZero)
    ensures r.Returned? ==> |r.value| == (if maxDegree < 0 then 0 else maxDegree)
    ensures r.Returned? ==>
              forall i :: 0 <= i < |r.value| ==> r.value[i] == A(math, Script, Params(f1, a, b), i + 1, 1)
  {
    var p := Params(f1, a, b);
    var coefficients: seq<Num> := [];
    var memo := new Memo();
    var n := 1;
    while n <= maxDegree
      invariant 1 <= n && (maxDegree < 1 ==> n == 1) && (1 <= maxDegree ==> n <= maxDegree + 1)
      invariant |coefficients| == n - 1
      invariant forall i :: 0 <= i < |coefficients| ==> coefficients[i] == A(math, Script, p, i + 1, 1)
      invariant forall j :: 1 <= j < n ==> A(math, Script, p, j, 1) != Undefined(PowerOfZero)
      invariant Sound(math, p, memo.entries)
    {
      var c := ComputeAComposita(math, n, 1, f1, a, b, memo);
      if c.RaisedZeroDivision? {
        return RaisedZeroDivision;
      }
      coefficients := coefficients + [c.value];
      n := n + 1;
    }
    return Returned(coefficients);
  }
}
