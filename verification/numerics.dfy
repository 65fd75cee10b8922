/**
 Exact-arithmetic stand-ins for the floating-point values of the calculator.

 A computed quantity is either a real number or an undefined result. The
 browser engine represents an undefined result as NaN or a signed infinity.
 The Python script gets a complex number for a fractional power of a
 negative base, an infinity or NaN (from numpy) for a zero denominator, and
 raises ZeroDivisionError only for 0 raised to a negative power. The tag
 records why the value is undefined, and joining two tags keeps the worse
 one, so a power of zero anywhere in an expression is never hidden by
 another failure.
 */
module Numerics {

  datatype DomainError =
    | NegativeFactorial   // factorial of a negative number
    | NegativeRadicand    // square root (or half-integer power) of a negative number
    | ZeroDivisor         // a zero denominator
    | PowerOfZero         // 0 raised to a negative power

  datatype Num = Real(r: real) | Undefined(error: DomainError)

  /** Severity of a failure: PowerOfZero > ZeroDivisor > NegativeRadicand > NegativeFactorial. */
  function Severity(e: DomainError): nat
  {
    match e
    case NegativeFactorial => 0
    case NegativeRadicand => 1
    case ZeroDivisor => 2
    case PowerOfZero => 3
  }

  function Worse(e1: DomainError, e2: DomainError): DomainError
  {
    if Severity(e1) >= Severity(e2) then e1 else e2
  }

  /** The failure of a binary operation at least one of whose operands is undefined. */
  function Join(x: Num, y: Num): DomainError
    requires x.Undefined? || y.Undefined?
  {
    if x.Undefined? && y.Undefined? then Worse(x.error, y.error)
    else if x.Undefined? then x.error
    else y.error
  }

  function Add(x: Num, y: Num): Num
  {
    if x.Real? && y.Real? then Real(x.r + y.r) else Undefined(Join(x, y))
  }

  function Sub(x: Num, y: Num): Num
  {
    if x.Real? && y.Real? then Real(x.r - y.r) else Undefined(Join(x, y))
  }

  function Mul(x: Num, y: Num): Num
  {
    if x.Real? && y.Real? then Real(x.r * y.r) else Undefined(Join(x, y))
  }

  /** A zero divisor makes the quotient a ZeroDivisor failure, unless the dividend has a worse one. */
  function Div(x: Num, y: Num): Num
  {
    if y == Real(0.0) then Undefined(if x.Undefined? then Worse(x.error, ZeroDivisor) else ZeroDivisor)
    else if x.Real? && y.Real? then Real(x.r / y.r)
    else Undefined(Join(x, y))
  }

  /** A power of zero in an operand is a power of zero in the result. */
  lemma PowerOfZeroAbsorbs(x: Num, y: Num)
    requires x == Undefined(PowerOfZero) || y == Undefined(PowerOfZero)
    ensures Add(x, y) == Undefined(PowerOfZero) && Sub(x, y) == Undefined(PowerOfZero)
    ensures Mul(x, y) == Undefined(PowerOfZero) && Div(x, y) == Undefined(PowerOfZero)
  {
  }

  /** No operation, a division by zero included, produces a power of zero that its operands lack. */
  lemma PowerOfZeroOnlyFromOperands(x: Num, y: Num)
    requires x != Undefined(PowerOfZero) && y != Undefined(PowerOfZero)
    ensures Add(x, y) != Undefined(PowerOfZero) && Sub(x, y) != Undefined(PowerOfZero)
    ensures Mul(x, y) != Undefined(PowerOfZero) && Div(x, y) != Undefined(PowerOfZero)
    ensures y == Real(0.0) ==> Div(x, y) == Undefined(ZeroDivisor)
  {
  }

  /** A zero divisor yields a division by zero, or the dividend's power of zero. */
  lemma DivisionByZero(x: Num)
    ensures Div(x, Real(0.0)) == Undefined(ZeroDivisor) || Div(x, Real(0.0)) == Undefined(PowerOfZero)
    ensures x != Undefined(PowerOfZero) ==> Div(x, Real(0.0)) == Undefined(ZeroDivisor)
  {
  }

  /** A defined quotient has defined operands and a non-zero divisor. */
  lemma DefinedQuotient(x: Num, y: Num)
    requires Div(x, y).Real?
    ensures x.Real? && y.Real? && y.r != 0.0
    ensures Div(x, y).r * y.r == x.r
  {
  }

  /** x raised to a natural power. */
  function Pow(x: real, e: nat): real
  {
    if e == 0 then 1.0 else x * Pow(x, e - 1)
  }

  /** x raised to an integer power; 0 to a negative power is a PowerOfZero failure. */
  function IntPow(x: real, e: int): (r: Num)
    ensures r.Undefined? <==> e < 0 && x == 0.0
    ensures r.Undefined? ==> r.error == PowerOfZero
  {
    if e >= 0 then Real(Pow(x, e))
    else if x == 0.0 then Undefined(PowerOfZero)
    else
      PowNonZero(x, -e);
      Real(1.0 / Pow(x, -e))
  }

  /** A non-zero base has a non-zero power, and a negative power is the reciprocal of a positive one. */
  lemma IntPowInverse(x: real, e: int)
    requires x != 0.0
    ensures IntPow(x, e).Real? && IntPow(x, e).r != 0.0
    ensures e < 0 ==> IntPow(x, e).r * Pow(x, -e) == 1.0
  {
    if e >= 0 {
      PowNonZero(x, e);
    } else {
      PowNonZero(x, -e);
    }
  }

  lemma {:induction false} PowNonZero(x: real, e: nat)
    requires x != 0.0
    ensures Pow(x, e) != 0.0
  {
    if e > 0 {
      PowNonZero(x, e - 1);
    }
  }

  /**
   The two transcendental primitives the calculator relies on: the square
   root and t^sqrt(2) for t >= 0. They are parameters of the model; Lawful()
   gives them the only facts the proofs use: the square root is the
   non-negative root, and t^sqrt(2) is non-negative and, from t = 1 on, at
   least t.
   */
  datatype Primitives = Primitives(sqrt: real -> real, powRoot2: real -> real)
  {
    ghost predicate Lawful()
    {
      && (forall r :: 0.0 <= r ==> 0.0 <= sqrt(r) && sqrt(r) * sqrt(r) == r)
      && sqrt(0.0) == 0.0
      && (forall t :: 0.0 <= t ==> 0.0 <= powRoot2(t))
      && (forall t :: 1.0 <= t ==> t <= powRoot2(t))
    }
  }

  function Abs(x: real): real
  {
    if x < 0.0 then -x else x
  }

  /**
   f1 raised to the power n/2. An even n is an integer power; an odd n is a
   power of the square root, undefined for a negative base.
   */
  function HalfPow(math: Primitives, f1: real, n: nat): (r: Num)
    ensures r.Undefined? <==> n % 2 == 1 && f1 < 0.0
    ensures r.Undefined? ==> r.error == NegativeRadicand
  {
    if n % 2 == 0 then Real(Pow(f1, n / 2))
    else if f1 < 0.0 then Undefined(NegativeRadicand)
    else Real(Pow(math.sqrt(f1), n))
  }

  lemma {:induction false} PowOfSquare(s: real, j: nat)
    ensures Pow(s * s, j) == Pow(s, 2 * j)
  {
    if j > 0 {
      PowOfSquare(s, j - 1);
      calc {
        Pow(s * s, j);
        s * s * Pow(s * s, j - 1);
        s * s * Pow(s, 2 * j - 2);
        s * (s * Pow(s, 2 * j - 2));
        { assert Pow(s, 2 * j - 1) == s * Pow(s, 2 * j - 2); }
        s * Pow(s, 2 * j - 1);
      }
    }
  }

  lemma {:induction false} PowPositive(x: real, e: nat)
    requires 0.0 < x
    ensures 0.0 < Pow(x, e)
  {
    if e > 0 {
      PowPositive(x, e - 1);
    }
  }

  lemma {:induction false} PowAdd(x: real, i: nat, j: nat)
    ensures Pow(x, i + j) == Pow(x, i) * Pow(x, j)
  {
    if i > 0 {
      PowAdd(x, i - 1, j);
    }
  }

  /** For a non-negative f1 with s = sqrt(f1), f1^(n/2) is s^n for every n. */
  lemma HalfPowOfNonNegative(math: Primitives, f1: real, n: nat)
    requires math.Lawful() && 0.0 <= f1
    ensures 0.0 <= math.sqrt(f1) && math.sqrt(f1) * math.sqrt(f1) == f1
    ensures HalfPow(math, f1, n) == Real(Pow(math.sqrt(f1), n))
  {
    var s := math.sqrt(f1);
    if n % 2 == 0 {
      PowOfSquare(s, n / 2);
      assert f1 == s * s;
      assert 2 * (n / 2) == n;
    }
  }

  /** f1^(n/2) is positive for a positive f1, so sums of such powers never vanish. */
  lemma HalfPowPositive(math: Primitives, f1: real, n: nat)
    requires math.Lawful() && 0.0 < f1
    ensures HalfPow(math, f1, n).Real? && 0.0 < HalfPow(math, f1, n).r
  {
    HalfPowOfNonNegative(math, f1, n);
    var s := math.sqrt(f1);
    assert 0.0 < s;
    PowPositive(s, n);
  }
}
