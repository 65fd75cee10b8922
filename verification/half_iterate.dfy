/**
 The engine's numerical half-iterate: F(x, n) pulls t^sqrt(2) back through n
 applications of g(y) = y^2 + 1, using F(x, n) = sqrt(F(g(x), n - 1) - 1)
 and F(x, 0) = |x|^sqrt(2). Results are cached per (x, n) in a memo that
 survives between calls until it is cleared.
 */
module NumericalHalfIterate {
  import opened Numerics

  /** g(y) = y^2 + 1, the map the recursion steps through. */
  function Step(y: real): real
  {
    y * y + 1.0
  }

  /** g applied n times. */
  function Orbit(y: real, n: nat): real
    decreases n
  {
    if n == 0 then y else Orbit(Step(y), n - 1)
  }

  /**
   The value computeF returns. A negative radicand gives NaN, and NaN
   flows through the subtraction and the square root unchanged.
   */
  function F(math: Primitives, x: real, iterations: int): (r: Num)
    requires math.Lawful()
    ensures r.Real? ==> 0.0 <= r.r
    ensures r.Undefined? ==> r.error == NegativeRadicand
    decreases iterations
  {
    if iterations <= 0 then Real(math.powRoot2(Abs(x)))
    else
      var squared := Sub(F(math, Step(x), iterations - 1), Real(1.0));
      if squared.Real? && squared.r < 0.0 then Undefined(NegativeRadicand)
      else if squared.Real? then Real(math.sqrt(squared.r))
      else squared
  }

  /** With no iterations left, F is |x|^sqrt(2). */
  lemma BaseCase(math: Primitives, x: real, iterations: int)
    requires math.Lawful() && iterations <= 0
    ensures F(math, x, iterations).Real?
    ensures 0.0 <= F(math, x, iterations).r
    ensures 1.0 <= Abs(x) ==> Abs(x) <= F(math, x, iterations).r
  {
  }

  /**
   One step of the recursion: F(x) is NaN exactly when v = F(x^2 + 1) is NaN
   or v - 1 is negative, and otherwise solves F(x)^2 + 1 = v.
   */
  lemma RecurrenceIdentity(math: Primitives, x: real, iterations: int)
    requires math.Lawful() && 0 < iterations
    ensures F(math, x, iterations).Undefined? <==>
              (F(math, Step(x), iterations - 1).Undefined? || F(math, Step(x), iterations - 1).r < 1.0)
    ensures F(math, x, iterations).Real? ==>
              F(math, x, iterations).r * F(math, x, iterations).r + 1.0 == F(math, Step(x), iterations - 1).r
  {
    var next := F(math, Step(x), iterations - 1);
    if next.Real? && 1.0 <= next.r {
      SquareOfRoot(math, next.r - 1.0);
    }
  }

  lemma SquareOfRoot(math: Primitives, u: real)
    requires math.Lawful() && 0.0 <= u
    ensures math.sqrt(u) * math.sqrt(u) + 1.0 == u + 1.0
  {
  }

  /** sqrt(u) is at least |x| whenever u is at least x^2. */
  lemma RootAtLeast(math: Primitives, u: real, x: real)
    requires math.Lawful() && x * x <= u
    ensures Abs(x) <= math.sqrt(u)
  {
    var s := math.sqrt(u);
    var ax := Abs(x);
    assert 0.0 <= s && s * s == u;
    assert ax * ax == x * x;
    if s < ax {
      SquareIncreasing(s, ax);
      assert false;
    }
  }

  /** Squaring is strictly increasing on the non-negative reals. */
  lemma SquareIncreasing(s: real, t: real)
    requires 0.0 <= s < t
    ensures s * s < t * t
  {
    ProductPositive(t - s, t + s);
    assert (t - s) * (t + s) == t * t - s * s;
  }

  lemma ProductPositive(p: real, q: real)
    requires 0.0 < p && 0.0 < q
    ensures 0.0 < p * q
  {
  }

  /**
   Starting at or above 1, F never falls below its argument, and it is
   always defined.
   */
  lemma {:induction false} AtLeastArgument(math: Primitives, y: real, iterations: int)
    requires math.Lawful() && 1.0 <= y
    ensures F(math, y, iterations).Real?
    ensures y <= F(math, y, iterations).r
    decreases iterations
  {
    if 0 < iterations {
      AtLeastArgument(math, Step(y), iterations - 1);
      RootAtLeast(math, F(math, Step(y), iterations - 1).r - 1.0, y);
    }
  }

  /**
   In exact arithmetic the NaN branch is never taken: F is defined
   everywhere, and after at least one step it is at least |x|.
   */
  lemma {:induction false} AlwaysDefined(math: Primitives, x: real, iterations: int)
    requires math.Lawful()
    ensures F(math, x, iterations).Real?
    ensures 0 < iterations ==> Abs(x) <= F(math, x, iterations).r
  {
    if 0 < iterations {
      AtLeastArgument(math, Step(x), iterations - 1);
      RootAtLeast(math, F(math, Step(x), iterations - 1).r - 1.0, x);
    }
  }

  /** Running g forward n times from F(x, n) lands on |g^n(x)|^sqrt(2). */
  lemma {:induction false} Unwind(math: Primitives, x: real, iterations: nat)
    requires math.Lawful()
    ensures F(math, x, iterations).Real?
    ensures Orbit(F(math, x, iterations).r, iterations) == math.powRoot2(Abs(Orbit(x, iterations)))
    decreases iterations
  {
    AlwaysDefined(math, x, iterations);
    if 0 < iterations {
      Unwind(math, Step(x), iterations - 1);
      RecurrenceIdentity(math, x, iterations);
      var r := F(math, x, iterations).r;
      assert Step(r) == F(math, Step(x), iterations - 1).r;
    }
  }

  /** F depends on x only through x^2. */
  lemma {:induction false} EvenInX(math: Primitives, x: real, iterations: int)
    requires math.Lawful()
    ensures F(math, -x, iterations) == F(math, x, iterations)
  {
  }

  /** numericalHalfIterate: computeF and createSeries over a shared memo. */
  class Approximator {
    const math: Primitives
    var memo: map<(real, int), Num>

    /** Every cached value is the value F has at its key. */
    ghost predicate Valid()
      reads this
    {
      && math.Lawful()
      && forall key :: key in memo ==> memo[key] == F(math, key.0, key.1)
    }

    constructor (math: Primitives)
      requires math.Lawful()
      ensures Valid() && this.math == math && memo == map[]
    {
      this.math := math;
      memo := map[];
    }

    /** computeF: F(x, iterations), read from the memo or computed and cached. */
    method ComputeF(x: real, iterations: int) returns (r: Num)
      requires Valid()
      modifies this
      ensures Valid()
      ensures r == F(math, x, iterations)
      ensures (x, iterations) in memo && old(memo).Keys <= memo.Keys
      decreases iterations
    {
      var key := (x, iterations);
      if key in memo {
        return memo[key];
      }
      if iterations <= 0 {
        var baseValue := Real(math.powRoot2(Abs(x)));
        memo := memo[key := baseValue];
        return baseValue;
      }
      var nextX := x * x + 1.0;
      var fOfNext := ComputeF(nextX, iterations - 1);
      var resultSquared := Sub(fOfNext, Real(1.0));
      if resultSquared.Real? && resultSquared.r < 0.0 {
        memo := memo[key := Undefined(NegativeRadicand)];
        return Undefined(NegativeRadicand);
      }
      var result := if resultSquared.Real? then Real(math.sqrt(resultSquared.r)) else resultSquared;
      memo := memo[key := result];
      return result;
    }

    /** createSeries: clear the memo, then F(x, iterations) for each x in order. */
    method CreateSeries(xs: seq<real>, iterations: int) returns (ys: seq<Num>)
      requires Valid()
      modifies this
      ensures Valid()
      ensures |ys| == |xs|
      ensures forall i :: 0 <= i < |xs| ==> ys[i] == F(math, xs[i], iterations)
      ensures forall i :: 0 <= i < |xs| ==> (xs[i], iterations) in memo
    {
      memo := map[];
      ys := [];
      var i := 0;
      while i < |xs|
        invariant Valid()
        invariant 0 <= i <= |xs| && |ys| == i
        invariant forall j :: 0 <= j < i ==> ys[j] == F(math, xs[j], iterations)
        invariant forall j :: 0 <= j < i ==> (xs[j], iterations) in memo
      {
        var y := ComputeF(xs[i], iterations);
        ys := ys + [y];
        i := i + 1;
      }
    }

    /** reset: empty the memo. */
    method Reset()
      requires Valid()
      modifies this
      ensures Valid() && memo == map[]
    {
      memo := map[];
    }
  }
}
