/**
 * The escape-time loop of MainWindow.Mandelbrot: starting from z = 0, repeat
 * z := z*z + c and count the steps, while Magnitude <= 4 and the count is below
 * maxIterations; the body runs at least once (a do-while loop).
 */
module Escape {
  import opened Complex

  /** One pass of the loop body: Complex.Add(Complex.Multiply(z, z), c). */
  function Step(z: Complex, c: Complex): Complex {
    Add(Mul(z, z), c)
  }

  /**
   * The loop goes on while Complex.Magnitude <= 4, that is while |z|^2 <= 16.
   * The bound is 4 on the magnitude, not the textbook 2.
   */
  predicate Escaped(z: Complex) {
    NormSq(z) > 16.0
  }

  /** The state of the loop when it stops: the counter and the last z. */
  datatype Exit = Exit(count: int, z: Complex)

  /**
   * The do-while loop from the point where it tests its condition with counter k
   * and value z: go on while z has not escaped and k < maxIterations.
   */
  function Continue(c: Complex, maxIterations: int, k: int, z: Complex): Exit
    decreases maxIterations - k
  {
    if !Escaped(z) && k < maxIterations then Continue(c, maxIterations, k + 1, Step(z, c))
    else Exit(k, z)
  }

  /** One more pass of the body, taken while the guard holds. */
  lemma ContinueStep(c: Complex, maxIterations: int, k: int, z: Complex)
    requires !Escaped(z) && k < maxIterations
    ensures Continue(c, maxIterations, k, z) == Continue(c, maxIterations, k + 1, Step(z, c))
  {
  }

  /** Once the guard fails the loop exits with the current counter and point. */
  lemma ContinueStop(c: Complex, maxIterations: int, k: int, z: Complex)
    requires Escaped(z) || k >= maxIterations
    ensures Continue(c, maxIterations, k, z) == Exit(k, z)
  {
  }

  /**
   * The whole loop: the body runs once, taking z = 0 to 0*0 + c = c (StepFromZero),
   * then Continue takes over with counter 1.
   */
  function EscapeLoop(c: Complex, maxIterations: int): Exit {
    Continue(c, maxIterations, 1, c)
  }

  /**
   * The value Mandelbrot returns. A loop that stopped with the counter at
   * maxIterations returns maxIterations, even when z escaped on that very step;
   * otherwise the count is smoothed by count + 1 - smooth(z), where smooth stands
   * for log10(log2 |z|) (floating-point library functions, left abstract).
   */
  function MandelbrotValue(c: Complex, maxIterations: int, smooth: Complex -> real): real {
    var e := EscapeLoop(c, maxIterations);
    if e.count == maxIterations then maxIterations as real
    else e.count as real + 1.0 - smooth(e.z)
  }

  /**
   * The point after n >= 1 passes of z := z*z + c from z = 0, an account of the loop
   * independent of its control flow. The first pass gives c (StepFromZero).
   */
  function Orbit(c: Complex, n: nat): Complex {
    if n <= 1 then c else Step(Orbit(c, n - 1), c)
  }

  /** The orbit of c is outside the bound after step n. */
  predicate EscapedAt(c: Complex, n: nat) {
    Escaped(Orbit(c, n))
  }

  /**
   * n is where the loop ends: the body ran n >= 1 times, the loop condition held
   * after every earlier step and fails after step n.
   */
  predicate IsExitCount(c: Complex, maxIterations: int, n: int) {
    && 1 <= n
    && (EscapedAt(c, n) || n >= maxIterations)
    && forall k :: 1 <= k < n ==> !EscapedAt(c, k) && k < maxIterations
  }

  /** The first pass of the body, from z = 0, lands on c. */
  lemma StepFromZero(c: Complex)
    ensures Step(Zero, c) == c
  {
    assert Mul(Zero, Zero) == Zero;
  }

  lemma {:induction false} ContinueFollowsOrbit(c: Complex, maxIterations: int, k: nat)
    requires k >= 1
    requires forall j :: 1 <= j < k ==> !EscapedAt(c, j) && j < maxIterations
    ensures IsExitCount(c, maxIterations, Continue(c, maxIterations, k, Orbit(c, k)).count)
    ensures var e := Continue(c, maxIterations, k, Orbit(c, k)); e.z == Orbit(c, e.count)
    ensures k <= maxIterations ==> Continue(c, maxIterations, k, Orbit(c, k)).count <= maxIterations
    ensures k >= maxIterations ==> Continue(c, maxIterations, k, Orbit(c, k)).count == k
    decreases maxIterations - k
  {
    if EscapedAt(c, k) || k >= maxIterations {
      assert IsExitCount(c, maxIterations, k);
    } else {
      assert Orbit(c, k + 1) == Step(Orbit(c, k), c);
      ContinueFollowsOrbit(c, maxIterations, k + 1);
    }
  }

  /**
   * The loop ends after the first step at which the condition fails, and its
   * last z is the orbit point of that step.
   */
  lemma EscapeLoopIsExit(c: Complex, maxIterations: int)
    ensures IsExitCount(c, maxIterations, EscapeLoop(c, maxIterations).count)
    ensures EscapeLoop(c, maxIterations).z == Orbit(c, EscapeLoop(c, maxIterations).count)
  {
    ContinueFollowsOrbit(c, maxIterations, 1);
  }

  /** The exit count is unique, so it characterises the loop completely. */
  lemma ExitCountUnique(c: Complex, maxIterations: int, n: int)
    requires IsExitCount(c, maxIterations, n)
    ensures EscapeLoop(c, maxIterations) == Exit(n, Orbit(c, n))
  {
    EscapeLoopIsExit(c, maxIterations);
  }

  /** The body runs at least once, and never more than maxIterations times when that is positive. */
  lemma EscapeCountBounds(c: Complex, maxIterations: int)
    ensures 1 <= EscapeLoop(c, maxIterations).count
    ensures maxIterations >= 1 ==> EscapeLoop(c, maxIterations).count <= maxIterations
    ensures maxIterations <= 1 ==> EscapeLoop(c, maxIterations).count == 1
  {
    ContinueFollowsOrbit(c, maxIterations, 1);
  }

  /**
   * If z stays within the bound for the first maxIterations - 1 steps, Mandelbrot
   * returns maxIterations, whatever happens on the last step.
   */
  lemma ReachingBudgetIsInterior(c: Complex, maxIterations: int, smooth: Complex -> real)
    requires maxIterations >= 1
    requires forall k :: 1 <= k < maxIterations ==> !EscapedAt(c, k)
    ensures MandelbrotValue(c, maxIterations, smooth) == maxIterations as real
  {
    ExitCountUnique(c, maxIterations, maxIterations);
  }

  /** A point that first escapes at step n < maxIterations gets the smoothed count of step n. */
  lemma EscapeBeforeBudget(c: Complex, maxIterations: int, smooth: Complex -> real, n: int)
    requires 1 <= n < maxIterations
    requires EscapedAt(c, n)
    requires forall k :: 1 <= k < n ==> !EscapedAt(c, k)
    ensures MandelbrotValue(c, maxIterations, smooth) == n as real + 1.0 - smooth(Orbit(c, n))
  {
    ExitCountUnique(c, maxIterations, n);
  }

  lemma {:induction false} OriginOrbit(c: Complex, n: nat)
    requires c.re == 0.0 && c.im == 0.0
    ensures Orbit(c, n).re == 0.0 && Orbit(c, n).im == 0.0
  {
    if n > 1 {
      OriginOrbit(c, n - 1);
    }
  }

  /** The origin never escapes: Mandelbrot(0, 0, N) returns N for every N >= 1. */
  lemma OriginIsInterior(maxIterations: int, smooth: Complex -> real)
    requires maxIterations >= 1
    ensures MandelbrotValue(Complex(0.0, 0.0), maxIterations, smooth) == maxIterations as real
  {
    var c := Complex(0.0, 0.0);
    forall k | 1 <= k < maxIterations
      ensures !EscapedAt(c, k)
    {
      OriginOrbit(c, k);
    }
    ReachingBudgetIsInterior(c, maxIterations, smooth);
  }

  /**
   * A point with |c|^2 > 16 escapes on the first step: the loop ends with count 1,
   * so the result is smoothed unless maxIterations is 1.
   */
  lemma FirstStepEscape(c: Complex, maxIterations: int, smooth: Complex -> real)
    requires Escaped(c)
    ensures EscapeLoop(c, maxIterations).count == 1
    ensures MandelbrotValue(c, maxIterations, smooth)
         == if maxIterations == 1 then 1.0 else 2.0 - smooth(c)
  {
    ExitCountUnique(c, maxIterations, 1);
  }

  /** The point 3 + 3i. */
  const ThreePlusThreeI := Complex(3.0, 3.0)

  /** c = 3 + 3i has |c|^2 = 18 > 16, so it escapes on the first step. */
  lemma ThreePlusThreeIEscapesAtOnce(maxIterations: int, smooth: Complex -> real)
    ensures EscapeLoop(ThreePlusThreeI, maxIterations).count == 1
    ensures MandelbrotValue(ThreePlusThreeI, maxIterations, smooth)
         == if maxIterations == 1 then 1.0 else 2.0 - smooth(ThreePlusThreeI)
  {
    FirstStepEscape(ThreePlusThreeI, maxIterations, smooth);
  }

  /**
   * MainWindow.Mandelbrot: the do-while loop over z and the counter, then the
   * interior check and the smoothing of the count.
   */
  method Mandelbrot(x: real, y: real, maxIterations: int, smooth: Complex -> real) returns (r: real)
    ensures r == MandelbrotValue(Complex(x, y), maxIterations, smooth)
  {
    var c := Complex(x, y);
    var iterations := 0;
    var z := Zero;
    z := Step(z, c);
    iterations := iterations + 1;
    assert z == c by { StepFromZero(c); }
    while !Escaped(z) && iterations < maxIterations
      invariant Continue(c, maxIterations, iterations, z) == EscapeLoop(c, maxIterations)
      decreases maxIterations - iterations
    {
      ContinueStep(c, maxIterations, iterations, z);
      z := Step(z, c);
      iterations := iterations + 1;
    }
    ContinueStop(c, maxIterations, iterations, z);
    if iterations == maxIterations {
      return maxIterations as real;
    }
    r := iterations as real + 1.0 - smooth(z);
  }
}
