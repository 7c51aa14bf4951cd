/**
 * The Newton–Raphson root solver of newtons_method.py.
 *
 * The solver is generic in its scalar type S (a real number, or a complex
 * number as in the fractal). What it needs of S is bundled in an Arith<S>
 * record: the zero the derivative is compared against, subtraction, division
 * and the absolute value used for the convergence check. Arithmetic is exact;
 * floating-point rounding is not modelled.
 */
module Newton {

  /** The operations the solver uses on its scalar type. */
  datatype Arith<!S> = Arith(zero: S, sub: (S, S) -> S, div: (S, S) -> S, abs: S -> real)

  /**
   * What the solver returns: a converged iterate, or the failure sentinel.
   * The source returns float('nan') as its sentinel, for both kinds of failure.
   */
  datatype Solution<S> = Root(x: S) | Fail

  /**
   * Why the loop stopped: the iterate k met the tolerance, the derivative at
   * iterate k was zero, or the iteration budget ran out. The source does not
   * return this; it is used only to state what the solver does.
   */
  datatype Exit = Converged(k: nat) | Stationary(k: nat) | Exhausted

  /** One Newton update, x - f(x)/df(x). */
  function Step<S>(A: Arith<S>, f: S -> S, df: S -> S, x: S): S
  {
    A.sub(x, A.div(f(x), df(x)))
  }

  /** The k-th Newton iterate from x0: x_0 = x0, x_{k+1} = Step(x_k). */
  function Iterate<S>(A: Arith<S>, f: S -> S, df: S -> S, x0: S, k: nat): S
  {
    if k == 0 then x0 else Step(A, f, df, Iterate(A, f, df, x0, k - 1))
  }

  /** Iterate j neither meets the tolerance nor has a zero derivative, so the loop updates past it. */
  predicate Passes<S(==)>(A: Arith<S>, f: S -> S, df: S -> S, x0: S, epsilon: real, j: nat)
  {
    var x := Iterate(A, f, df, x0, j);
    A.abs(f(x)) >= epsilon && df(x) != A.zero
  }

  /** How the loop exits when it is at pass k with iterate x_k (a reference definition of the loop). */
  function ExitFrom<S(==)>(A: Arith<S>, f: S -> S, df: S -> S, x0: S, epsilon: real,
                           maxIterations: int, k: nat): (e: Exit)
    ensures e.Converged? ==> k <= e.k < maxIterations && A.abs(f(Iterate(A, f, df, x0, e.k))) < epsilon
    ensures e.Stationary? ==> k <= e.k < maxIterations && df(Iterate(A, f, df, x0, e.k)) == A.zero
    decreases maxIterations - k
  {
    if k >= maxIterations then Exhausted
    else
      var x := Iterate(A, f, df, x0, k);
      if A.abs(f(x)) < epsilon then Converged(k)
      else if df(x) == A.zero then Stationary(k)
      else ExitFrom(A, f, df, x0, epsilon, maxIterations, k + 1)
  }

  /** What the source returns for each way of leaving the loop. */
  function Outcome<S>(A: Arith<S>, f: S -> S, df: S -> S, x0: S, e: Exit): Solution<S>
  {
    match e
    case Converged(k) => Root(Iterate(A, f, df, x0, k))
    case Stationary(_) => Fail
    case Exhausted => Fail
  }

  /**
   * The solver's result, as a function of its inputs. A returned value meets
   * the convergence check |f(x)| < epsilon; with no budget the solver fails,
   * even when x0 is an exact root, since range(0, max_iterations) is empty.
   */
  function Solve<S(==)>(A: Arith<S>, f: S -> S, df: S -> S, x0: S, epsilon: real,
                        maxIterations: int): (r: Solution<S>)
    ensures r.Root? ==> A.abs(f(r.x)) < epsilon
    ensures maxIterations <= 0 ==> r == Fail
  {
    Outcome(A, f, df, x0, ExitFrom(A, f, df, x0, epsilon, maxIterations, 0))
  }

  /** How many times the loop evaluates f before it exits. */
  function FEvals(e: Exit, maxIterations: int): nat
  {
    match e
    case Converged(k) => k + 1
    case Stationary(k) => k + 1
    case Exhausted => if maxIterations < 0 then 0 else maxIterations
  }

  /**
   * The solver loop. Returns the first iterate whose |f| is below epsilon, or
   * Fail at a zero derivative or when max_iterations passes are used up.
   * The ghost result fEvals counts the evaluations of f.
   */
  method NewtonsMethod<S(==)>(A: Arith<S>, f: S -> S, df: S -> S, x0: S, epsilon: real,
                              maxIterations: int)
    returns (r: Solution<S>, ghost fEvals: nat)
    ensures r == Solve(A, f, df, x0, epsilon, maxIterations)
    ensures r.Root? ==> A.abs(f(r.x)) < epsilon
    ensures fEvals == FEvals(ExitFrom(A, f, df, x0, epsilon, maxIterations, 0), maxIterations)
    ensures fEvals <= if maxIterations < 0 then 0 else maxIterations
  {
    var xn := x0;
    var n := 0;
    fEvals := 0;
    while n < maxIterations
      invariant 0 <= n && (n <= maxIterations || n == 0)
      invariant fEvals == n
      invariant xn == Iterate(A, f, df, x0, n)
      invariant ExitFrom(A, f, df, x0, epsilon, maxIterations, n)
             == ExitFrom(A, f, df, x0, epsilon, maxIterations, 0)
    {
      var fxn := f(xn);
      fEvals := fEvals + 1;
      if A.abs(fxn) < epsilon {
        return Root(xn), fEvals;
      }
      var dfxn := df(xn);
      if dfxn == A.zero {
        return Fail, fEvals;
      }
      xn := A.sub(xn, A.div(fxn, dfxn));
      n := n + 1;
    }
    return Fail, fEvals;
  }

  /**
   * The loop, started at pass k0, converges at pass k exactly when k is at
   * least k0 and within the budget, iterate k meets the tolerance, and every
   * pass from k0 to k - 1 went on.
   */
  lemma {:induction false} ConvergedFrom<S>(A: Arith<S>, f: S -> S, df: S -> S, x0: S,
                                                epsilon: real, maxIterations: int, k0: nat, k: nat)
    ensures ExitFrom(A, f, df, x0, epsilon, maxIterations, k0) == Converged(k)
        <==> k0 <= k < maxIterations && A.abs(f(Iterate(A, f, df, x0, k))) < epsilon
             && forall j :: k0 <= j < k ==> Passes(A, f, df, x0, epsilon, j)
    decreases maxIterations - k0
  {
    if k0 < maxIterations && Passes(A, f, df, x0, epsilon, k0) {
      ConvergedFrom(A, f, df, x0, epsilon, maxIterations, k0 + 1, k);
    }
  }

  /** Likewise for a stop at a zero derivative at pass k. */
  lemma {:induction false} StationaryFrom<S>(A: Arith<S>, f: S -> S, df: S -> S, x0: S,
                                                 epsilon: real, maxIterations: int, k0: nat, k: nat)
    ensures ExitFrom(A, f, df, x0, epsilon, maxIterations, k0) == Stationary(k)
        <==> k0 <= k < maxIterations && A.abs(f(Iterate(A, f, df, x0, k))) >= epsilon
             && df(Iterate(A, f, df, x0, k)) == A.zero
             && forall j :: k0 <= j < k ==> Passes(A, f, df, x0, epsilon, j)
    decreases maxIterations - k0
  {
    if k0 < maxIterations && Passes(A, f, df, x0, epsilon, k0) {
      StationaryFrom(A, f, df, x0, epsilon, maxIterations, k0 + 1, k);
    }
  }

  /** Likewise for running out of budget: every remaining pass went on. */
  lemma {:induction false} ExhaustedFrom<S>(A: Arith<S>, f: S -> S, df: S -> S, x0: S,
                                                epsilon: real, maxIterations: int, k0: nat)
    ensures ExitFrom(A, f, df, x0, epsilon, maxIterations, k0) == Exhausted
        <==> forall j :: k0 <= j < maxIterations ==> Passes(A, f, df, x0, epsilon, j)
    decreases maxIterations - k0
  {
    if k0 < maxIterations {
      if Passes(A, f, df, x0, epsilon, k0) {
        ExhaustedFrom(A, f, df, x0, epsilon, maxIterations, k0 + 1);
      } else {
        assert !Passes(A, f, df, x0, epsilon, k0);
      }
    }
  }

  /**
   * A returned value is the iterate x_k for some k < max_iterations, and no
   * earlier iterate met the tolerance or had a zero derivative.
   */
  lemma RootIsIterate<S>(A: Arith<S>, f: S -> S, df: S -> S, x0: S, epsilon: real,
                             maxIterations: int)
    ensures Solve(A, f, df, x0, epsilon, maxIterations).Root? ==>
      exists k: nat :: k < maxIterations
        && Solve(A, f, df, x0, epsilon, maxIterations).x == Iterate(A, f, df, x0, k)
        && forall j :: 0 <= j < k ==> Passes(A, f, df, x0, epsilon, j)
  {
    var e := ExitFrom(A, f, df, x0, epsilon, maxIterations, 0);
    if e.Converged? {
      ConvergedFrom(A, f, df, x0, epsilon, maxIterations, 0, e.k);
    }
  }

  /**
   * The solver fails exactly when it stops at a zero derivative or runs out
   * of budget; the two causes give the same sentinel.
   */
  lemma FailCauses<S>(A: Arith<S>, f: S -> S, df: S -> S, x0: S, epsilon: real,
                      maxIterations: int)
    ensures Solve(A, f, df, x0, epsilon, maxIterations) == Fail
        <==> ((exists k: nat :: k < maxIterations && A.abs(f(Iterate(A, f, df, x0, k))) >= epsilon
                 && df(Iterate(A, f, df, x0, k)) == A.zero
                 && forall j :: 0 <= j < k ==> Passes(A, f, df, x0, epsilon, j))
              || (forall j :: 0 <= j < maxIterations ==> Passes(A, f, df, x0, epsilon, j)))
  {
    var e := ExitFrom(A, f, df, x0, epsilon, maxIterations, 0);
    ExhaustedFrom(A, f, df, x0, epsilon, maxIterations, 0);
    match e
    case Converged(k) =>
      ConvergedFrom(A, f, df, x0, epsilon, maxIterations, 0, k);
      assert !Passes(A, f, df, x0, epsilon, k);
      forall k': nat | k' < maxIterations && A.abs(f(Iterate(A, f, df, x0, k'))) >= epsilon
                      && df(Iterate(A, f, df, x0, k')) == A.zero
        ensures !forall j :: 0 <= j < k' ==> Passes(A, f, df, x0, epsilon, j)
      {
        var passed := Passes(A, f, df, x0, epsilon, k');
      }
    case Stationary(k) =>
      StationaryFrom(A, f, df, x0, epsilon, maxIterations, 0, k);
      forall k': nat | k' < maxIterations && A.abs(f(Iterate(A, f, df, x0, k'))) >= epsilon
                      && df(Iterate(A, f, df, x0, k')) == A.zero
                      && forall j :: 0 <= j < k' ==> Passes(A, f, df, x0, epsilon, j)
        ensures k' == k
      {
        StationaryFrom(A, f, df, x0, epsilon, maxIterations, 0, k');
      }
    case Exhausted =>
  }

  /** A starting guess that already meets the tolerance is returned unchanged. */
  lemma ConvergedStartReturned<S>(A: Arith<S>, f: S -> S, df: S -> S, x0: S, epsilon: real,
                                      maxIterations: int)
    requires maxIterations >= 1 && A.abs(f(x0)) < epsilon
    ensures Solve(A, f, df, x0, epsilon, maxIterations) == Root(x0)
  {
  }

  /** A starting guess that misses the tolerance at a zero derivative fails at once, with one evaluation of f. */
  lemma StationaryStartFails<S>(A: Arith<S>, f: S -> S, df: S -> S, x0: S, epsilon: real,
                                    maxIterations: int)
    requires maxIterations >= 1 && A.abs(f(x0)) >= epsilon && df(x0) == A.zero
    ensures ExitFrom(A, f, df, x0, epsilon, maxIterations, 0) == Stationary(0)
    ensures Solve(A, f, df, x0, epsilon, maxIterations) == Fail
    ensures FEvals(ExitFrom(A, f, df, x0, epsilon, maxIterations, 0), maxIterations) == 1
  {
  }

  /** f is evaluated at most max_iterations times (and never when max_iterations <= 0). */
  lemma FEvalsBound<S>(A: Arith<S>, f: S -> S, df: S -> S, x0: S, epsilon: real,
                           maxIterations: int)
    ensures FEvals(ExitFrom(A, f, df, x0, epsilon, maxIterations, 0), maxIterations)
         <= if maxIterations < 0 then 0 else maxIterations
  {
    var e := ExitFrom(A, f, df, x0, epsilon, maxIterations, 0);
    match e
    case Converged(k) => ConvergedFrom(A, f, df, x0, epsilon, maxIterations, 0, k);
    case Stationary(k) => StationaryFrom(A, f, df, x0, epsilon, maxIterations, 0, k);
    case Exhausted =>
  }

  /**
   * When every one of the max_iterations passes goes on, the solver fails,
   * whatever the final update produced: that last iterate is never compared with the tolerance.
   */
  lemma LastIterateIgnored<S>(A: Arith<S>, f: S -> S, df: S -> S, x0: S, epsilon: real,
                                   maxIterations: int)
    requires forall j :: 0 <= j < maxIterations ==> Passes(A, f, df, x0, epsilon, j)
    ensures Solve(A, f, df, x0, epsilon, maxIterations) == Fail
    ensures FEvals(ExitFrom(A, f, df, x0, epsilon, maxIterations, 0), maxIterations)
         == if maxIterations < 0 then 0 else maxIterations
  {
    ExhaustedFrom(A, f, df, x0, epsilon, maxIterations, 0);
  }

  /** Iterate k + 1 from x0 is iterate k from the first update Step(x0). */
  lemma {:induction false} IterateShift<S>(A: Arith<S>, f: S -> S, df: S -> S, x0: S, k: nat)
    ensures Iterate(A, f, df, x0, k + 1) == Iterate(A, f, df, Step(A, f, df, x0), k)
  {
    if k > 0 {
      IterateShift(A, f, df, x0, k - 1);
    }
  }

  /** An exit reason counted from the first update, renumbered to count from x0. */
  function Later(e: Exit): Exit
  {
    match e
    case Converged(k) => Converged(k + 1)
    case Stationary(k) => Stationary(k + 1)
    case Exhausted => Exhausted
  }

  lemma {:induction false} ExitShift<S>(A: Arith<S>, f: S -> S, df: S -> S, x0: S, epsilon: real,
                                            maxIterations: int, k: nat)
    ensures ExitFrom(A, f, df, x0, epsilon, maxIterations, k + 1)
         == Later(ExitFrom(A, f, df, Step(A, f, df, x0), epsilon, maxIterations - 1, k))
    decreases maxIterations - k
  {
    IterateShift(A, f, df, x0, k);
    if k + 1 < maxIterations {
      ExitShift(A, f, df, x0, epsilon, maxIterations, k + 1);
    }
  }

  /**
   * A pass that goes on hands over to a fresh solve: when x0 misses the
   * tolerance with a non-zero derivative, the result is that of the solver
   * started at Step(x0) with one pass fewer.
   */
  lemma SolveRestarts<S>(A: Arith<S>, f: S -> S, df: S -> S, x0: S, epsilon: real,
                             maxIterations: int)
    requires maxIterations >= 1 && Passes(A, f, df, x0, epsilon, 0)
    ensures Solve(A, f, df, x0, epsilon, maxIterations)
         == Solve(A, f, df, Step(A, f, df, x0), epsilon, maxIterations - 1)
  {
    var x1 := Step(A, f, df, x0);
    ExitShift(A, f, df, x0, epsilon, maxIterations, 0);
    var e := ExitFrom(A, f, df, x1, epsilon, maxIterations - 1, 0);
    if e.Converged? {
      IterateShift(A, f, df, x0, e.k);
    }
  }

  /** Exact real arithmetic, with Python's abs on floats. */
  const Reals: Arith<real> :=
    Arith(0.0, (a: real, b: real) => a - b,
          (a: real, b: real) => if b == 0.0 then 0.0 else a / b,
          (a: real) => if a < 0.0 then -a else a)

  /**
   * Over the reals the update x1 = Step(x0) solves the tangent equation
   * (x0 - x1) * df(x0) = f(x0) whenever df(x0) is not zero.
   */
  lemma RealStepSolvesTangent(f: real -> real, df: real -> real, x: real)
    requires df(x) != 0.0
    ensures (x - Step(Reals, f, df, x)) * df(x) == f(x)
  {
  }

  /**
   * f(x) = x - 1 from x0 = 0 with a budget of one pass: the single update lands
   * exactly on the root 1, yet the solver fails because that iterate is never compared with the tolerance.
   */
  lemma RootOnLastUpdateFails()
    ensures Iterate(Reals, x => x - 1.0, x => 1.0, 0.0, 1) == 1.0
    ensures Solve(Reals, x => x - 1.0, x => 1.0, 0.0, 0.000001, 1) == Fail
  {
    assert Passes(Reals, x => x - 1.0, x => 1.0, 0.0, 0.000001, 0);
    LastIterateIgnored(Reals, x => x - 1.0, x => 1.0, 0.0, 0.000001, 1);
  }

  /**
   * f(x) = x^3, df(x) = 3x^2 from x0 = 0: the source checks f before df, so it
   * returns the root 0 rather than failing at the stationary point.
   */
  lemma CubeAtZeroConverges(epsilon: real, maxIterations: int)
    requires epsilon > 0.0 && maxIterations >= 1
    ensures Solve(Reals, x => x * x * x, x => 3.0 * x * x, 0.0, epsilon, maxIterations) == Root(0.0)
  {
  }
}
