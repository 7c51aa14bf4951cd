/**
 * The grid fill of newton_fractal (newton_complex_fract_plot.py): every grid
 * point z0 = x + iy is solved with Newton's method, the result's index in the
 * root registry is written to cell m[iy, ix] of an n×n zero matrix.
 *
 * The grid coordinates (np.linspace over the domain) are given as the
 * sequences xs and ys, and the complex modulus abs as a parameter. Plotting
 * is not modelled.
 */
module Fractal {
  import opened Newton
  import opened Complex
  import opened RootRegistry

  /** The solver's tolerance and iteration cap, fixed by the grid fill. */
  const EPSILON: real := 0.000001
  const MAX_ITERATIONS: int := 50

  /** The absolute tolerance passed to np.isclose. */
  const ATOL: real := 0.00000001

  /** The complex arithmetic of the grid points for the solver, with the modulus abs. */
  function ComplexArith(abs: Complex -> real): Arith<Complex>
  {
    Arith(Zero, Sub, Div, abs)
  }

  /**
   * np.isclose(a, b, atol=1e-8): |a - b| <= atol + rtol * |b| with numpy's
   * default relative tolerance rtol = 1e-5; not symmetric in a and b.
   */
  function IsClose(abs: Complex -> real, a: Complex, b: Complex): (c: bool)
    ensures c ==> abs(Sub(a, b)) <= ATOL + 0.00001 * abs(b)
    ensures abs(b) >= 0.0 && abs(Sub(a, b)) <= ATOL ==> c
    ensures abs(b) == 0.0 ==> (c <==> abs(Sub(a, b)) <= ATOL)
  {
    abs(Sub(a, b)) <= ATOL + 0.00001 * abs(b)
  }

  /** The closeness get_root_index applies, as close(roots[i], r). */
  function Close(abs: Complex -> real): (Complex, Complex) -> bool
  {
    (a, b) => IsClose(abs, a, b)
  }

  /**
   * Two roots in a registry that keeps its invariant are never close in the
   * order np.isclose(roots, r) compares them: the later entry scales the tolerance.
   */
  lemma RegistrySeparated(abs: Complex -> real, roots: seq<Solution<Complex>>, i: nat, j: nat)
    requires Distinct(Close(abs), roots) && i < j < |roots| && roots[i].Root? && roots[j].Root?
    ensures abs(Sub(roots[i].x, roots[j].x)) > ATOL + 0.00001 * abs(roots[j].x)
  {
    assert !Matches(Close(abs), roots[i], roots[j]);
  }

  /**
   * The complex update x1 = Step(x0) solves the tangent equation
   * (x0 - x1) * f'(x0) = f(x0) whenever f'(x0) has a non-zero modulus.
   */
  lemma StepSolvesTangent(f: Complex -> Complex, fprime: Complex -> Complex, abs: Complex -> real,
                          x: Complex)
    requires Norm(fprime(x)) != 0.0
    ensures Mul(Sub(x, Step(ComplexArith(abs), f, fprime, x)), fprime(x)) == f(x)
  {
    var q := Div(f(x), fprime(x));
    assert Sub(x, Sub(x, q)) == q;
  }

  /** A modulus that is zero at zero and non-negative makes every value close to itself. */
  lemma IsCloseReflexive(abs: Complex -> real, a: Complex)
    requires abs(Zero) == 0.0 && abs(a) >= 0.0
    ensures IsClose(abs, a, a)
  {
    assert Sub(a, a) == Zero;
  }

  /**
   * isclose is not symmetric: with a modulus that agrees with |x| on the
   * real axis, 1 is close to 1 + d but 1 + d is not close to 1, for
   * d = 0.000010010005 (the relative tolerance scales with the second argument).
   */
  lemma IsCloseAsymmetric(abs: Complex -> real)
    requires abs(Complex(1.0, 0.0)) == 1.0
    requires abs(Complex(1.000010010005, 0.0)) == 1.000010010005
    requires abs(Complex(0.000010010005, 0.0)) == 0.000010010005
    requires abs(Complex(-0.000010010005, 0.0)) == 0.000010010005
    ensures IsClose(abs, Complex(1.0, 0.0), Complex(1.000010010005, 0.0))
    ensures !IsClose(abs, Complex(1.000010010005, 0.0), Complex(1.0, 0.0))
  {
    SmallCloseToLarge(abs);
    LargeNotCloseToSmall(abs);
  }

  /** 1 is close to 1 + d: the tolerance is scaled by |1 + d|. */
  lemma SmallCloseToLarge(abs: Complex -> real)
    requires abs(Complex(1.000010010005, 0.0)) == 1.000010010005
    requires abs(Complex(-0.000010010005, 0.0)) == 0.000010010005
    ensures IsClose(abs, Complex(1.0, 0.0), Complex(1.000010010005, 0.0))
  {
    var one, big, d := Complex(1.0, 0.0), Complex(1.000010010005, 0.0), 0.000010010005;
    assert Sub(one, big) == Complex(-d, 0.0);
    assert abs(Sub(one, big)) <= ATOL + 0.00001 * abs(big);
  }

  /** 1 + d is not close to 1: the tolerance is scaled by |1| only. */
  lemma LargeNotCloseToSmall(abs: Complex -> real)
    requires abs(Complex(1.0, 0.0)) == 1.0
    requires abs(Complex(0.000010010005, 0.0)) == 0.000010010005
    ensures !IsClose(abs, Complex(1.000010010005, 0.0), Complex(1.0, 0.0))
  {
    var one, big, d := Complex(1.0, 0.0), Complex(1.000010010005, 0.0), 0.000010010005;
    assert Sub(big, one) == Complex(d, 0.0);
    assert abs(Sub(big, one)) > ATOL + 0.00001 * abs(one);
  }

  /** The position of cell (ix, iy) in the traversal order: x outer, y inner. */
  function CellIndex(n: nat, ix: nat, iy: nat): (t: nat)
    requires ix < n && iy < n
    ensures t < n * n
  {
    assert (ix + 1) * n == ix * n + n;
    MulMonotone(ix + 1, n, n);
    ix * n + iy
  }

  lemma MulMonotone(a: int, b: int, c: nat)
    requires a <= b
    ensures a * c <= b * c
  {
  }

  /** The only multiple of n strictly between -n and n is 0. */
  lemma MultipleBelow(k: int, n: int)
    requires n > 0 && -n < k * n < n
    ensures k == 0
  {
    if k >= 1 {
      MulMonotone(1, k, n);
    } else if k <= -1 {
      MulMonotone(k, -1, n);
    }
  }

  /** Position ix * n + iy of the traversal is cell (ix, iy). */
  lemma CellDivMod(n: nat, ix: nat, iy: nat)
    requires iy < n
    ensures (ix * n + iy) / n == ix && (ix * n + iy) % n == iy
  {
    var t := ix * n + iy;
    var q, r := t / n, t % n;
    assert t == q * n + r && 0 <= r < n;
    assert (ix - q) * n == r - iy;
    MultipleBelow(ix - q, n);
  }

  lemma DivBelow(n: nat, t: nat)
    requires t < n * n
    ensures t / n < n
  {
    var q := t / n;
    assert t == q * n + t % n;
    if q >= n {
      MulMonotone(n, q, n);
    }
  }

  /** The solver's result at each grid point, in traversal order. */
  function Solutions(f: Complex -> Complex, fprime: Complex -> Complex, abs: Complex -> real,
                     n: nat, xs: seq<real>, ys: seq<real>): (rs: seq<Solution<Complex>>)
    requires |xs| == n && |ys| == n
    ensures |rs| == n * n
  {
    seq(n * n, t requires 0 <= t < n * n =>
      DivBelow(n, t);
      Solve(ComplexArith(abs), f, fprime, Complex(xs[t / n], ys[t % n]), EPSILON, MAX_ITERATIONS))
  }

  /** rs holds, at each cell's traversal position, the solver's result from that cell. */
  ghost predicate SolvesCells(rs: seq<Solution<Complex>>, f: Complex -> Complex, fprime: Complex -> Complex,
                              abs: Complex -> real, n: nat, xs: seq<real>, ys: seq<real>)
    requires |xs| == n && |ys| == n
  {
    |rs| == n * n
    && forall ix, iy :: 0 <= ix < n && 0 <= iy < n ==>
         rs[CellIndex(n, ix, iy)] == Solve(ComplexArith(abs), f, fprime, Complex(xs[ix], ys[iy]), EPSILON, MAX_ITERATIONS)
  }

  /** The traversal solves from xs[ix] + i ys[iy] at position CellIndex(n, ix, iy). */
  lemma SolutionsSolveCells(f: Complex -> Complex, fprime: Complex -> Complex, abs: Complex -> real,
                            n: nat, xs: seq<real>, ys: seq<real>)
    requires |xs| == n && |ys| == n
    ensures SolvesCells(Solutions(f, fprime, abs, n, xs, ys), f, fprime, abs, n, xs, ys)
  {
    var sols := Solutions(f, fprime, abs, n, xs, ys);
    forall ix, iy | 0 <= ix < n && 0 <= iy < n
      ensures sols[CellIndex(n, ix, iy)]
           == Solve(ComplexArith(abs), f, fprime, Complex(xs[ix], ys[iy]), EPSILON, MAX_ITERATIONS)
    {
      var t := CellIndex(n, ix, iy);
      CellDivMod(n, ix, iy);
      assert t / n == ix && t % n == iy;
      assert sols[t] == Solve(ComplexArith(abs), f, fprime, Complex(xs[t / n], ys[t % n]), EPSILON, MAX_ITERATIONS);
    }
  }

  /** Distinct cells have distinct traversal positions. */
  lemma CellIndexInjective(n: nat, ix: nat, iy: nat, jx: nat, jy: nat)
    requires ix < n && iy < n && jx < n && jy < n
    requires CellIndex(n, ix, iy) == CellIndex(n, jx, jy)
    ensures ix == jx && iy == jy
  {
    CellDivMod(n, ix, iy);
    CellDivMod(n, jx, jy);
  }

  /**
   * Over column ix of the grid, states and indices trace the registry:
   * states[CellIndex(n, ix, iy)] is the registry before cell (ix, iy) is
   * registered, the next state the registry after it, and
   * indices[CellIndex(n, ix, iy)] the index get_root_index returns for the
   * cell's solver result.
   */
  ghost predicate ColumnTraces(f: Complex -> Complex, fprime: Complex -> Complex, abs: Complex -> real,
                               n: nat, xs: seq<real>, ys: seq<real>, ix: nat,
                               states: seq<seq<Solution<Complex>>>, indices: seq<nat>)
    requires |xs| == n && |ys| == n && ix < n
  {
    |indices| == n * n && |states| == |indices| + 1 && ix * n + n <= |indices|
    && forall iy :: 0 <= iy < n ==>
         (states[CellIndex(n, ix, iy) + 1], indices[CellIndex(n, ix, iy)])
         == Insert(Close(abs), states[CellIndex(n, ix, iy)],
                   Solve(ComplexArith(abs), f, fprime, Complex(xs[ix], ys[iy]), EPSILON, MAX_ITERATIONS))
  }

  /** The trace of the whole traversal traces every column. */
  lemma ColumnOfTrace(f: Complex -> Complex, fprime: Complex -> Complex, abs: Complex -> real,
                      n: nat, xs: seq<real>, ys: seq<real>, ix: nat, sols: seq<Solution<Complex>>,
                      states: seq<seq<Solution<Complex>>>, indices: seq<nat>)
    requires |xs| == n && |ys| == n && ix < n
    requires sols == Solutions(f, fprime, abs, n, xs, ys) && Traces(Close(abs), sols, states, indices)
    ensures ColumnTraces(f, fprime, abs, n, xs, ys, ix, states, indices)
  {
    SolutionsSolveCells(f, fprime, abs, n, xs, ys);
    MulMonotone(ix + 1, n, n);
    assert ix * n + n == (ix + 1) * n;
    forall iy | 0 <= iy < n
      ensures (states[CellIndex(n, ix, iy) + 1], indices[CellIndex(n, ix, iy)])
           == Insert(Close(abs), states[CellIndex(n, ix, iy)],
                     Solve(ComplexArith(abs), f, fprime, Complex(xs[ix], ys[iy]), EPSILON, MAX_ITERATIONS))
    {
      var t := CellIndex(n, ix, iy);
      assert (states[t + 1], indices[t]) == Insert(Close(abs), states[t], sols[t]);
    }
  }

  /**
   * A trace of the registry over the whole traversal, column by column,
   * ending in the registry and indices RootIndices computes.
   */
  lemma GridTrace(f: Complex -> Complex, fprime: Complex -> Complex, abs: Complex -> real,
                  n: nat, xs: seq<real>, ys: seq<real>)
    returns (states: seq<seq<Solution<Complex>>>, indices: seq<nat>)
    requires |xs| == n && |ys| == n
    ensures |indices| == n * n && |states| == |indices| + 1 && states[0] == []
    ensures forall ix :: 0 <= ix < n ==> ColumnTraces(f, fprime, abs, n, xs, ys, ix, states, indices)
    ensures states[n * n] == RootIndices(Close(abs), Solutions(f, fprime, abs, n, xs, ys)).0
    ensures indices == RootIndices(Close(abs), Solutions(f, fprime, abs, n, xs, ys)).1
    ensures forall t :: 0 <= t < n * n ==> indices[t] < |states[n * n]|
  {
    var sols := Solutions(f, fprime, abs, n, xs, ys);
    states, indices := TraceOf(Close(abs), sols);
    forall ix | 0 <= ix < n ensures ColumnTraces(f, fprime, abs, n, xs, ys, ix, states, indices) {
      ColumnOfTrace(f, fprime, abs, n, xs, ys, ix, sols, states, indices);
    }
    TracesRootIndices(Close(abs), sols, states, indices);
    RootIndicesShape(Close(abs), sols);
  }

  /**
   * One pass of newton_fractal's inner loop: every cell of column ix is
   * solved, its result registered, and the returned index written to m;
   * the other columns are untouched.
   */
  method FillColumn(registry: Registry<Complex>, m: array2<int>,
                    f: Complex -> Complex, fprime: Complex -> Complex, abs: Complex -> real,
                    n: nat, xs: seq<real>, ys: seq<real>, ix: nat, ghost start: nat,
                    ghost states: seq<seq<Solution<Complex>>>, ghost indices: seq<nat>)
    requires |xs| == n && |ys| == n && ix < n && m.Length0 == n && m.Length1 == n
    requires start == ix * n && ColumnTraces(f, fprime, abs, n, xs, ys, ix, states, indices)
    requires registry.close == Close(abs) && registry.roots == states[start]
    modifies registry, m
    ensures registry.roots == states[start + n]
    ensures forall jy :: 0 <= jy < n ==> m[jy, ix] == indices[CellIndex(n, ix, jy)]
    ensures forall jx, jy :: 0 <= jx < n && 0 <= jy < n && jx != ix ==> m[jy, jx] == old(m[jy, jx])
  {
    var iy := 0;
    while iy < n
      invariant 0 <= iy <= n
      invariant registry.roots == states[start + iy]
      invariant forall jy :: 0 <= jy < iy ==> m[jy, ix] == indices[CellIndex(n, ix, jy)]
      invariant forall jx, jy :: 0 <= jx < n && 0 <= jy < n && jx != ix ==> m[jy, jx] == old(m[jy, jx])
    {
      ghost var t := CellIndex(n, ix, iy);
      FillCell(registry, m, f, fprime, abs, n, xs, ys, ix, iy, states[t], states[t + 1], indices[t]);
      iy := iy + 1;
    }
  }

  /**
   * One cell of the traversal: solve from xs[ix] + i ys[iy], register the
   * result with get_root_index and store its index in m[iy, ix].
   */
  method FillCell(registry: Registry<Complex>, m: array2<int>,
                  f: Complex -> Complex, fprime: Complex -> Complex, abs: Complex -> real,
                  n: nat, xs: seq<real>, ys: seq<real>, ix: nat, iy: nat,
                  ghost before: seq<Solution<Complex>>, ghost after: seq<Solution<Complex>>, ghost index: nat)
    requires |xs| == n && |ys| == n && ix < n && iy < n && m.Length0 == n && m.Length1 == n
    requires (after, index)
             == Insert(Close(abs), before,
                       Solve(ComplexArith(abs), f, fprime, Complex(xs[ix], ys[iy]), EPSILON, MAX_ITERATIONS))
    requires registry.close == Close(abs) && registry.roots == before
    modifies registry, m
    ensures registry.roots == after && m[iy, ix] == index
    ensures forall jx, jy :: 0 <= jx < n && 0 <= jy < n && (jx != ix || jy != iy) ==> m[jy, jx] == old(m[jy, jx])
  {
    var z0 := Complex(xs[ix], ys[iy]);
    var r, _ := NewtonsMethod(ComplexArith(abs), f, fprime, z0, EPSILON, MAX_ITERATIONS);
    // The source registers r only when `r is not False`; a solver result
    // (a root or NaN) never is False, so every result is registered.
    var ir := registry.GetRootIndex(r);
    m[iy, ix] := ir;
  }

  /**
   * newton_fractal without the plotting: fills the n×n matrix m and the root
   * registry. m[iy, ix] is the registry index of the solver's result from
   * xs[ix] + i ys[iy], the registry is the one get_root_index builds over the
   * traversal, and every cell holds a valid registry index.
   */
  method NewtonFractal(f: Complex -> Complex, fprime: Complex -> Complex, abs: Complex -> real,
                       n: nat, xs: seq<real>, ys: seq<real>)
    returns (m: array2<int>, roots: seq<Solution<Complex>>)
    requires |xs| == n && |ys| == n
    ensures fresh(m) && m.Length0 == n && m.Length1 == n
    ensures roots == RootIndices(Close(abs), Solutions(f, fprime, abs, n, xs, ys)).0
    ensures forall ix, iy :: 0 <= ix < n && 0 <= iy < n ==>
              m[iy, ix] == RootIndices(Close(abs), Solutions(f, fprime, abs, n, xs, ys)).1[CellIndex(n, ix, iy)]
    ensures forall ix, iy :: 0 <= ix < n && 0 <= iy < n ==> 0 <= m[iy, ix] < |roots|
    ensures |roots| <= n * n
    ensures Distinct(Close(abs), roots)
  {
    var registry := new Registry(Close(abs));
    m := new int[n, n]((_, _) => 0);
    ghost var states, indices := GridTrace(f, fprime, abs, n, xs, ys);
    var ix := 0;
    ghost var done := 0;
    while ix < n
      invariant 0 <= ix <= n && done == ix * n && done < |states|
      invariant registry.close == Close(abs) && registry.roots == states[done]
      invariant forall jx, jy :: 0 <= jx < ix && 0 <= jy < n ==> m[jy, jx] == indices[CellIndex(n, jx, jy)]
    {
      FillColumn(registry, m, f, fprime, abs, n, xs, ys, ix, done, states, indices);
      assert done + n == (ix + 1) * n;
      ix, done := ix + 1, done + n;
    }
    roots := registry.roots;
    RootIndicesShape(Close(abs), Solutions(f, fprime, abs, n, xs, ys));
  }

  /**
   * Every grid point whose solve fails gets a registry index that no other
   * cell holds: the NaN it is registered as matches nothing.
   */
  lemma FailedCellHasOwnIndex(f: Complex -> Complex, fprime: Complex -> Complex, abs: Complex -> real,
                              n: nat, xs: seq<real>, ys: seq<real>, ix: nat, iy: nat, jx: nat, jy: nat)
    requires |xs| == n && |ys| == n && ix < n && iy < n && jx < n && jy < n
    requires (ix, iy) != (jx, jy)
    requires Solve(ComplexArith(abs), f, fprime, Complex(xs[ix], ys[iy]), EPSILON, MAX_ITERATIONS) == Fail
    ensures var indices := RootIndices(Close(abs), Solutions(f, fprime, abs, n, xs, ys)).1;
            indices[CellIndex(n, ix, iy)] != indices[CellIndex(n, jx, jy)]
  {
    SolutionsSolveCells(f, fprime, abs, n, xs, ys);
    if CellIndex(n, ix, iy) == CellIndex(n, jx, jy) {
      CellIndexInjective(n, ix, iy, jx, jy);
    }
    FailGetsOwnIndex(Close(abs), Solutions(f, fprime, abs, n, xs, ys), CellIndex(n, ix, iy), CellIndex(n, jx, jy));
  }
}
