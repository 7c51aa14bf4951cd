# Newton's fractal, modelled in Dafny

A model of the computational core of NewtonsFractal. The repository has two parts.

- `newtons_method` is a Newton–Raphson solver with a bounded loop. It returns the first iterate `xn` with `abs(f(xn)) < epsilon`. It returns NaN when the derivative is zero or when `max_iterations` passes are used up.
- `newton_fractal` fills an n×n matrix. For every grid point `z0 = x + iy` it solves from `z0`. It then looks the result up in a list of roots found so far (`get_root_index`: first entry `np.isclose` to it, or append it). The list index goes into `m[iy, ix]`. The plotting that follows is not modelled.

The project has four modules:

- `Newton` (newton.dfy) has the solver.
  - The solver is generic over its scalar type. An `Arith<S>` record supplies the zero, subtraction, division and the absolute value.
  - `f` and `df` are function parameters.
  - The result is `Root(x)` or `Fail`. `Fail` stands for the NaN the source returns.
  - `NewtonsMethod` is the loop. `ExitFrom` is a reference definition of where the loop stops, and `Solve` is the result as a function of the inputs.
- `Complex` (complex.dfy) has complex numbers over exact reals, with the update's subtraction and division.
- `RootRegistry` (registry.dfy) has the registry.
  - `Insert` is one `get_root_index` call as a function.
  - `RootIndices` is the registry and indices after a whole sequence of calls.
  - `Registry` is a class whose field `roots` is updated in place by `GetRootIndex`.
  - Closeness is a parameter `close`, always applied as `close(roots[i], r)`.
  - A `Fail` entry matches nothing, itself included, as NaN does under `np.isclose`.
- `Fractal` (fractal.dfy) has the grid fill.
  - `NewtonFractal` fills an `array2<int>` in nested loops: `FillColumn` for the inner loop, `FillCell` for one grid point.
  - It is proved equal, cell by cell, to `RootIndices` over the solver's results in traversal order (x outer, y inner).
  - The constants are the ones the grid fill uses: epsilon 1e-6, 50 iterations, and `atol` 1e-8 with numpy's default `rtol` 1e-5.

Behaviour of the code that the model keeps:

- The tolerance check comes before the derivative check. So f(x) = x³ started at 0 returns the root 0 instead of failing at the stationary point (`Newton.CubeAtZeroConverges`).
- The guard `r is not False` always passes, since the solver signals failure with NaN and never returns False. So every failed solve is registered (see Findings).
- A zero derivative and an exhausted budget both return the same NaN. The model returns the same `Fail` for both (`Newton.FailCauses`).
- `np.isclose` applies its default relative tolerance `rtol` 1e-5, scaled by its second argument, on top of `atol` 1e-8.

## Model

| member | source | states |
|---|---|---|
| Newton.NewtonsMethod | newtons_method.py:1-29 | the loop returns exactly `Solve` of its inputs (the first iterate meeting the tolerance, else Fail at a zero derivative or an exhausted budget); a returned root has `abs(f(x)) < epsilon`; f is evaluated `FEvals` times, at most `max(max_iterations, 0)` |
| Newton.ExitFrom | newtons_method.py:6-29 | where the loop, at pass k, stops: a stop with a root or at a zero derivative happens at some pass from k to max_iterations - 1, at an iterate that meets the tolerance (root) or has a zero derivative (stationary) |
| Newton.Solve | newtons_method.py:1-29 | the solver's result: a returned value satisfies `abs(f(x)) < epsilon`; with max_iterations <= 0 the result is Fail, even at an exact root |
| Newton.ConvergedFrom | newtons_method.py:6-16 | the loop, from pass k0, stops with a root at pass k iff k0 <= k < max_iterations, iterate k meets the tolerance and every pass in between went on |
| Newton.StationaryFrom | newtons_method.py:18-23 | the loop stops at a zero derivative at pass k iff k is in budget, iterate k misses the tolerance with a zero derivative, and every earlier pass went on |
| Newton.ExhaustedFrom | newtons_method.py:6-29 | the loop runs out of budget iff every remaining pass went on |
| Newton.RootIsIterate | newtons_method.py:19-26 | a returned value is the iterate x_k for some k < max_iterations, and every earlier iterate missed the tolerance with a non-zero derivative |
| Newton.FailCauses | newtons_method.py:22-29 | the result is Fail iff the loop met a zero derivative or every pass went on; both give the same sentinel |
| Newton.ConvergedStartReturned | newtons_method.py:15-16 | if max_iterations >= 1 and x0 meets the tolerance, x0 is returned unchanged |
| Newton.StationaryStartFails | newtons_method.py:19-23 | with a budget of at least one, if x0 misses the tolerance with a zero derivative, the solver fails at pass 0 after one evaluation of f |
| Newton.FEvalsBound | newtons_method.py:6-8 | f is evaluated at most max_iterations times, and never when max_iterations <= 0 |
| Newton.LastIterateIgnored | newtons_method.py:26-29 | when every pass goes on, the solver fails after exactly max_iterations evaluations, whatever the last update produced |
| Newton.RootOnLastUpdateFails | newtons_method.py:26-29 | f(x) = x - 1 from 0 with one pass: the update reaches the root 1, yet the result is Fail |
| Newton.CubeAtZeroConverges | newtons_method.py:15-23 | f(x) = x³ from 0 returns the root 0: the tolerance is checked on f before the derivative is looked at |
| Newton.IterateShift | newtons_method.py:3-26 | the iterates are the update applied repeatedly: iterate k + 1 from x0 is iterate k from the first update |
| Newton.ExitShift | newtons_method.py:6-26 | the loop from pass k + 1 stops as the loop started at the first update stops from pass k, with one pass fewer |
| Newton.SolveRestarts | newtons_method.py:6-26 | when x0 misses the tolerance with a non-zero derivative, the result equals that of a fresh solve from the first update with one pass fewer |
| Newton.RealStepSolvesTangent | newtons_method.py:26 | over the reals, the update x1 = x0 - f(x0)/df(x0) satisfies (x0 - x1) * df(x0) = f(x0) when df(x0) is not zero |
| Complex.Div | newtons_method.py:26 | complex division: for a non-zero divisor, the quotient times the divisor is the dividend |
| RootRegistry.Matches | newton_complex_fract_plot.py:14 | the NaN sentinel is close to nothing, itself included; a match between two roots means `close(roots[i], r)` holds |
| RootRegistry.Lookup | newton_complex_fract_plot.py:14 | the smallest index whose entry matches r, or the length when none does |
| RootRegistry.Insert | newton_complex_fract_plot.py:12-17 | a match leaves the registry unchanged and returns the first matching index; otherwise r is appended and the old length returned; the registry only grows at its end and the index is in range |
| RootRegistry.InsertKeepsDistinct | newton_complex_fract_plot.py:14-16 | a call keeps the invariant that no entry matches a later one (argument order of `np.isclose(roots, r)`) |
| RootRegistry.InsertIdempotent | newton_complex_fract_plot.py:14-17 | a second call with a value close to itself returns the same index and leaves the registry as it is |
| RootRegistry.InsertFailAppends | newton_complex_fract_plot.py:15-17 | the failure sentinel is always appended under the old length |
| RootRegistry.RepeatedFailAppends | newton_complex_fract_plot.py:14-17 | two failures in a row are both appended: idempotence fails for NaN |
| RootRegistry.RootIndices | newton_complex_fract_plot.py:26-34 | a sequence of calls hands out one index per call and the registry has at most one entry per call |
| RootRegistry.RootIndicesShape | newton_complex_fract_plot.py:12-17 | every index handed out is valid for the final registry, and the final registry keeps the invariant |
| RootRegistry.RootIndicesPrefix | newton_complex_fract_plot.py:12-17 | the registry after a prefix of the calls is a prefix of the final one, and earlier indices are never revised |
| RootRegistry.TracesRootIndices | newton_complex_fract_plot.py:26-34 | a call-by-call trace of registry states and indices ends in what RootIndices computes |
| RootRegistry.TracesGrow | newton_complex_fract_plot.py:16 | along a trace, each registry state is a prefix of every later one |
| RootRegistry.TraceOf | newton_complex_fract_plot.py:26-34 | every sequence of calls has such a trace |
| RootRegistry.IndexMatchesValue | newton_complex_fract_plot.py:14-17 | each call's index names either the very value passed or an entry close to it |
| RootRegistry.DiscoveryOrder | newton_complex_fract_plot.py:26-34 | registry order is discovery order: entry k is the value of the first call handed k, and every earlier call got a smaller index |
| RootRegistry.FailGetsOwnIndex | newton_complex_fract_plot.py:31-32 | a failed solve gets an index no other call receives |
| RootRegistry.RootIndicesFailStep | newton_complex_fract_plot.py:31-32 | as written, a failed solve appends NaN to the registry and takes the next index |
| RootRegistry.ConvergedIndices | newton_complex_fract_plot.py:30-34 | the corrected fold, with failures skipped: one index per call and at most one entry per call |
| RootRegistry.ConvergedIndicesShape | newton_complex_fract_plot.py:30-34 | with failures skipped, the registry holds only roots and keeps the invariant; failed cells keep 0; every converged cell gets a valid index |
| RootRegistry.ConvergedIndicesFailStep | newton_complex_fract_plot.py:30-31 | with failures skipped, a failed solve leaves the registry unchanged and its cell at 0 |
| RootRegistry.ConvergedAgreesWithoutFailures | newton_complex_fract_plot.py:31 | when no solve fails, the corrected fold equals the one as written |
| RootRegistry.FailuresRegistered | newton_complex_fract_plot.py:31-32 | two failed solves: as written the registry is [NaN, NaN] with indices 0 and 1; corrected, it is empty and both cells are 0 |
| RootRegistry.Registry.constructor | newton_complex_fract_plot.py:8 | the registry starts empty |
| RootRegistry.Registry.GetRootIndex | newton_complex_fract_plot.py:12-17 | the in-place call updates `roots` and returns the index exactly as Insert does, and keeps the invariant |
| Fractal.IsClose | newton_complex_fract_plot.py:14 | closeness is `abs(a - b) <= 1e-8 + 1e-5 * abs(b)`: values within `atol` are always close, and against a second argument of modulus zero only `atol` applies |
| Fractal.RegistrySeparated | newton_complex_fract_plot.py:14-16 | two roots in the registry are never `np.isclose(roots, r)`-close: the later one scales the tolerance, so their distance exceeds 1e-8 + 1e-5 times its modulus |
| Fractal.StepSolvesTangent | newtons_method.py:26 | for complex numbers, the update x1 = x0 - f(x0)/f'(x0) satisfies (x0 - x1) * f'(x0) = f(x0) when f'(x0) has a non-zero modulus |
| Fractal.IsCloseReflexive | newton_complex_fract_plot.py:14 | a value is close to itself under a modulus that is zero at zero and non-negative |
| Fractal.IsCloseAsymmetric | newton_complex_fract_plot.py:14 | the closeness is not symmetric: 1 is close to 1 + d but 1 + d is not close to 1 |
| Fractal.SmallCloseToLarge | newton_complex_fract_plot.py:14 | 1 is close to 1 + d for d = 0.000010010005, because the tolerance is scaled by the modulus of the second argument 1 + d |
| Fractal.LargeNotCloseToSmall | newton_complex_fract_plot.py:14 | 1 + d is not close to 1, because the tolerance is scaled by the modulus 1 of the second argument |
| Fractal.CellIndex | newton_complex_fract_plot.py:26-27 | the traversal position of cell (ix, iy) is below n*n |
| Fractal.CellDivMod | newton_complex_fract_plot.py:26-27 | position ix*n + iy decodes back to the cell (ix, iy) |
| Fractal.CellIndexInjective | newton_complex_fract_plot.py:26-27 | distinct cells have distinct traversal positions, so each cell is visited once |
| Fractal.Solutions | newton_complex_fract_plot.py:26-29 | one solver result per grid cell, n*n in all |
| Fractal.SolutionsSolveCells | newton_complex_fract_plot.py:26-29 | the result at the position of (ix, iy) is the solve from xs[ix] + i ys[iy] with epsilon 1e-6 and 50 iterations |
| Fractal.ColumnOfTrace | newton_complex_fract_plot.py:27-34 | the trace of the whole traversal restricted to column ix is the inner loop's trace for that column |
| Fractal.GridTrace | newton_complex_fract_plot.py:26-34 | a trace exists that covers every column and ends in RootIndices of the traversal, with all indices in range |
| Fractal.FillCell | newton_complex_fract_plot.py:28-34 | one grid point: solves, registers the result and writes its index to m[iy, ix], leaving every other cell as it was |
| Fractal.FillColumn | newton_complex_fract_plot.py:27-34 | the inner loop: column ix's cells get the traced indices in turn, and the other columns are untouched |
| Fractal.NewtonFractal | newton_complex_fract_plot.py:8-34 | m is n×n; each cell holds the RootIndices index of its own solve; the registry is RootIndices' registry; every cell is a valid registry index; the registry has at most n*n entries and no entry matches a later one |
| Fractal.FailedCellHasOwnIndex | newton_complex_fract_plot.py:29-34 | a grid point whose solve fails holds an index no other cell holds |

## Left out

- Plotting (`plt.imshow`, `plt.axis`, `plt.show`) and the matplotlib imports: a user-interface library, with no effect on the matrix.
- The demo code at module level in both files (the example polynomials, the calls, the `print`): hard-coded examples and I/O.
- IEEE-754 floats: the arithmetic is exact over `real`. Rounding, overflow, and the propagation of Inf and NaN through the update are not modelled. Whether Newton's method converges is not modelled either. NaN appears only as the `Fail` result, which matches nothing.
- `np.linspace`: the grid coordinates are given as sequences `xs`, `ys` of length n.
- The complex modulus needs a square root. It is a parameter `abs` of the grid fill, and the registry's closeness is computed from it in the shape `abs(a - b) <= 1e-8 + 1e-5 * abs(b)`. The other internals of `np.isclose` are not modelled.
- Complex.Div: the solver never divides by a zero derivative (newtons_method.py:22 returns first), so the result for a zero divisor is arbitrary; the model returns 0.
- Fractal.NewtonFractal: `n` is a natural number; a negative `n`, which numpy would reject, is not modelled. Cells of `m` are integers, where numpy stores the index as a float.
- Fractal.NewtonFractal: the grid fill keeps the code's behaviour (every result is registered). The corrected behaviour of the Findings row is given as the function `RootRegistry.ConvergedIndices` with its lemmas, not as a second grid-filling method.
- The default arguments `n=100` and `domain=(-1, 1, -1, 1)` of `newton_fractal`: the model takes the grid size and coordinates as parameters.

## Findings

| source | as written | input that shows it | evidently intended | confidence | as-written member | corrected member |
|---|---|---|---|---|---|---|
| newton_complex_fract_plot.py:31 | `if r is not False` guards the registration, but the solver signals failure with NaN and never returns False (newtons_method.py:23,29), so every failed solve is appended as a new NaN entry and its cell gets a fresh index | two grid points whose solves both fail: the registry becomes [NaN, NaN] and the cells get indices 0 and 1 | failed solves are skipped, as the comment beside the guard says, leaving the registry unchanged and the cell at its initial 0 | medium, not executed | RootRegistry.FailuresRegistered | RootRegistry.ConvergedIndicesShape |
