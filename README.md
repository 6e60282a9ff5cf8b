# Fibonacci search, modelled in Dafny

This project models the solver `solver_fibonacci_search` of the Streamlit
application `app.py`. The solver minimises a one-dimensional function on an
interval `[a, b]` with a tolerance `tol`. It has three parts:

- It builds the Fibonacci table `fibs = [1, 1, 2, 3, ...]` until the last
  entry exceeds `(b - a) / tol`, and sets `n = len(fibs) - 1`.
- It places two probes at the ratios `F(n-2)/F(n)` and `F(n-1)/F(n)`. It then
  runs the iterations `k = 1 .. n-1`. Each iteration records a history row,
  compares `f(x1) < f(x2)`, replaces one bound by a probe, carries the other
  probe over, and places one new probe at a Fibonacci ratio.
- It returns the better of the two final probes, the history, `n` and the
  converged interval.

The function being minimised is an arbitrary total `f: real -> real`. All
arithmetic is exact (`real`).

Files:

- `fibonacci.dfy`, module `Fibonacci`:
  - the Fibonacci numbers, with the solver's convention `F(0) = F(1) = 1`;
  - the table-building loop `BuildTable`.
- `fibonacci_search.dfy`, module `FibonacciSearch`:
  - the history row `Record` and the result types;
  - the probe placement `PlaceProbe`;
  - the set-up and iteration loop `Search`;
  - the whole solver `Solve`, with its two error paths;
  - the lemmas that carry the loop invariant.
- `trace_properties.dfy`, module `TraceProperties`: what a complete history
  says about the run. This covers the shape of every row, the shrinking of the
  interval, and the uniqueness of the history.

The proofs measure every length in one unit, `u = (b0 - a0) / F(n)`, which is
the final width. Entering iteration `k`, let `m = n - k`. Then:

- the interval is `F(m+1)` units wide;
- the probes sit `F(m-1)` and `F(m)` units right of its left end;
- both branches keep this shape, by the recurrence `F(m+1) = F(m) + F(m-1)`.

The predicate `Placed` states this. `ValidTrace` states it for a whole history,
together with the branch rule `Follows` and the function values `Evaluated`.

Two behaviours of the code are worth knowing, and the model proves both:

- At the last iteration (`k = n-1`) the two probes coincide at the midpoint
  (`LastRowTies`, `RowOrder`). So `x1 < x2` holds only for `k < n-1`, and at
  `k = n-1` the probes are equal.
- Because the last probes tie, `f(x1) < f(x2)` is false there, and the tie rule
  keeps `[midpoint, b]`. The `f1 < f2` branch at `k = n-1` would read
  `fibs[-1]`, which Python wraps to `fibs[n]`, and would put the new probe
  outside the interval (`WrappedProbeOutside`). In exact arithmetic that branch
  is never taken there (`LeftSmallerNotLast`). Hence the minimiser lies in
  `[a0, b0]` (`Solve`).

  This rests on exact arithmetic. With floating point the carried probe may
  differ from the freshly computed one in the last bits, so the wrapped index
  can be reached. `PyIndex` models the wrap so that the branch is written as
  the code writes it.

Two Python errors are modelled as results:

- `DivisionByZero`: a zero tolerance fails at the table bound.
- `EmptyHistory`: when `(b - a) / tol < 1`, the table stops at `n = 1` and no
  iteration runs. The report line then indexes the empty history and fails.
  This case also covers a negative tolerance, and `a >= b` with a positive
  tolerance.

## Model

| member | source | states |
|---|---|---|
| `Fibonacci.Fib` | app.py:86-91 | every table entry is positive and at least its index |
| `Fibonacci.BuildTable` | app.py:86-93 | the table holds the Fibonacci numbers `F(0..n)`. `F(n)` exceeds the bound and every `F(i)` for `1 <= i < n` does not, so `n` is the least such index; the loop ends for any bound |
| `Fibonacci.SingleEntryTable` | app.py:90-93 | the table stops at `n = 1` exactly when the bound `(b - a) / tol` is below 1 |
| `Fibonacci.TableSizeUnique` | app.py:90-93 | the stopping condition determines `n` uniquely |
| `FibonacciSearch.PlaceProbe` | app.py:98-99 | a probe at the ratio `p / q` of an interval `q` units wide lies `p` units right of its left end |
| `FibonacciSearch.ShareInUnits` | app.py:128 | the share `p / q` of a length of `q` units is `p` units |
| `FibonacciSearch.InitialPlaced` | app.py:93-99 | the opening row on `[a0, b0]`, with probes at `fibs[n-2]/fibs[n]` and `fibs[n-1]/fibs[n]`, is `F(n)` units wide with probes at `F(n-2)` and `F(n-1)` units |
| `FibonacciSearch.ShrinkRight` | app.py:121-129 | the `f1 < f2` branch (`b := x2`, `x2 := x1`, new `x1` at `F(m-1)` units) keeps the placement for the next iteration |
| `FibonacciSearch.LeftCutWidth` | app.py:131 | cutting the interval at `x1` leaves `F(m)` units |
| `FibonacciSearch.ShrinkLeft` | app.py:130-137 | the other branch (`a := x1`, `x1 := x2`, new `x2` at `F(m)` units) keeps the placement; after the last iteration the probes sit on the two ends and the width is one unit |
| `FibonacciSearch.LastRowTies` | app.py:128-136 | entering iteration `n-1` both probes sit at the midpoint of the interval |
| `FibonacciSearch.LeftSmallerNotLast` | app.py:121-128 | `f1 < f2` cannot hold at iteration `n-1`, so the index `n-k-2` is never negative when it is read |
| `FibonacciSearch.ExtendTrace` | app.py:109-118 | appending a placed, evaluated row that follows the last one extends a valid history prefix |
| `FibonacciSearch.StepRight` | app.py:108-129 | one iteration of the `f1 < f2` branch records the row and re-establishes the loop state for `k + 1`, which is below `n` |
| `FibonacciSearch.StepLeft` | app.py:130-137 | one iteration of the other branch records the row and re-establishes the loop state for `k + 1` |
| `FibonacciSearch.Converged` | app.py:130-137 | after the last iteration the history has all `n-1` rows. The final interval is `[midpoint, b]` of the last row, its probes are its two ends, its width is `(b0 - a0) / F(n)`, and it lies in `[a0, b0]` |
| `FibonacciSearch.FinalWidthBelowTolerance` | app.py:90 | since `F(n) > (b0 - a0) / tol`, the final width `(b0 - a0) / F(n)` is positive and below `tol` |
| `FibonacciSearch.Search` | app.py:94-137 | places the opening probes and runs iterations `1 .. n-1`. It returns exactly `n-1` rows forming a valid history prefix, and a final state that follows the last row and is settled |
| `FibonacciSearch.Solve` | app.py:68-164 | `DivisionByZero` exactly when `tol = 0`; `EmptyHistory` exactly when `(b0 - a0) / tol < 1`. Otherwise `n >= 2` is the table size, the history is the complete valid trace of `n-1` rows, and the converged interval is the upper half of the last row, of width `(b0 - a0) / F(n) < tol`. The result is `x1` when `f(x1) < f(x2)` and `x2` otherwise (ties give `x2`), its value is the smaller of the two, and it lies in `[a0, b0]` |
| `TraceProperties.RowOrder` | app.py:108-118 | row `j` is iteration `j + 1`, and `a0 <= a < x1 <= x2 < b <= b0`, with `x1 = x2` exactly at iteration `n-1` |
| `TraceProperties.PlacedShares` | app.py:98-99 | a placed row has its probes at the shares `F(m-1)/F(m+1)` and `F(m)/F(m+1)` of its interval, and its width is the share `F(m+1)/F(n)` of `b0 - a0` |
| `TraceProperties.RowRatios` | app.py:117 | every recorded row has the ratio form of its probes, and width `b - a = (b0 - a0) * F(n-k+1) / F(n)` |
| `TraceProperties.WidthsDecrease` | app.py:117 | recorded widths strictly decrease from row to row |
| `TraceProperties.WidthsIgnoreObjective` | app.py:117 | two runs over the same interval and table record the same widths, whatever the two functions are |
| `TraceProperties.OneBoundMoves` | app.py:121-133 | each iteration moves exactly one bound inward: `b` when `f1 < f2`, `a` otherwise (ties included) |
| `TraceProperties.SameBoundsSameRow` | app.py:109-118 | a placed, evaluated row is determined by its iteration number and its bounds |
| `TraceProperties.RowsAgree` | app.py:108-137 | two valid histories of the same run agree row by row |
| `TraceProperties.TraceUnique` | app.py:108-137 | the history is determined by `f`, `[a0, b0]` and `n`, so the one `Solve` returns is the only valid one |
| `TraceProperties.WrappedProbeOutside` | app.py:128 | at iteration `n-1`, index `-1` wraps to `fibs[n] = F(n)`, and a probe placed with it lies beyond `b` |

## Left out

- The expression sandbox (app.py:75-82) is left out. The function is an abstract total `f: real -> real`. A failed evaluation returning `None`, and the `TypeError` it raises at the comparisons, are not modelled.
- Floating point is not modelled. Rounding in the ratios, NaN values (every comparison false) and infinities are replaced by exact `real` arithmetic. The claim that the minimiser lies in `[a0, b0]` holds only for exact arithmetic.
- Solve: the model excludes a reversed interval (`a > b`) with a negative tolerance whose bound `(b - a) / tol` is at least 1. The code would run a mirrored search there, and the interface rejects `a >= b` before calling the solver (app.py:274). Every other reversed or empty interval is modelled: it ends in `EmptyHistory` or `DivisionByZero`.
- The report string and its `:.8f` formatting (app.py:147-162) are left out, as is the `pandas.DataFrame` wrapping of the history (app.py:164). `Solve` returns the report's fields as a record: the best point and value, the history rows, `n`, and the converged interval.
- The rest of the application is left out: the Streamlit page, navigation and session state, the sidebar, plotting and file downloads (app.py:1-65 and app.py:167-369). None of it is part of the algorithm.
- `Search` and `PlaceProbe` are split out of the single Python function so that each proof stays small. `Search` holds the set-up and loop (app.py:94-137). `PlaceProbe` holds the probe formula used at app.py:98-99, 128 and 136. The statements and their order are those of the source.
- The `break` guards `n - k - 1 < 0` (app.py:126 and app.py:134) are kept as written. Inside `range(1, n)` they cannot fire.
