/**
 * Fibonacci search for the minimiser of a one-dimensional function on an
 * interval [a0, b0]. The table of Fibonacci numbers fixes the number of
 * iterations in advance; each iteration compares the function at two probes,
 * replaces one bound of the interval by a probe, carries the other probe over
 * and places one new probe by a Fibonacci ratio. Arithmetic is exact (`real`).
 *
 * Lengths are measured in the unit u = (b0 - a0) / F(n), the width the search
 * ends with: entering iteration k, with m = n - k, the interval is F(m + 1)
 * units wide and the probes sit F(m - 1) and F(m) units right of its left end.
 */
module FibonacciSearch {
  import opened Fibonacci

  /** One row of the iteration history, taken before that iteration's reduction. */
  datatype Record = Record(iter: nat, a: real, b: real, x1: real, x2: real, fx1: real, fx2: real, width: real)

  /** What a successful run hands back: best point and value, history, n, and the converged interval. */
  datatype SearchResult = SearchResult(
    minimizer: real, minimum: real, history: seq<Record>, iterations: nat, finalA: real, finalB: real)

  /** Division by a zero tolerance, or an empty history read for the report. */
  datatype SolverError = DivisionByZero | EmptyHistory

  datatype Result<T> = Ok(value: T) | Err(error: SolverError)

  /** Python's `s[i]`: a negative `i` counts from the end of `s`. */
  function PyIndex(s: seq<nat>, i: int): nat
    requires -|s| <= i < |s|
  {
    if i < 0 then s[|s| + i] else s[i]
  }

  /** The history row for iteration k with the given local state. */
  function Snapshot(k: nat, a: real, b: real, x1: real, x2: real, f1: real, f2: real): Record
  {
    Record(k, a, b, x1, x2, f1, f2, b - a)
  }

  /** The final interval width (b0 - a0) / F(n). */
  function Unit(n: nat, a0: real, b0: real): real
  {
    (b0 - a0) / Fib(n) as real
  }

  /** The share p / q of a length w. */
  function Share(p: nat, q: nat, w: real): real
    requires 0 < q
  {
    (p as real / q as real) * w
  }

  /** k lengths u laid end to end, that is k * u. */
  function Times(k: nat, u: real): real
  {
    if k == 0 then 0.0 else Times(k - 1, u) + u
  }

  /**
   * Row r of iteration k, with m = n - k, has width F(m + 1) units u, probes
   * F(m - 1) and F(m) units right of a, and lies in [a0, b0].
   */
  ghost predicate Placed(r: Record, n: nat, u: real, a0: real, b0: real)
  {
    && 1 <= r.iter < n
    && var m := n - r.iter;
    && r.width == r.b - r.a == Times(Fib(m + 1), u)
    && r.x1 == r.a + Times(Fib(m - 1), u)
    && r.x2 == r.a + Times(Fib(m), u)
    && a0 <= r.a && r.b <= b0
  }

  /** The state after the last iteration: width u, probes at the two ends. */
  ghost predicate Settled(r: Record, n: nat, u: real, a0: real, b0: real)
  {
    && r.iter == n
    && r.width == r.b - r.a == u
    && r.x1 == r.a && r.x2 == r.b
    && a0 <= r.a && r.b <= b0
  }

  /** The recorded values are f at the recorded probes. */
  ghost predicate Evaluated(r: Record, f: real -> real)
  {
    r.fx1 == f(r.x1) && r.fx2 == f(r.x2)
  }

  /**
   * s is the state after reducing r: if f(x1) < f(x2) the interval becomes
   * [a, x2] and x1 becomes the right probe; otherwise (ties included) it
   * becomes [x1, b] and x2 becomes the left probe.
   */
  ghost predicate Follows(r: Record, s: Record)
  {
    && s.iter == r.iter + 1
    && if r.fx1 < r.fx2 then
         s.a == r.a && s.b == r.x2 && s.x2 == r.x1 && s.fx2 == r.fx1
       else
         s.a == r.x1 && s.b == r.b && s.x1 == r.x2 && s.fx1 == r.fx2
  }

  /**
   * h is the start of a run's history: it opens on [a0, b0], its rows are
   * numbered from 1, placed and evaluated, and each follows from the one before.
   */
  ghost predicate TracePrefix(h: seq<Record>, n: nat, u: real, f: real -> real, a0: real, b0: real)
  {
    && (|h| > 0 ==> h[0].a == a0 && h[0].b == b0)
    && (forall j | 0 <= j < |h| :: h[j].iter == j + 1 && Placed(h[j], n, u, a0, b0) && Evaluated(h[j], f))
    && (forall j | 0 <= j < |h| - 1 :: Follows(h[j], h[j + 1]))
  }

  /** The whole history of a run over [a0, b0] with table size n: n - 1 rows. */
  ghost predicate ValidTrace(h: seq<Record>, n: nat, f: real -> real, a0: real, b0: real)
  {
    |h| + 1 == n && TracePrefix(h, n, Unit(n, a0, b0), f, a0, b0)
  }

  /**
   * The solver's state entering iteration cur.iter, with h the rows recorded
   * so far: cur is evaluated, follows the last row (or is the opening
   * interval), and is placed; once all iterations are done it is settled.
   */
  ghost predicate LoopState(h: seq<Record>, cur: Record, n: nat, u: real, f: real -> real, a0: real, b0: real)
  {
    && |h| + 1 == cur.iter <= n
    && TracePrefix(h, n, u, f, a0, b0)
    && Evaluated(cur, f)
    && (if |h| == 0 then cur.a == a0 && cur.b == b0 else Follows(h[|h| - 1], cur))
    && (cur.iter < n ==> Placed(cur, n, u, a0, b0))
    && (cur.iter == n ==> Settled(cur, n, u, a0, b0))
  }

  /** The unit is positive and F(n) of it make up [a0, b0]. */
  lemma UnitFits(n: nat, a0: real, b0: real)
    requires a0 < b0
    ensures 0.0 < Unit(n, a0, b0) && Times(Fib(n), Unit(n, a0, b0)) == b0 - a0
  {
    var u := Unit(n, a0, b0);
    DivPos(b0 - a0, Fib(n) as real);
    TimesIsProduct(Fib(n), u);
    UnitTimes(b0 - a0, Fib(n) as real);
  }

  /**
   * A probe at the ratio p / q of an interval w = q units wide, starting at
   * a, lies p units right of a.
   */
  method PlaceProbe(a: real, w: real, p: nat, q: nat, ghost u: real) returns (x: real)
    requires 0 < q
    ensures w == Times(q, u) ==> x == a + Times(p, u)
  {
    x := a + Share(p, q, w);
    if w == Times(q, u) {
      ShareInUnits(p, q, w, u);
    }
  }

  /**
   * The first row, on [a0, b0] with probes at the table ratios
   * fibs[n - 2] / fibs[n] and fibs[n - 1] / fibs[n], is placed.
   */
  lemma InitialPlaced(r: Record, fibs: seq<nat>, n: nat, u: real, a0: real, b0: real)
    requires 0.0 < u && 2 <= n && Times(Fib(n), u) == b0 - a0
    requires |fibs| == n + 1 && IsFibTable(fibs)
    requires r.iter == 1 && r.a == a0 && r.b == b0 && r.width == b0 - a0
    requires b0 - a0 == Times(fibs[n], u) ==> r.x1 == a0 + Times(PyIndex(fibs, n - 2), u)
    requires b0 - a0 == Times(fibs[n], u) ==> r.x2 == a0 + Times(fibs[n - 1], u)
    ensures Placed(r, n, u, a0, b0)
  {
    assert fibs[n] == Fib(n);
    assert PyIndex(fibs, n - 2) == Fib(n - 2);
    assert fibs[n - 1] == Fib(n - 1);
  }

  /**
   * The f(x1) < f(x2) branch: keeping [a, x2], moving x1 to the right probe and
   * placing the new left probe F(m - 1) units right of a, for the next
   * iteration's m, keeps the placement.
   */
  lemma ShrinkRight(r: Record, s: Record, n: nat, u: real, a0: real, b0: real)
    requires 0.0 < u && Placed(r, n, u, a0, b0) && r.iter + 1 < n
    requires s.iter == r.iter + 1 && s.a == r.a && s.b == r.x2 && s.x2 == r.x1 && s.width == s.b - s.a
    requires s.x1 == s.a + Times(Fib(n - s.iter - 1), u)
    ensures Placed(s, n, u, a0, b0)
  {
    var m := n - s.iter;
    FibMonotone(m + 1, m + 2);
    TimesMono(Fib(m + 1), Fib(m + 2), u);
  }

  /** Cutting at x1 leaves F(m) units, by the Fibonacci recurrence. */
  lemma LeftCutWidth(r: Record, n: nat, u: real, a0: real, b0: real)
    requires Placed(r, n, u, a0, b0)
    ensures r.b - r.x1 == Times(Fib(n - r.iter), u)
  {
    var m := n - r.iter;
    TimesAdd(Fib(m), Fib(m - 1), u);
  }

  /**
   * The other branch: keeping [x1, b], moving x2 to the left probe and placing
   * the new right probe F(m) units right of the new a, for the next iteration's
   * m, keeps the placement (by the Fibonacci recurrence); after the last
   * iteration the probes sit on the two ends.
   */
  lemma ShrinkLeft(r: Record, s: Record, n: nat, u: real, a0: real, b0: real)
    requires 0.0 < u && Placed(r, n, u, a0, b0)
    requires s.iter == r.iter + 1 && s.a == r.x1 && s.b == r.b && s.x1 == r.x2 && s.width == s.b - s.a
    requires s.x2 == s.a + Times(Fib(n - s.iter), u)
    ensures s.iter < n ==> Placed(s, n, u, a0, b0)
    ensures s.iter == n ==> Settled(s, n, u, a0, b0)
  {
    var m := n - s.iter;
    LeftCutWidth(r, n, u, a0, b0);
    TimesMono(0, Fib(m), u);
    if m >= 1 {
      TimesAdd(Fib(m), Fib(m - 1), u);
    }
  }

  /**
   * Entering the last iteration (m = 1) both probes sit at the midpoint of
   * the interval.
   */
  lemma LastRowTies(r: Record, n: nat, u: real, a0: real, b0: real)
    requires Placed(r, n, u, a0, b0) && r.iter + 1 == n
    ensures r.x1 == r.x2 == (r.a + r.b) / 2.0
  {
    assert Fib(2) == 2;
    TimesIsProduct(2, u);
    TimesIsProduct(1, u);
  }

  /**
   * The f(x1) < f(x2) branch is never taken at the last iteration, where the
   * probes tie; so its index n - k - 2 is never negative.
   */
  lemma LeftSmallerNotLast(r: Record, n: nat, u: real, f: real -> real, a0: real, b0: real)
    requires Placed(r, n, u, a0, b0) && Evaluated(r, f) && r.fx1 < r.fx2
    ensures r.iter + 1 < n
  {
    if r.iter + 1 == n {
      LastRowTies(r, n, u, a0, b0);
    }
  }

  /** Appending a placed, evaluated row that follows the last one extends the history. */
  lemma ExtendTrace(h: seq<Record>, r: Record, n: nat, u: real, f: real -> real, a0: real, b0: real)
    requires TracePrefix(h, n, u, f, a0, b0)
    requires r.iter == |h| + 1 && Placed(r, n, u, a0, b0) && Evaluated(r, f)
    requires if |h| == 0 then r.a == a0 && r.b == b0 else Follows(h[|h| - 1], r)
    ensures TracePrefix(h + [r], n, u, f, a0, b0)
  {
  }

  /**
   * One iteration of the f(x1) < f(x2) branch, with the new left probe at the
   * table ratio fibs[n - k - 2] / fibs[n - k] of [a, x2]: the row is recorded
   * and the loop state holds for iteration k + 1, which is not past the last.
   */
  lemma StepRight(h: seq<Record>, r: Record, s: Record, fibs: seq<nat>, n: nat, u: real,
                  f: real -> real, a0: real, b0: real)
    requires 0.0 < u && LoopState(h, r, n, u, f, a0, b0) && r.iter < n
    requires |fibs| == n + 1 && IsFibTable(fibs)
    requires r.fx1 < r.fx2
    requires s.iter == r.iter + 1 && s.a == r.a && s.b == r.x2 && s.x2 == r.x1 && s.fx2 == r.fx1
    requires s.width == s.b - s.a
    requires s.b - s.a == Times(fibs[n - r.iter], u) ==> s.x1 == s.a + Times(PyIndex(fibs, n - r.iter - 2), u)
    requires s.fx1 == f(s.x1)
    ensures s.iter < n && LoopState(h + [r], s, n, u, f, a0, b0)
  {
    ExtendTrace(h, r, n, u, f, a0, b0);
    LeftSmallerNotLast(r, n, u, f, a0, b0);
    assert PyIndex(fibs, n - r.iter - 2) == Fib(n - s.iter - 1);
    assert fibs[n - r.iter] == Fib(n - r.iter);
    ShrinkRight(r, s, n, u, a0, b0);
  }

  /**
   * One iteration of the other branch, with the new right probe at the table
   * ratio fibs[n - k - 1] / fibs[n - k] of [x1, b]: the row is recorded and the
   * loop state holds for iteration k + 1.
   */
  lemma StepLeft(h: seq<Record>, r: Record, s: Record, fibs: seq<nat>, n: nat, u: real,
                 f: real -> real, a0: real, b0: real)
    requires 0.0 < u && LoopState(h, r, n, u, f, a0, b0) && r.iter < n
    requires |fibs| == n + 1 && IsFibTable(fibs)
    requires !(r.fx1 < r.fx2)
    requires s.iter == r.iter + 1 && s.a == r.x1 && s.b == r.b && s.x1 == r.x2 && s.fx1 == r.fx2
    requires s.width == s.b - s.a
    requires s.b - s.a == Times(fibs[n - r.iter], u) ==> s.x2 == s.a + Times(fibs[n - r.iter - 1], u)
    requires s.fx2 == f(s.x2)
    ensures LoopState(h + [r], s, n, u, f, a0, b0)
  {
    ExtendTrace(h, r, n, u, f, a0, b0);
    LeftCutWidth(r, n, u, a0, b0);
    assert fibs[n - r.iter - 1] == Fib(n - s.iter);
    assert fibs[n - r.iter] == Fib(n - r.iter);
    ShrinkLeft(r, s, n, u, a0, b0);
  }

  /**
   * After the last iteration the history is complete, and the interval is the
   * upper half [midpoint, b] of the last recorded one: the probes tied there,
   * so the tie rule kept the right part. Its width is the unit (b0 - a0) / F(n).
   */
  lemma Converged(h: seq<Record>, cur: Record, n: nat, f: real -> real, a0: real, b0: real)
    requires 2 <= n && cur.iter == n && LoopState(h, cur, n, Unit(n, a0, b0), f, a0, b0)
    ensures ValidTrace(h, n, f, a0, b0)
    ensures cur.a == (h[|h| - 1].a + h[|h| - 1].b) / 2.0 && cur.b == h[|h| - 1].b
    ensures cur.x1 == cur.a && cur.x2 == cur.b && cur.b - cur.a == Unit(n, a0, b0)
    ensures a0 <= cur.a && cur.b <= b0
  {
    LastRowTies(h[|h| - 1], n, Unit(n, a0, b0), a0, b0);
  }

  /** The final width (b0 - a0) / F(n) is below the tolerance, since F(n) > (b0 - a0) / tol. */
  lemma FinalWidthBelowTolerance(n: nat, a0: real, b0: real, tol: real)
    requires a0 < b0 && 0.0 < tol && IsTableSize(n, (b0 - a0) / tol)
    ensures 0.0 < Unit(n, a0, b0) < tol
  {
    DivPos(b0 - a0, Fib(n) as real);
    BelowTol(b0 - a0, tol, Fib(n) as real);
  }

  /**
   * The probes and the iterations: sets up [a0, b0] with its two probes, then
   * runs the n - 1 iterations, recording each row before reducing the
   * interval. Hands back the history and the final local state.
   */
  method Search(f: real -> real, fibs: seq<nat>, a0: real, b0: real, ghost u: real)
    returns (history: seq<Record>, a: real, b: real, x1: real, x2: real, f1: real, f2: real)
    requires 2 <= |fibs| && IsFibTable(fibs)
    requires 2 < |fibs| ==> 0.0 < u && Times(Fib(|fibs| - 1), u) == b0 - a0
    ensures |history| + 2 == |fibs|
    ensures 2 < |fibs| ==> LoopState(history, Snapshot(|fibs| - 1, a, b, x1, x2, f1, f2), |fibs| - 1, u, f, a0, b0)
  {
    var n := |fibs| - 1;
    var width := b0 - a0;
    a, b := a0, b0;
    x1 := PlaceProbe(a, width, PyIndex(fibs, n - 2), fibs[n], u);
    x2 := PlaceProbe(a, width, fibs[n - 1], fibs[n], u);
    f1, f2 := f(x1), f(x2);
    history := [];
    if 2 <= n {
      InitialPlaced(Snapshot(1, a, b, x1, x2, f1, f2), fibs, n, u, a0, b0);
    }

    for k := 1 to n
      invariant |history| == k - 1
      invariant 2 <= n ==> LoopState(history, Snapshot(k, a, b, x1, x2, f1, f2), n, u, f, a0, b0)
    {
      var before := Snapshot(k, a, b, x1, x2, f1, f2);
      ghost var recorded := history;
      history := history + [before];

      if f1 < f2 {
        b := x2;
        x2 := x1;
        f2 := f1;
        if n - k - 1 < 0 { break; }
        x1 := PlaceProbe(a, b - a, PyIndex(fibs, n - k - 2), fibs[n - k], u);
        f1 := f(x1);
        StepRight(recorded, before, Snapshot(k + 1, a, b, x1, x2, f1, f2), fibs, n, u, f, a0, b0);
      } else {
        a := x1;
        x1 := x2;
        f1 := f2;
        if n - k - 1 < 0 { break; }
        x2 := PlaceProbe(a, b - a, fibs[n - k - 1], fibs[n - k], u);
        f2 := f(x2);
        StepLeft(recorded, before, Snapshot(k + 1, a, b, x1, x2, f1, f2), fibs, n, u, f, a0, b0);
      }
    }
  }

  /**
   * Runs the search on f over [a0, b0] with tolerance tol. Fails on a zero
   * tolerance, and when (b0 - a0) / tol < 1 leaves the history empty.
   */
  method Solve(f: real -> real, a0: real, b0: real, tol: real) returns (r: Result<SearchResult>)
    requires tol != 0.0 && (b0 - a0) / tol >= 1.0 ==> a0 < b0
    ensures r == Err(DivisionByZero) <==> tol == 0.0
    ensures r == Err(EmptyHistory) <==> tol != 0.0 && (b0 - a0) / tol < 1.0
    ensures r.Ok? ==>
      var o := r.value;
      && 2 <= o.iterations
      && IsTableSize(o.iterations, (b0 - a0) / tol)
      && ValidTrace(o.history, o.iterations, f, a0, b0)
      && var last := o.history[|o.history| - 1];
      && o.finalA == (last.a + last.b) / 2.0 && o.finalB == last.b
      && o.finalB - o.finalA == (b0 - a0) / Fib(o.iterations) as real < tol
      && (o.minimizer == o.finalA || o.minimizer == o.finalB)
      && (o.minimizer == o.finalA <==> f(o.finalA) < f(o.finalB))
      && o.minimum == f(o.minimizer)
      && o.minimum <= f(o.finalA) && o.minimum <= f(o.finalB)
      && a0 <= o.minimizer <= b0
  {
    var initialWidth := b0 - a0;
    if tol == 0.0 {
      return Err(DivisionByZero);
    }
    var fibs := BuildTable(initialWidth / tol);
    var n := |fibs| - 1;
    ghost var u := Unit(n, a0, b0);
    SingleEntryTable(n, initialWidth / tol);
    if 2 <= n {
      UnitFits(n, a0, b0);
    }
    var history, a, b, x1, x2, f1, f2 := Search(f, fibs, a0, b0, u);

    var bestX, bestY;
    if f1 < f2 {
      bestX, bestY := x1, f1;
    } else {
      bestX, bestY := x2, f2;
    }

    if |history| == 0 {
      return Err(EmptyHistory);
    }
    Converged(history, Snapshot(n, a, b, x1, x2, f1, f2), n, f, a0, b0);
    PositiveTolerance(b0 - a0, tol);
    FinalWidthBelowTolerance(n, a0, b0, tol);
    return Ok(SearchResult(bestX, bestY, history, n, a, b));
  }

  // Facts of real arithmetic, kept apart so that the solver sees them one at a time.

  /** Times adds up. */
  lemma {:induction false} TimesAdd(j: nat, k: nat, u: real)
    ensures Times(j + k, u) == Times(j, u) + Times(k, u)
  {
    if k > 0 {
      TimesAdd(j, k - 1, u);
    }
  }

  /** For a non-negative unit, more units are at least as long. */
  lemma TimesMono(j: nat, k: nat, u: real)
    requires j <= k && 0.0 <= u
    ensures Times(j, u) <= Times(k, u)
  {
    TimesAdd(j, k - j, u);
    TimesNonNegative(k - j, u);
  }

  /** For a positive unit, more units are longer. */
  lemma TimesStrict(j: nat, k: nat, u: real)
    requires j < k && 0.0 < u
    ensures Times(j, u) < Times(k, u)
  {
    TimesAdd(j, k - j, u);
    TimesMono(1, k - j, u);
  }

  lemma {:induction false} TimesNonNegative(k: nat, u: real)
    requires 0.0 <= u
    ensures 0.0 <= Times(k, u)
  {
    if k > 0 {
      TimesNonNegative(k - 1, u);
    }
  }

  /** Times is multiplication. */
  lemma {:induction false} TimesIsProduct(k: nat, u: real)
    ensures Times(k, u) == k as real * u
  {
    if k > 0 {
      TimesIsProduct(k - 1, u);
    }
  }

  /**
   * The share p / q of a length of q units is p units: how the solver's
   * Fibonacci ratios place every probe.
   */
  lemma ShareInUnits(p: nat, q: nat, w: real, u: real)
    requires 0 < q && w == Times(q, u)
    ensures Share(p, q, w) == Times(p, u)
  {
    TimesIsProduct(q, u);
    TimesIsProduct(p, u);
    RatioCancel(p as real, q as real, u);
    calc {
      (p as real / q as real) * w;
      (p as real / q as real) * (q as real * u);
      p as real * u;
    }
  }

  lemma RatioCancel(p: real, q: real, u: real)
    requires q != 0.0
    ensures (p / q) * (q * u) == p * u
  {
  }

  lemma UnitTimes(w: real, q: real)
    requires q != 0.0
    ensures (w / q) * q == w
  {
  }

  lemma DivPos(w: real, q: real)
    requires 0.0 < w && 0.0 < q
    ensures 0.0 < w / q
  {
  }

  lemma PositiveTolerance(w: real, t: real)
    requires 0.0 < w && t != 0.0 && 1.0 <= w / t
    ensures 0.0 < t
  {
  }

  lemma BelowTol(w: real, t: real, q: real)
    requires 0.0 < w && 0.0 < t && 0.0 < q && w / t < q
    ensures w / q < t
  {
  }
}
