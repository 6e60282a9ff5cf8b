/**
 * What a complete history of the Fibonacci search says about the run: the
 * shape of every row, how the interval shrinks from row to row, and that the
 * history is fixed by f, [a0, b0] and the table size alone.
 */
module TraceProperties {
  import opened Fibonacci
  import opened FibonacciSearch

  /**
   * Every recorded row has its probes inside the interval, in order, and they
   * coincide exactly at the last iteration, k = n - 1; the rows stay in [a0, b0].
   */
  lemma RowOrder(h: seq<Record>, n: nat, f: real -> real, a0: real, b0: real, j: nat)
    requires a0 < b0 && ValidTrace(h, n, f, a0, b0) && j < |h|
    ensures h[j].iter == j + 1
    ensures a0 <= h[j].a < h[j].x1 <= h[j].x2 < h[j].b <= b0
    ensures h[j].x1 == h[j].x2 <==> h[j].iter == n - 1
  {
    var r, u := h[j], Unit(n, a0, b0);
    var m := n - r.iter;
    UnitFits(n, a0, b0);
    TimesStrict(0, Fib(m - 1), u);
    FibStrictlyIncreasing(m, m + 1);
    TimesStrict(Fib(m), Fib(m + 1), u);
    if m >= 2 {
      FibStrictlyIncreasing(m - 1, m);
      TimesStrict(Fib(m - 1), Fib(m), u);
    }
  }

  /**
   * A placed row with m = n - k has its probes at the shares F(m - 1) / F(m + 1)
   * and F(m) / F(m + 1) of its interval, and, in the unit (b0 - a0) / F(n),
   * the share F(m + 1) / F(n) of [a0, b0] as its width.
   */
  lemma PlacedShares(r: Record, n: nat, a0: real, b0: real)
    requires a0 < b0 && Placed(r, n, Unit(n, a0, b0), a0, b0)
    ensures var m := n - r.iter;
      && r.x1 == r.a + Share(Fib(m - 1), Fib(m + 1), r.b - r.a)
      && r.x2 == r.a + Share(Fib(m), Fib(m + 1), r.b - r.a)
      && r.width == Share(Fib(m + 1), Fib(n), b0 - a0)
  {
    var m, u := n - r.iter, Unit(n, a0, b0);
    UnitFits(n, a0, b0);
    ShareInUnits(Fib(m - 1), Fib(m + 1), r.b - r.a, u);
    ShareInUnits(Fib(m), Fib(m + 1), r.b - r.a, u);
    ShareInUnits(Fib(m + 1), Fib(n), b0 - a0, u);
  }

  /**
   * The probes of row k, with m = n - k, sit at the shares F(m - 1) / F(m + 1)
   * and F(m) / F(m + 1) of its interval, and its width b - a is the share
   * F(m + 1) / F(n) of b0 - a0.
   */
  lemma RowRatios(h: seq<Record>, n: nat, f: real -> real, a0: real, b0: real, j: nat)
    requires a0 < b0 && ValidTrace(h, n, f, a0, b0) && j < |h|
    ensures var m := n - h[j].iter;
      && 1 <= m
      && h[j].x1 == h[j].a + Share(Fib(m - 1), Fib(m + 1), h[j].b - h[j].a)
      && h[j].x2 == h[j].a + Share(Fib(m), Fib(m + 1), h[j].b - h[j].a)
      && h[j].width == h[j].b - h[j].a == Share(Fib(m + 1), Fib(n), b0 - a0)
  {
    assert Placed(h[j], n, Unit(n, a0, b0), a0, b0);
    PlacedShares(h[j], n, a0, b0);
  }

  /** Interval widths strictly decrease along the history. */
  lemma WidthsDecrease(h: seq<Record>, n: nat, f: real -> real, a0: real, b0: real, j: nat)
    requires a0 < b0 && ValidTrace(h, n, f, a0, b0) && j + 1 < |h|
    ensures h[j + 1].width < h[j].width
  {
    var u := Unit(n, a0, b0);
    var m := n - h[j].iter;
    UnitFits(n, a0, b0);
    FibStrictlyIncreasing(m, m + 1);
    TimesStrict(Fib(m), Fib(m + 1), u);
  }

  /**
   * The width entering each iteration does not depend on the function being
   * minimised: two runs over the same interval and table agree on it.
   */
  lemma WidthsIgnoreObjective(h: seq<Record>, h': seq<Record>, n: nat, f: real -> real, g: real -> real,
                              a0: real, b0: real, j: nat)
    requires a0 < b0 && ValidTrace(h, n, f, a0, b0) && ValidTrace(h', n, g, a0, b0) && j < |h|
    ensures h[j].width == h'[j].width
  {
    RowRatios(h, n, f, a0, b0, j);
    RowRatios(h', n, g, a0, b0, j);
  }

  /**
   * Each iteration moves exactly one bound, inward: the right one when
   * f(x1) < f(x2), the left one otherwise (ties included).
   */
  lemma OneBoundMoves(h: seq<Record>, n: nat, f: real -> real, a0: real, b0: real, j: nat)
    requires a0 < b0 && ValidTrace(h, n, f, a0, b0) && j + 1 < |h|
    ensures h[j].fx1 < h[j].fx2 ==> h[j + 1].a == h[j].a && h[j + 1].b < h[j].b
    ensures !(h[j].fx1 < h[j].fx2) ==> h[j].a < h[j + 1].a && h[j + 1].b == h[j].b
  {
    RowOrder(h, n, f, a0, b0, j);
  }

  /** Rows 0 .. j of two complete histories of the same run agree. */
  lemma {:induction false} RowsAgree(h: seq<Record>, h': seq<Record>, n: nat, f: real -> real,
                                     a0: real, b0: real, j: nat)
    requires ValidTrace(h, n, f, a0, b0) && ValidTrace(h', n, f, a0, b0) && j < |h|
    ensures h[j] == h'[j]
  {
    var u := Unit(n, a0, b0);
    assert Placed(h[j], n, u, a0, b0) && Evaluated(h[j], f);
    assert Placed(h'[j], n, u, a0, b0) && Evaluated(h'[j], f);
    if j > 0 {
      RowsAgree(h, h', n, f, a0, b0, j - 1);
      assert Follows(h[j - 1], h[j]) && Follows(h'[j - 1], h'[j]);
    }
    SameBoundsSameRow(h[j], h'[j], n, u, f, a0, b0);
  }

  /** A placed, evaluated row is fixed by its iteration number and its bounds. */
  lemma SameBoundsSameRow(r: Record, r': Record, n: nat, u: real, f: real -> real, a0: real, b0: real)
    requires Placed(r, n, u, a0, b0) && Evaluated(r, f) && Placed(r', n, u, a0, b0) && Evaluated(r', f)
    requires r.iter == r'.iter && r.a == r'.a && r.b == r'.b
    ensures r == r'
  {
  }

  /**
   * The history is a function of f, [a0, b0] and n: the search has no other
   * input, so the history Solve reports is the only valid one.
   */
  lemma TraceUnique(h: seq<Record>, h': seq<Record>, n: nat, f: real -> real, a0: real, b0: real)
    requires ValidTrace(h, n, f, a0, b0) && ValidTrace(h', n, f, a0, b0)
    ensures h == h'
  {
    forall j | 0 <= j < |h|
      ensures h[j] == h'[j]
    {
      RowsAgree(h, h', n, f, a0, b0, j);
    }
  }

  /**
   * Had the f(x1) < f(x2) branch run at the last iteration (k = n - 1), its
   * index n - k - 2 = -1 would wrap to fibs[n] and place the new probe
   * F(n) widths right of a, outside [a, b].
   */
  lemma WrappedProbeOutside(fibs: seq<nat>, n: nat, a: real, b: real)
    requires |fibs| == n + 1 && IsFibTable(fibs) && 2 <= n && a < b
    ensures PyIndex(fibs, n - (n - 1) - 2) == fibs[n] == Fib(n)
    ensures a + Share(PyIndex(fibs, n - (n - 1) - 2), fibs[n - (n - 1)], b - a) > b
  {
    FibMonotone(2, n);
    assert fibs[1] == Fib(1) == 1;
    MoreThanOnce(Fib(n) as real, b - a);
  }

  lemma MoreThanOnce(c: real, w: real)
    requires 2.0 <= c && 0.0 < w
    ensures w < (c / 1.0) * w
  {
  }
}
