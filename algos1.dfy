/** The first benchmark variant: a one-step update, the trajectory builder
    that takes the derivative as a callback, and the harmonic-oscillator
    callback that writes into a caller-supplied buffer. */
module Algos1 {
  import opened EulerSpec
  import opened Oscillator

  /** One explicit-Euler step taken directly: x + f(x, t) * dt. */
  function Algo(f: Deriv, x: Vec, t: real, dt: real): (r: Vec)
    requires f.requires(x, t) && |f(x, t)| == |x|
    ensures |r| == |x|
    ensures forall i :: 0 <= i < |x| ==> r[i] == x[i] + f(x, t)[i] * dt
  {
    Step(x, f(x, t), dt)
  }

  /** A zero step returns the state unchanged. */
  lemma AlgoZeroStep(f: Deriv, x: Vec, t: real)
    requires f.requires(x, t) && |f(x, t)| == |x|
    ensures Algo(f, x, t, 0.0) == x
  {
    var r := Algo(f, x, t, 0.0);
    assert forall i :: 0 <= i < |x| ==> r[i] == x[i];
  }

  /** Stepping back by -dt along the same derivative undoes the step. */
  lemma AlgoStepBack(f: Deriv, x: Vec, t: real, dt: real)
    requires f.requires(x, t) && |f(x, t)| == |x|
    ensures Step(Algo(f, x, t, dt), f(x, t), -dt) == x
  {
    var d := f(x, t);
    var r := Step(Algo(f, x, t, dt), d, -dt);
    forall i | 0 <= i < |x|
      ensures r[i] == x[i]
    {
      assert d[i] * (-dt) == -(d[i] * dt);
    }
  }

  /** Every row of a trajectory after the first is one Algo step from the
      row before it, at the previous time, over the step between the two
      grid points: the trajectory is Algo iterated along the grid. */
  lemma AlgoIterates(f: Deriv, x0: Vec, t: seq<real>, n: nat)
    requires Fits(f, |x0|) && 0 < n < |t|
    ensures State(f, x0, t, n) == Algo(f, State(f, x0, t, n - 1), t[n - 1], t[n] - t[n - 1])
  {
  }

  /** The trajectory builder with the derivative passed as a callback.  The
      callback fills the scratch buffer with its derivative, so here it is
      the pure function f, and the buffer holds f's latest result.  The
      ghost trace records every callback call and every row write, in
      order. */
  method Accum(f: Deriv, x: array<real>, t: array<real>) returns (X: array2<real>, ghost trace: seq<Event>)
    requires Fits(f, x.Length)
    ensures X.Length0 == t.Length && X.Length1 == x.Length
    ensures forall n, i :: 0 <= n < t.Length && 0 <= i < x.Length ==> X[n, i] == State(f, x[..], t[..], n)[i]
    ensures trace == Trace(f, x[..], t[..], t.Length)
  {
    ghost var x0, ts := x[..], t[..];
    ghost var rows := Trajectory(f, x0, ts);
    X := new real[t.Length, x.Length]((_, _) => 0.0);
    var dxdt: Vec := seq(x.Length, _ => 0.0);
    var cur: Vec := x[..];
    var tlast: real := 0.0;
    trace := [];
    for n := 0 to t.Length
      invariant n == 0 ==> cur == x0
      invariant 0 < n ==> cur == rows[n - 1] && tlast == ts[n - 1]
      invariant RowsMatch(X, rows, n)
      invariant trace == Run(rows, ts, n)
    {
      var tcur := t[n];
      if n == 0 {
        TrajectoryRow(f, x0, ts, 0);
        WriteRow(X, n, cur, rows);
        trace := trace + [Write(0)];
      } else {
        dxdt := f(cur, tlast);
        // the call and the write of the row it leads to
        trace := trace + [Call(cur, tlast), Write(n)];
        TrajectoryStep(f, x0, ts, rows, n);
        cur := Step(cur, dxdt, tcur - tlast);
        WriteRow(X, n, cur, rows);
      }
      tlast := tcur;
    }
    TrajectoryEntries(X, f, x0, ts);
  }

  /** The harmonic-oscillator callback: writes x[1] and -x[0] into the first
      two entries of the buffer and touches nothing else.  The time is not
      used.  When x and the buffer are the same array, the second write
      reads the entry the first one just overwrote. */
  method Func(x: array<real>, t: real, dxdt: array<real>)
    requires x.Length >= 2 && dxdt.Length >= 2
    modifies dxdt
    ensures dxdt[0] == old(x[1])
    ensures dxdt[1] == -(if x == dxdt then old(x[1]) else old(x[0]))
    ensures forall i :: 2 <= i < dxdt.Length ==> dxdt[i] == old(dxdt[i])
    ensures x != dxdt ==> x[..] == old(x[..])
  {
    dxdt[0] := x[1];
    dxdt[1] := -x[0];
  }

  /** A buffer holding x[1], -x[0] and zeros elsewhere is the harmonic
      derivative of x. */
  lemma HarmonicBuffer(d: Vec, x: Vec, s: real)
    requires |d| == |x| >= 2
    requires d[0] == x[1] && d[1] == -x[0]
    requires forall i :: 2 <= i < |d| ==> d[i] == 0.0
    ensures d == Harmonic(x, s)
  {
    var h := Harmonic(x, s);
    assert forall i :: 0 <= i < |d| ==> d[i] == h[i];
  }

  /** The trajectory builder driven by the buffer-writing Func, as the
      benchmarks run it: one zero-initialised scratch buffer is reused for
      every step and only its first two entries are ever written, so it
      always holds exactly the harmonic derivative, and the rows are those
      of the harmonic trajectory. */
  method AccumFunc(x: array<real>, t: array<real>) returns (X: array2<real>)
    requires x.Length >= 2
    ensures Fits(Harmonic, x.Length)
    ensures X.Length0 == t.Length && X.Length1 == x.Length
    ensures forall n, i :: 0 <= n < t.Length && 0 <= i < x.Length ==> X[n, i] == State(Harmonic, x[..], t[..], n)[i]
  {
    HarmonicFits(x.Length);
    ghost var x0, ts := x[..], t[..];
    ghost var rows := Trajectory(Harmonic, x0, ts);
    X := new real[t.Length, x.Length]((_, _) => 0.0);
    var dxdt := new real[x.Length](_ => 0.0);
    var cur := x;
    var tlast: real := 0.0;
    for n := 0 to t.Length
      invariant Progress(X, cur, dxdt, tlast, x0, ts, rows, n)
    {
      var tcur := t[n];
      cur := FuncRow(X, n, cur, tlast, tcur, dxdt, x0, ts, rows);
      tlast := tcur;
    }
    TrajectoryEntries(X, Harmonic, x0, ts);
  }

  /** The fixed setting of a Func-driven loop: a state of dimension at least
      two, its harmonic trajectory over the grid, a buffer of the same
      dimension and a matrix with one row per grid point. */
  ghost predicate Setting(X: array2<real>, dxdt: array<real>, x0: Vec, ts: seq<real>, rows: seq<Vec>) {
    |x0| >= 2 && Fits(Harmonic, |x0|) && rows == Trajectory(Harmonic, x0, ts) &&
    dxdt.Length == |x0| && X.Length0 == |ts| && X.Length1 == |x0|
  }

  /** Where a Func-driven loop stands before grid point n: cur is the state
      to carry forward (row n-1, or the initial state), tlast the previous
      grid point, the scratch buffer is zero beyond its first two entries,
      and rows 0 .. n-1 are written. */
  ghost predicate Progress(X: array2<real>, cur: array<real>, dxdt: array<real>, tlast: real,
                          x0: Vec, ts: seq<real>, rows: seq<Vec>, n: nat)
    reads X, cur, dxdt
  {
    cur.Length == |x0| && cur != dxdt &&
    (forall i :: 2 <= i < dxdt.Length ==> dxdt[i] == 0.0) &&
    n <= |ts| && RowsMatch(X, rows, n) &&
    (n == 0 ==> cur[..] == x0) &&
    (0 < n ==> cur[..] == rows[n - 1] && tlast == ts[n - 1])
  }

  /** One pass of a Func-driven loop at grid point n: past the first point,
      Func fills the buffer at the carried state and the previous point and
      the state advances to a new array; then the state is written as row
      n, and the rows after n are left as they were. */
  method FuncRow(X: array2<real>, n: nat, cur: array<real>, tlast: real, tcur: real, dxdt: array<real>,
                 ghost x0: Vec, ghost ts: seq<real>, ghost rows: seq<Vec>) returns (next: array<real>)
    requires Setting(X, dxdt, x0, ts, rows) && n < |ts| && tcur == ts[n]
    requires Progress(X, cur, dxdt, tlast, x0, ts, rows, n)
    modifies X, dxdt
    ensures Progress(X, next, dxdt, tcur, x0, ts, rows, n + 1)
    ensures forall m, i :: n < m < X.Length0 && 0 <= i < X.Length1 ==> X[m, i] == old(X[m, i])
  {
    if n != 0 {
      next := FuncStep(cur, tlast, tcur, dxdt);
      TrajectoryStep(Harmonic, x0, ts, rows, n);
    } else {
      next := cur;
      TrajectoryRow(Harmonic, x0, ts, 0);
    }
    WriteRow(X, n, next[..], rows);
  }

  /** One step of the benchmark loop with Func as the callback: Func fills
      the scratch buffer at the previous state and time, and the next state
      is the new array x + dxdt * (tcur - tlast).  The buffer then holds
      x[1] and -x[0], and its entries beyond the first two stay zero. */
  method FuncStep(x: array<real>, tlast: real, tcur: real, dxdt: array<real>) returns (next: array<real>)
    requires x.Length >= 2 && dxdt.Length == x.Length && x != dxdt
    requires forall i :: 2 <= i < dxdt.Length ==> dxdt[i] == 0.0
    modifies dxdt
    ensures fresh(next)
    ensures next[..] == Step(x[..], Harmonic(x[..], tlast), tcur - tlast)
    ensures dxdt[0] == x[1] && dxdt[1] == -x[0]
    ensures forall i :: 2 <= i < dxdt.Length ==> dxdt[i] == 0.0
  {
    Func(x, tlast, dxdt);
    HarmonicBuffer(dxdt[..], x[..], tlast);
    next := Advance(x, dxdt, tcur - tlast);
  }

  /** x + dxdt * dt into a new array (the vector expression of the step). */
  method Advance(x: array<real>, dxdt: array<real>, dt: real) returns (next: array<real>)
    requires dxdt.Length == x.Length
    ensures fresh(next)
    ensures next[..] == Step(x[..], dxdt[..], dt)
  {
    next := new real[x.Length];
    forall i | 0 <= i < x.Length {
      next[i] := x[i] + dxdt[i] * dt;
    }
    assert forall i :: 0 <= i < x.Length ==> next[..][i] == Step(x[..], dxdt[..], dt)[i];
  }

  /** The benchmark's setting: from (0, 1) on a grid starting 0, 0.01, the
      second row of the harmonic trajectory is (0.01, 1). */
  lemma BenchmarkSecondRow(t: seq<real>)
    requires |t| >= 2 && t[0] == 0.0 && t[1] == 0.01
    ensures Fits(Harmonic, 2)
    ensures State(Harmonic, [0.0, 1.0], t, 1) == [0.01, 1.0]
  {
    HarmonicFits(2);
    var r := State(Harmonic, [0.0, 1.0], t, 1);
    assert Harmonic([0.0, 1.0], 0.0) == [1.0, -0.0];
    assert r[0] == 0.01 && r[1] == 1.0;
  }
}
