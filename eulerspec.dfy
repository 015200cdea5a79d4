/** The explicit-Euler recurrence that both trajectory builders implement.

    A state is a vector of reals; a derivative callback maps a state and a
    time to a derivative vector of the same length.  Row 0 of a trajectory is
    the initial state, and row n is row n-1 advanced by the derivative taken
    at row n-1 and time t[n-1], scaled by the step t[n] - t[n-1].
 */
module EulerSpec {

  type Vec = seq<real>

  /** A derivative callback.  It may have a precondition (the harmonic
      oscillator indexes x[1], so it needs at least two components). */
  type Deriv = (Vec, real) --> Vec

  /** f can be called on every state of dimension dim and then returns a
      derivative of that dimension (it fills a buffer of length dim). */
  ghost predicate Fits(f: Deriv, dim: nat) {
    forall x: Vec, s: real :: |x| == dim ==> f.requires(x, s) && |f(x, s)| == dim
  }

  /** Element-wise x + d * dt, the vector update of one step. */
  function Step(x: Vec, d: Vec, dt: real): (y: Vec)
    requires |d| == |x|
    ensures |y| == |x|
    ensures forall i {:trigger y[i]} :: 0 <= i < |x| ==> y[i] == x[i] + d[i] * dt
  {
    seq(|x|, i requires 0 <= i < |x| => x[i] + d[i] * dt)
  }

  /** The size of step n, from grid point n-1 to grid point n. */
  function StepSize(t: seq<real>, n: nat): real
    requires 0 < n < |t|
  {
    t[n] - t[n - 1]
  }

  /** Row n of the trajectory of x0 over the grid t. */
  function State(f: Deriv, x0: Vec, t: seq<real>, n: nat): (x: Vec)
    requires Fits(f, |x0|) && n < |t|
    ensures |x| == |x0|
    decreases n
  {
    if n == 0 then x0
    else
      var prev := State(f, x0, t, n - 1);
      Step(prev, f(prev, t[n - 1]), StepSize(t, n))
  }

  /** What a trajectory builder observably does, in order: write a row of
      the result, or call the derivative callback on a state and a time. */
  datatype Event = Write(row: nat) | Call(x: Vec, s: real)

  /** The events of a run that makes the given callback calls: write row
      0, then for each call make it and write the next row. */
  function Events(args: seq<(Vec, real)>): seq<Event>
    decreases |args|
  {
    if args == [] then [Write(0)]
    else
      var k := |args| - 1;
      Events(args[..k]) + [Call(args[k].0, args[k].1), Write(k + 1)]
  }

  /** The callback calls of processing the first n >= 1 grid points: call k
      gets row k and the time t[k] of that row. */
  function Calls(f: Deriv, x0: Vec, t: seq<real>, n: nat): seq<(Vec, real)>
    requires Fits(f, |x0|) && 1 <= n <= |t|
  {
    seq(n - 1, k requires 0 <= k < n - 1 => (State(f, x0, t, k), t[k]))
  }

  /** The events of processing the first n grid points of t when the rows
      are rows: write row 0, then for each later point call the callback on
      the previous row and the previous time and write the new row. */
  function Run(rows: seq<Vec>, t: seq<real>, n: nat): seq<Event>
    requires n <= |rows| && n <= |t|
    decreases n
  {
    if n == 0 then []
    else if n == 1 then [Write(0)]
    else Run(rows, t, n - 1) + [Call(rows[n - 2], t[n - 2]), Write(n - 1)]
  }

  /** The events of processing the first n grid points of the trajectory of
      x0 with the callback f. */
  ghost function Trace(f: Deriv, x0: Vec, t: seq<real>, n: nat): seq<Event>
    requires Fits(f, |x0|) && n <= |t|
  {
    Run(Trajectory(f, x0, t), t, n)
  }

  /** A run over n >= 1 points makes the calls on rows 0 .. n-2 at times
      t[0] .. t[n-2]. */
  lemma {:induction false} RunIsEvents(rows: seq<Vec>, t: seq<real>, n: nat)
    requires 1 <= n <= |rows| && n <= |t|
    ensures Run(rows, t, n) == Events(seq(n - 1, k requires 0 <= k < n - 1 => (rows[k], t[k])))
    decreases n
  {
    if n > 1 {
      RunIsEvents(rows, t, n - 1);
      var a := seq(n - 1, k requires 0 <= k < n - 1 => (rows[k], t[k]));
      assert a[..n - 2] == seq(n - 2, k requires 0 <= k < n - 2 => (rows[k], t[k]));
    }
  }

  /** A run over n >= 1 grid points is the run making the calls of
      Calls(f, x0, t, n). */
  lemma TraceIsEvents(f: Deriv, x0: Vec, t: seq<real>, n: nat)
    requires Fits(f, |x0|) && 1 <= n <= |t|
    ensures Trace(f, x0, t, n) == Events(Calls(f, x0, t, n))
  {
    var rows := Trajectory(f, x0, t);
    RunIsEvents(rows, t, n);
    forall k | 0 <= k < n - 1
      ensures rows[k] == State(f, x0, t, k)
    {
      TrajectoryRow(f, x0, t, k);
    }
    assert Calls(f, x0, t, n) == seq(n - 1, k requires 0 <= k < n - 1 => (rows[k], t[k]));
  }

  /** The row indices written, in the order they are written. */
  function WrittenRows(e: seq<Event>): seq<nat>
    decreases |e|
  {
    if e == [] then []
    else if e[|e| - 1].Write? then WrittenRows(e[..|e| - 1]) + [e[|e| - 1].row]
    else WrittenRows(e[..|e| - 1])
  }

  /** The arguments of the callback calls, in the order they are made. */
  function CallArgs(e: seq<Event>): seq<(Vec, real)>
    decreases |e|
  {
    if e == [] then []
    else if e[|e| - 1].Call? then CallArgs(e[..|e| - 1]) + [(e[|e| - 1].x, e[|e| - 1].s)]
    else CallArgs(e[..|e| - 1])
  }

  /** Appending a call and a row write adds one written row. */
  lemma AppendRows(p: seq<Event>, x: Vec, s: real, r: nat)
    ensures WrittenRows(p + [Call(x, s), Write(r)]) == WrittenRows(p) + [r]
  {
    var e := p + [Call(x, s), Write(r)];
    assert e[..|e| - 1] == p + [Call(x, s)];
    assert (p + [Call(x, s)])[..|p|] == p;
  }

  /** Appending a call and a row write adds one call. */
  lemma AppendCalls(p: seq<Event>, x: Vec, s: real, r: nat)
    ensures CallArgs(p + [Call(x, s), Write(r)]) == CallArgs(p) + [(x, s)]
  {
    var e := p + [Call(x, s), Write(r)];
    assert e[..|e| - 1] == p + [Call(x, s)];
    assert (p + [Call(x, s)])[..|p|] == p;
  }

  /** A run making the calls args writes rows 0 .. |args|, each once, in
      ascending order. */
  lemma {:induction false} EventsRows(args: seq<(Vec, real)>)
    ensures |WrittenRows(Events(args))| == |args| + 1
    ensures forall i :: 0 <= i <= |args| ==> WrittenRows(Events(args))[i] == i
    decreases |args|
  {
    if args == [] {
      assert [Write(0)][..0] == [];
    } else {
      var k := |args| - 1;
      EventsRows(args[..k]);
      AppendRows(Events(args[..k]), args[k].0, args[k].1, k + 1);
    }
  }

  /** A run making the calls args makes exactly those calls, in order. */
  lemma {:induction false} EventsCalls(args: seq<(Vec, real)>)
    ensures CallArgs(Events(args)) == args
    decreases |args|
  {
    if args == [] {
      assert [Write(0)][..0] == [];
    } else {
      var k := |args| - 1;
      EventsCalls(args[..k]);
      AppendCalls(Events(args[..k]), args[k].0, args[k].1, k + 1);
      assert args[..k] + [args[k]] == args;
    }
  }

  /** Over a grid of n >= 1 points, rows 0 .. n-1 are each written once, in
      ascending order. */
  lemma TraceRows(f: Deriv, x0: Vec, t: seq<real>, n: nat)
    requires Fits(f, |x0|) && 1 <= n <= |t|
    ensures |WrittenRows(Trace(f, x0, t, n))| == n
    ensures forall i :: 0 <= i < n ==> WrittenRows(Trace(f, x0, t, n))[i] == i
  {
    TraceIsEvents(f, x0, t, n);
    EventsRows(Calls(f, x0, t, n));
  }

  /** Over a grid of n >= 1 points, f is called exactly n-1 times: the k-th
      call gets row k and time t[k] (the previous point, never the current
      one). */
  lemma TraceCalls(f: Deriv, x0: Vec, t: seq<real>, n: nat)
    requires Fits(f, |x0|) && 1 <= n <= |t|
    ensures |CallArgs(Trace(f, x0, t, n))| == n - 1
    ensures forall k :: 0 <= k < n - 1 ==> CallArgs(Trace(f, x0, t, n))[k] == (State(f, x0, t, k), t[k])
  {
    TraceIsEvents(f, x0, t, n);
    EventsCalls(Calls(f, x0, t, n));
  }

  /** Rows 0 .. n-1 of the trajectory of x0 over the grid t. */
  ghost function Rows(f: Deriv, x0: Vec, t: seq<real>, n: nat): (rows: seq<Vec>)
    requires Fits(f, |x0|) && n <= |t|
    ensures |rows| == n
    decreases n
  {
    if n == 0 then [] else Rows(f, x0, t, n - 1) + [State(f, x0, t, n - 1)]
  }

  /** All rows of the trajectory of x0 over the grid t, one per grid point. */
  ghost function Trajectory(f: Deriv, x0: Vec, t: seq<real>): (rows: seq<Vec>)
    requires Fits(f, |x0|)
    ensures |rows| == |t|
  {
    Rows(f, x0, t, |t|)
  }

  /** Row m of any prefix that contains it is State at m. */
  lemma {:induction false} RowsRow(f: Deriv, x0: Vec, t: seq<real>, n: nat, m: nat)
    requires Fits(f, |x0|) && m < n <= |t|
    ensures Rows(f, x0, t, n)[m] == State(f, x0, t, m)
    decreases n
  {
    if m < n - 1 {
      RowsRow(f, x0, t, n - 1, m);
    }
  }

  /** Row m of the trajectory is State at m. */
  lemma TrajectoryRow(f: Deriv, x0: Vec, t: seq<real>, m: nat)
    requires Fits(f, |x0|) && m < |t|
    ensures Trajectory(f, x0, t)[m] == State(f, x0, t, m)
  {
    RowsRow(f, x0, t, |t|, m);
  }

  /** Rows 0 .. n-1 of the matrix X hold rows[0] .. rows[n-1]. */
  ghost predicate RowsMatch(X: array2<real>, rows: seq<Vec>, n: nat)
    reads X
  {
    n <= X.Length0 && n <= |rows| &&
    forall m :: 0 <= m < n ==> |rows[m]| == X.Length1 && forall i :: 0 <= i < X.Length1 ==> X[m, i] == rows[m][i]
  }

  /** Each row of the trajectory after the first is one step from the row
      before it. */
  lemma TrajectoryStep(f: Deriv, x0: Vec, t: seq<real>, rows: seq<Vec>, n: nat)
    requires Fits(f, |x0|) && rows == Trajectory(f, x0, t) && 0 < n < |t|
    ensures rows[n - 1] == State(f, x0, t, n - 1)
    ensures rows[n] == Step(rows[n - 1], f(rows[n - 1], t[n - 1]), t[n] - t[n - 1])
  {
    TrajectoryRow(f, x0, t, n - 1);
    TrajectoryRow(f, x0, t, n);
  }

  /** A matrix that matches the whole trajectory holds State in every
      entry. */
  lemma TrajectoryEntries(X: array2<real>, f: Deriv, x0: Vec, t: seq<real>)
    requires Fits(f, |x0|) && X.Length1 == |x0| && RowsMatch(X, Trajectory(f, x0, t), |t|)
    ensures forall n, i :: 0 <= n < |t| && 0 <= i < |x0| ==> X[n, i] == State(f, x0, t, n)[i]
  {
    forall n | 0 <= n < |t|
      ensures Trajectory(f, x0, t)[n] == State(f, x0, t, n)
    {
      TrajectoryRow(f, x0, t, n);
    }
  }

  /** Stores the next row into row n of X (X[n, :] = row) after rows
      0 .. n-1, extending the match by one row; every other row keeps its
      contents. */
  method WriteRow(X: array2<real>, n: nat, row: Vec, ghost rows: seq<Vec>)
    requires RowsMatch(X, rows, n) && n < X.Length0 && n < |rows|
    requires row == rows[n] && |row| == X.Length1
    modifies X
    ensures RowsMatch(X, rows, n + 1)
    ensures forall i :: 0 <= i < X.Length1 ==> X[n, i] == row[i]
    ensures forall m, i :: 0 <= m < X.Length0 && m != n && 0 <= i < X.Length1 ==> X[m, i] == old(X[m, i])
  {
    forall i | 0 <= i < X.Length1 {
      X[n, i] := row[i];
    }
  }

  /** Integration can be resumed at any grid point: continuing from row m
      over the rest of the grid reproduces the remaining rows. */
  lemma {:induction false} Restart(f: Deriv, x0: Vec, t: seq<real>, m: nat, k: nat)
    requires Fits(f, |x0|) && m + k < |t|
    ensures State(f, x0, t, m + k) == State(f, State(f, x0, t, m), t[m..], k)
    decreases k
  {
    if k > 0 {
      Restart(f, x0, t, m, k - 1);
      assert StepSize(t[m..], k) == StepSize(t, m + k);
    }
  }

  /** Row n depends only on the first n+1 grid points: cutting the grid
      after any later point leaves rows 0 .. n unchanged, so the trajectory
      over a prefix of the grid is a prefix of the trajectory. */
  lemma {:induction false} PrefixGrid(f: Deriv, x0: Vec, t: seq<real>, m: nat, n: nat)
    requires Fits(f, |x0|) && n < m <= |t|
    ensures State(f, x0, t[..m], n) == State(f, x0, t, n)
    decreases n
  {
    if n > 0 {
      PrefixGrid(f, x0, t, m, n - 1);
      assert t[..m][n - 1] == t[n - 1] && StepSize(t[..m], n) == StepSize(t, n);
    }
  }

  /** A grid whose first n+1 points coincide has only zero steps, and a
      zero step leaves the state unchanged. */
  lemma {:induction false} FrozenGrid(f: Deriv, x0: Vec, t: seq<real>, n: nat)
    requires Fits(f, |x0|) && n < |t|
    requires forall i :: 0 <= i <= n ==> t[i] == t[0]
    ensures State(f, x0, t, n) == x0
    decreases n
  {
    if n > 0 {
      FrozenGrid(f, x0, t, n - 1);
      var d := f(x0, t[n - 1]);
      assert StepSize(t, n) == 0.0;
      assert Step(x0, d, 0.0) == x0;
    }
  }

  /** A state at which f vanishes at every time is an equilibrium: every
      row of its trajectory equals it, whatever the grid. */
  lemma {:induction false} Equilibrium(f: Deriv, x0: Vec, t: seq<real>, n: nat)
    requires Fits(f, |x0|) && n < |t|
    requires forall s: real :: forall i :: 0 <= i < |x0| ==> f(x0, s)[i] == 0.0
    ensures State(f, x0, t, n) == x0
    decreases n
  {
    if n > 0 {
      Equilibrium(f, x0, t, n - 1);
      var d := f(x0, t[n - 1]);
      var y := Step(x0, d, StepSize(t, n));
      assert forall i :: 0 <= i < |x0| ==> d[i] == 0.0 && y[i] == x0[i];
      assert y == x0;
    }
  }
}
