/** The second benchmark variant: the same trajectory builder restructured
    so that row 0 is written from a copy of the initial state before the
    loop, and the loop runs over the grid points after the first. */
module Euler01 {
  import opened EulerSpec
  import opened Oscillator
  import opened Algos1

  /** The trajectory builder with the derivative passed as a callback (as in
      Accum, the callback is the pure function f).  It reads t[0] before
      the loop, so the grid must have at least one point. */
  method Euler(f: Deriv, x0: array<real>, t: array<real>) returns (X: array2<real>, ghost trace: seq<Event>)
    requires Fits(f, x0.Length) && t.Length >= 1
    ensures X.Length0 == t.Length && X.Length1 == x0.Length
    ensures forall n, i :: 0 <= n < t.Length && 0 <= i < x0.Length ==> X[n, i] == State(f, x0[..], t[..], n)[i]
    ensures trace == Trace(f, x0[..], t[..], t.Length)
  {
    ghost var xs, ts := x0[..], t[..];
    ghost var rows := Trajectory(f, xs, ts);
    X := new real[t.Length, x0.Length]((_, _) => 0.0);
    var dxdt: Vec := seq(x0.Length, _ => 0.0);
    var x: Vec := x0[..];
    TrajectoryRow(f, xs, ts, 0);
    WriteRow(X, 0, x, rows);
    trace := [Write(0)];
    var tlast := t[0];
    for n := 1 to t.Length
      invariant x == rows[n - 1] && tlast == ts[n - 1]
      invariant RowsMatch(X, rows, n)
      invariant trace == Run(rows, ts, n)
    {
      var tcur := t[n];
      dxdt := f(x, tlast);
      trace := trace + [Call(x, tlast), Write(n)];
      TrajectoryStep(f, xs, ts, rows, n);
      x := Step(x, dxdt, tcur - tlast);
      WriteRow(X, n, x, rows);
      tlast := tcur;
    }
    TrajectoryEntries(X, f, xs, ts);
    assert x0[..] == xs && t[..] == ts;
  }

  /** A fresh array holding the same entries (np.array(x0)). */
  method Copy(a: array<real>) returns (b: array<real>)
    ensures fresh(b)
    ensures b[..] == a[..]
  {
    b := new real[a.Length];
    forall i | 0 <= i < a.Length {
      b[i] := a[i];
    }
  }

  /** Euler driven by the buffer-writing Func, as the benchmarks run it:
      the rows are those of the harmonic trajectory, and the caller's x0 is
      never written, since the loop works on a fresh copy of it. */
  method EulerFunc(x0: array<real>, t: array<real>) returns (X: array2<real>)
    requires x0.Length >= 2 && t.Length >= 1
    ensures Fits(Harmonic, x0.Length)
    ensures X.Length0 == t.Length && X.Length1 == x0.Length
    ensures forall n, i :: 0 <= n < t.Length && 0 <= i < x0.Length ==> X[n, i] == State(Harmonic, x0[..], t[..], n)[i]
  {
    HarmonicFits(x0.Length);
    ghost var xs, ts := x0[..], t[..];
    ghost var rows := Trajectory(Harmonic, xs, ts);
    X := new real[t.Length, x0.Length]((_, _) => 0.0);
    var dxdt := new real[x0.Length](_ => 0.0);
    var x := Copy(x0);
    var tlast := t[0];
    x := FuncRow(X, 0, x, tlast, tlast, dxdt, xs, ts, rows);
    for n := 1 to t.Length
      invariant Progress(X, x, dxdt, tlast, xs, ts, rows, n)
    {
      var tcur := t[n];
      x := FuncRow(X, n, x, tlast, tcur, dxdt, xs, ts, rows);
      tlast := tcur;
    }
    TrajectoryEntries(X, Harmonic, xs, ts);
  }

  /** On every non-empty grid the two builders agree: the same matrix, row
      for row, and the same callback calls and row writes in the same
      order. */
  method EulerMatchesAccum(f: Deriv, x: array<real>, t: array<real>)
    returns (E: array2<real>, A: array2<real>, ghost traceE: seq<Event>, ghost traceA: seq<Event>)
    requires Fits(f, x.Length) && t.Length >= 1
    ensures E.Length0 == A.Length0 == t.Length && E.Length1 == A.Length1 == x.Length
    ensures forall n, i :: 0 <= n < t.Length && 0 <= i < x.Length ==> E[n, i] == A[n, i]
    ensures traceE == traceA
  {
    E, traceE := Euler(f, x, t);
    A, traceA := Accum(f, x, t);
  }
}
