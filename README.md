# Explicit-Euler trajectory builders, modelled in Dafny

The repository benchmarks two ways of writing the same fixed-step
explicit-Euler integrator in Python/NumPy. The test system is the harmonic
oscillator dx0/dt = x1, dx1/dt = -x0. This project models the two variants
that are shown in full:

- `algos1.py`:
  - `algo` takes one step `x + f(x, t) * dt`.
  - `accum` fills a `len(t) x len(x)` matrix. Row 0 is `x`. For every later
    grid point it calls the callback `f(x, tlast, dxdt)`, which writes the
    derivative at the previous state and time into a scratch buffer. It then
    stores `x + dxdt * (tcur - tlast)` as the next row and carries it forward.
  - `func` is the callback. It writes `dxdt[0] = x[1]` and `dxdt[1] = -x[0]`.
- `euler_01.py`:
  - `euler` is the same loop restructured. Row 0 comes from a copy of `x0`,
    `t[0]` is read up front, and the loop runs over `t[1:]`.
  - `func` is the same callback as in `algos1.py`.

Module layout:

- `EulerSpec` (`eulerspec.dfy`) holds the specification. `State` is the
  recurrence that both builders compute: row 0 is the initial state, and row
  n is row n-1 plus the derivative at (row n-1, t[n-1]) times
  t[n] - t[n-1]. `Trace` is the sequence of observable events a run produces,
  each a callback call or a row write. This module also holds the lemmas
  about both.
- `Oscillator` (`oscillator.dfy`) holds the harmonic derivative `Harmonic`
  and what explicit Euler does to it.
- `Algos1` (`algos1.dfy`) and `Euler01` (`euler01.dfy`) model the two
  source files.

There are two ways the callback appears, and both are modelled:

- **A general callback.** This is a pure function value `f` of type
  `Deriv = (Vec, real) --> Vec`. The buffer `f` fills is represented by
  `f`'s result. `Fits(f, dim)` says `f` can be called on every state of
  dimension `dim` and returns a vector of that dimension. `Accum` and
  `Euler` are proved against `State` and `Trace` for every such `f`.
- **The buffer-writing `func`.** This is a method on real arrays
  (`Algos1.Func`). `AccumFunc` and `EulerFunc` run the loops exactly as the
  benchmarks do: one zero-initialised scratch array is reused across steps,
  and every step allocates a new state array. They are proved to produce the
  trajectory of `Harmonic`.

## Model

| member | source | states |
|---|---|---|
| Algos1.Algo | algos1.py:4-5 | one step is element-wise `x[i] + f(x, t)[i] * dt`, with the length of `x` |
| Algos1.AlgoZeroStep | algos1.py:4-5 | a step with `dt = 0` returns `x` unchanged |
| Algos1.AlgoStepBack | algos1.py:4-5 | stepping the result by `-dt` along the same derivative gives back `x`, so steps of either sign are inverse |
| Algos1.AlgoIterates | algos1.py:13-15 | row n of the trajectory is `algo` applied to row n-1 at the previous time `t[n-1]` (not `t[n]`) with step `t[n] - t[n-1]` |
| Algos1.Accum | algos1.py:7-17 | the result has exactly `len(t)` rows and `len(x)` columns for any grid, and entry (n, i) is row n of the recurrence; the events are exactly `Trace`, so an empty grid gives no rows and no calls |
| EulerSpec.State | algos1.py:10-16 | every row of the trajectory has the dimension of the initial state |
| EulerSpec.TraceIsEvents | algos1.py:10-16 | a run over n >= 1 grid points writes row 0, then for k = 0 .. n-2 calls the callback on (row k, t[k]) and writes row k+1 |
| EulerSpec.EventsRows | algos1.py:10-16 | a run that makes m calls writes rows 0 .. m, each once, in ascending order |
| EulerSpec.EventsCalls | algos1.py:12-14 | a run makes exactly the calls it is built from, in order |
| EulerSpec.TraceRows | algos1.py:10-15 | over n >= 1 grid points, rows 0 .. n-1 are each written once, in ascending order |
| EulerSpec.TraceCalls | algos1.py:13-14 | over n >= 1 grid points, the callback is called exactly n-1 times, and call k gets row k and time t[k] |
| EulerSpec.WriteRow | algos1.py:15 | `X[n, :] = x` stores the next trajectory row after rows 0 .. n-1: row n then holds exactly `x`, and every other row of the matrix keeps its contents |
| EulerSpec.Restart | algos1.py:10-16 | integrating from row m over the rest of the grid reproduces the remaining rows |
| EulerSpec.PrefixGrid | algos1.py:10-16 | row n depends only on the first n+1 grid points, so the trajectory over a prefix of the grid is a prefix of the trajectory |
| EulerSpec.FrozenGrid | algos1.py:15 | if the first n+1 grid points coincide, every step is zero and row n is the initial state |
| EulerSpec.Equilibrium | algos1.py:14-15 | a state where the callback's derivative vanishes at every time is kept in every row |
| Algos1.Func | algos1.py:19-21 | writes `dxdt[0] := x[1]` and `dxdt[1] := -x[0]`, ignores `t`, leaves every other entry of `dxdt` unchanged, and leaves `x` unchanged when it is a different array; when `x` and `dxdt` are the same array, the second write reads the new `x[0]`; `func` in `euler_01.py` (lines 18-20) is the same two assignments and is modelled by this member too |
| Algos1.HarmonicBuffer | algos1.py:19-21 | a zero-initialised buffer after `func` holds exactly the harmonic derivative |
| Algos1.FuncStep | algos1.py:14-15 | calling `func` on the reused buffer and then stepping gives the step of the harmonic derivative; the buffer then holds `x[1]` and `-x[0]` and stays zero beyond its first two entries |
| Algos1.Advance | algos1.py:15 | `x + dxdt * dt` builds a new array holding the element-wise step |
| Algos1.FuncRow | algos1.py:11-16 | one pass of the loop with `func`: past the first point the state advances, and it is written as row n; the rows after n are left untouched |
| Algos1.AccumFunc | algos1.py:7-21 | `accum(func, x, t)` returns a `len(t) x len(x)` matrix whose rows are the harmonic trajectory; the reused buffer is sound because its untouched entries stay zero |
| Algos1.BenchmarkSecondRow | run.py:12-13 | from `x0 = (0, 1)` on a grid starting 0, 0.01, the second row is (0.01, 1) |
| Euler01.Euler | euler_01.py:4-16 | on a grid of at least one point, the result has `len(t)` rows and `len(x0)` columns, entry (n, i) is row n of the recurrence, and the events are exactly `Trace` |
| Euler01.Copy | euler_01.py:8 | `np.array(x0)` yields a fresh array with the same entries |
| Euler01.EulerFunc | euler_01.py:4-20 | `euler(func, x0, t)` returns the harmonic trajectory; it works on a fresh copy, so the caller's `x0` is never written |
| Euler01.EulerMatchesAccum | euler_01.py:4-16 | on every non-empty grid, `euler` and `accum` produce the same matrix, row for row, and the same calls and writes in the same order |
| Oscillator.HarmonicFits | algos1.py:19-21 | the harmonic callback can drive a trajectory of any dimension of at least 2 |
| Oscillator.PairStep | algos1.py:19-21 | on the first two components, a harmonic step maps (p, q) to (p + q dt, q - p dt) |
| Oscillator.Projection | algos1.py:19-21 | the first two components of every row follow the pair recurrence started at (x0[0], x0[1]), whatever the other components hold |
| Oscillator.ExtraComponentsConstant | algos1.py:19-21 | components beyond the first two are never written by `func`, so they keep their initial values in every row |
| Oscillator.TimeShift | algos1.py:19-21 | `func` ignores `t`, so shifting the whole grid by a constant leaves the trajectory unchanged |
| Oscillator.TurnEnergy | algos1.py:19-21 | one harmonic step multiplies x0^2 + x1^2 by exactly 1 + dt^2, so explicit Euler spirals outward |

## Left out

- Floating point is not modelled. Values are mathematical reals, so nothing
  is claimed about rounding or about closeness to (sin t, cos t).
- NumPy is not modelled. Broadcasting, dtypes and the `float` conversion of
  `np.zeros` are out of scope. A vector is `seq<real>` or `array<real>`, and
  the matrix is `array2<real>`.
- The general callback is a pure function whose result is the buffer `f`
  would fill. It is assumed to fill the whole buffer. A general callback that
  reads the buffer's old contents, or writes only part of it, is modelled
  only for `func`, through `AccumFunc` and `EulerFunc`.
- The trace of events is ghost bookkeeping. It appends a callback call
  together with the row write it leads to.
- Algos1.Accum: in `accum`, `tlast` is unbound before the first iteration.
  It is modelled as 0.0 and is never read.
- Euler01.Euler: requires at least one grid point. With an empty grid, the
  code fails when it writes row 0 of a zero-row matrix. That failure is not
  modelled as an error value.
- Input validation is left out. A stricter version would reject an empty
  state and a grid that is not strictly ascending. Neither `accum` nor
  `euler` checks either, and the model follows the code: any grid is
  accepted, and `accum` accepts an empty state. `func` needs `len(x) >= 2`
  and `len(dxdt) >= 2`, stated as preconditions.
- AccumFunc, EulerFunc: require a state of at least two components. With a
  grid of at most one point the code never calls `func`, so it would also
  accept a shorter state and return its single row (or no rows). That
  degenerate case is excluded, because the harmonic trajectory is defined
  only from dimension 2.
- Oscillator.TurnEnergy: proves only the exact growth factor 1 + dt^2. It
  does not state that the energy never decreases.
- `run.py` is timing, printing and plotting. It also uses `algos2`, a
  compiled module that is not part of this model.
- `setup.py` is build glue for native extensions.
- `euler_13.py`, `euler_14.py`, `euler_16.py`, `euler_18.py` and
  `algosD.py` override `func` with the same two assignments. Their
  integration loops live in base modules that are not part of this model.
