/** The test system of the benchmarks: the harmonic oscillator
    dx0/dt = x1, dx1/dt = -x0, and what explicit Euler does to it.
 */
module Oscillator {
  import opened EulerSpec

  /** The derivative the callback leaves in a zero-initialised buffer of
      the state's length: entries 0 and 1 are written, every further entry
      keeps its initial zero.  The time argument is not used. */
  function Harmonic(x: Vec, s: real): (d: Vec)
    requires |x| >= 2
    ensures |d| == |x|
  {
    [x[1], -x[0]] + seq(|x| - 2, _ => 0.0)
  }

  /** The harmonic callback can drive a trajectory of any dimension >= 2. */
  lemma HarmonicFits(dim: nat)
    requires dim >= 2
    ensures Fits(Harmonic, dim)
  {
  }

  /** The oscillating pair (x0, x1) of a state. */
  datatype Pair = Pair(p: real, q: real)

  function PairOf(x: Vec): Pair
    requires |x| >= 2
  {
    Pair(x[0], x[1])
  }

  /** What one Euler step of size dt does to the pair. */
  function Turn(z: Pair, dt: real): Pair {
    Pair(z.p + z.q * dt, z.q + (-z.p) * dt)
  }

  /** The pair of row n, computed from the initial pair alone. */
  function PairState(z0: Pair, t: seq<real>, n: nat): Pair
    requires n < |t|
    decreases n
  {
    if n == 0 then z0 else Turn(PairState(z0, t, n - 1), StepSize(t, n))
  }

  /** On the pair, each step of a harmonic trajectory is a Turn. */
  lemma PairStep(x0: Vec, t: seq<real>, n: nat)
    requires |x0| >= 2 && 0 < n < |t|
    ensures Fits(Harmonic, |x0|)
    ensures PairOf(State(Harmonic, x0, t, n)) == Turn(PairOf(State(Harmonic, x0, t, n - 1)), StepSize(t, n))
  {
    HarmonicFits(|x0|);
    var prev := State(Harmonic, x0, t, n - 1);
    var d := Harmonic(prev, t[n - 1]);
    assert d[0] == prev[1] && d[1] == -prev[0];
  }

  /** The pair evolves on its own: the first two components of every row
      are those of the pair recurrence started at the initial pair, whatever
      the other components hold. */
  lemma {:induction false} Projection(x0: Vec, t: seq<real>, n: nat)
    requires |x0| >= 2 && n < |t|
    ensures Fits(Harmonic, |x0|)
    ensures PairOf(State(Harmonic, x0, t, n)) == PairState(PairOf(x0), t, n)
    decreases n
  {
    HarmonicFits(|x0|);
    if n > 0 {
      Projection(x0, t, n - 1);
      PairStep(x0, t, n);
    }
  }

  /** Squared length of the pair. */
  function Energy(z: Pair): real {
    z.p * z.p + z.q * z.q
  }

  /** The factor by which one step of size dt scales the energy. */
  function Gain(dt: real): real {
    1.0 + dt * dt
  }

  /** One Euler step multiplies the energy of the pair by exactly
      Gain(dt) = 1 + dt * dt: explicit Euler spirals outward. */
  lemma TurnEnergy(z: Pair, dt: real)
    ensures Energy(Turn(z, dt)) == Gain(dt) * Energy(z)
  {
    var a, b := z.p, z.q;
    calc {
      Energy(Turn(z, dt));
      (a + b * dt) * (a + b * dt) + (b - a * dt) * (b - a * dt);
      a * a + b * b + (dt * dt) * (a * a + b * b);
      Gain(dt) * Energy(z);
    }
  }

  /** Components beyond the oscillating pair are never written by the
      callback, so they keep their initial values in every row. */
  lemma {:induction false} ExtraComponentsConstant(x0: Vec, t: seq<real>, n: nat)
    requires |x0| >= 2 && n < |t|
    ensures Fits(Harmonic, |x0|)
    ensures forall i :: 2 <= i < |x0| ==> State(Harmonic, x0, t, n)[i] == x0[i]
    decreases n
  {
    HarmonicFits(|x0|);
    if n > 0 {
      ExtraComponentsConstant(x0, t, n - 1);
      var prev := State(Harmonic, x0, t, n - 1);
      var d := Harmonic(prev, t[n - 1]);
      assert forall i :: 2 <= i < |x0| ==> d[i] == 0.0;
    }
  }

  /** The grid shifted by a constant offset. */
  function Shifted(t: seq<real>, c: real): (u: seq<real>)
    ensures |u| == |t|
  {
    seq(|t|, i requires 0 <= i < |t| => t[i] + c)
  }

  /** The callback ignores time, so only the step sizes matter: shifting
      every grid point by the same offset leaves the trajectory unchanged. */
  lemma {:induction false} TimeShift(x0: Vec, t: seq<real>, c: real, n: nat)
    requires |x0| >= 2 && n < |t|
    ensures Fits(Harmonic, |x0|)
    ensures State(Harmonic, x0, Shifted(t, c), n) == State(Harmonic, x0, t, n)
    decreases n
  {
    HarmonicFits(|x0|);
    if n > 0 {
      TimeShift(x0, t, c, n - 1);
      assert StepSize(Shifted(t, c), n) == StepSize(t, n);
    }
  }
}
