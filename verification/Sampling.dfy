/** The sampler of SmolVLA (flow_matching.py) as a numerical method: where its steps stand
    and where they lead. */
module Sampling {
  import opened CachedInference

  function Fraction(k: nat, steps: nat): real
    requires steps > 0
  {
    k as real / steps as real
  }

  lemma FractionTimes(k: nat, steps: nat)
    requires steps > 0
    ensures Fraction(k, steps) * steps as real == k as real
  {
  }

  /** A real number is fixed by what it gives times a positive one. */
  lemma Cancel(a: real, b: real, n: real)
    requires n > 0.0 && a * n == b * n
    ensures a == b
  {
    assert (a - b) * n == 0.0;
    if a - b > 0.0 { Positive(a - b, n); }
    if b - a > 0.0 { Positive(b - a, n); }
  }

  lemma Positive(a: real, b: real)
    requires a > 0.0 && b > 0.0
    ensures a * b > 0.0
  {
  }

  /** Step `k` of `n` starts at the time (n - k) / n: the first at 1, and the end of the last
      one is 0. */
  lemma Schedule(steps: nat, k: nat)
    requires steps > 0 && k <= steps
    ensures TimeAt(StepSize(steps), k) == Fraction(steps - k, steps)
    ensures StepSize(steps) == -Fraction(1, steps) && steps as real * StepSize(steps) == -1.0
    ensures k == 0 ==> TimeAt(StepSize(steps), k) == 1.0
    ensures k == steps ==> TimeAt(StepSize(steps), k) == 0.0
  {
    var n, dt := steps as real, StepSize(steps);
    FractionTimes(steps - k, steps);
    FractionTimes(1, steps);
    assert dt * n == -1.0;
    Cancel(dt, -Fraction(1, steps), n);
    ScheduleTimes(k as real, dt, n);
    Cancel(TimeAt(dt, k), Fraction(steps - k, steps), n);
  }

  lemma ScheduleTimes(k: real, dt: real, n: real)
    requires dt * n == -1.0
    ensures (1.0 + k * dt) * n == n - k
  {
    Regroup(k, dt, n);
  }

  lemma Regroup(a: real, b: real, c: real)
    ensures a * b * c == a * (b * c)
  {
  }

  /** The sampler walks along any chunks that follow each other by Euler steps of -1/n, from
      the time 1 on. */
  lemma {:induction false} Trajectory<X, V>(velocity: (X, real) -> V, advance: (X, real, V) -> X, xs: seq<X>,
                                            steps: nat, done: nat)
    requires steps > 0 && |xs| == steps + 1 && done <= steps
    requires forall k | 0 <= k < steps ::
               xs[k + 1] == advance(xs[k], -Fraction(1, steps), velocity(xs[k], Fraction(steps - k, steps)))
    ensures Integrate(velocity, advance, xs[0], steps, done) == xs[done]
    decreases done
  {
    hide Fraction, StepSize, TimeAt;
    if done == 0 {
    } else {
      Trajectory(velocity, advance, xs, steps, done - 1);
      Schedule(steps, done - 1);
      assert xs[done - 1 + 1] == xs[done];
    }
  }

  // On real numbers, an entry of the chunk at a time

  function Euler(): (real, real, real) -> real { (x: real, dt: real, v: real) => x + dt * v }

  /** A velocity that is always the same is subtracted once, however many steps there are. */
  lemma ConstantVelocity(x: real, v: real, steps: nat)
    requires steps > 0
    ensures Integrate((_: real, _: real) => v, Euler(), x, steps, steps) == x - v
  {
    ConstantUpTo(x, v, steps, steps);
    FractionTimes(steps, steps);
    Cancel(Fraction(steps, steps), 1.0, steps as real);
    assert Fraction(steps, steps) * v == v;
  }

  lemma {:induction false} ConstantUpTo(x: real, v: real, steps: nat, done: nat)
    requires steps > 0 && done <= steps
    ensures Integrate((_: real, _: real) => v, Euler(), x, steps, done) == x - Fraction(done, steps) * v
    decreases done
  {
    if done == 0 {
      assert Fraction(0, steps) == 0.0;
    } else {
      ConstantUpTo(x, v, steps, done - 1);
      Schedule(steps, 0);
      OneMore(done, steps);
      hide Fraction, StepSize, TimeAt;
      var one, was := Fraction(1, steps), Fraction(done - 1, steps);
      assert (was + one) * v == was * v + one * v;
    }
  }

  lemma OneMore(k: nat, steps: nat)
    requires steps > 0 && k > 0
    ensures Fraction(k, steps) == Fraction(k - 1, steps) + Fraction(1, steps)
  {
  }

  /** The velocity of the straight paths that the policy is trained on: at time t a path from
      the actions to the noise stands at t * noise + (1 - t) * actions and moves at
      noise - actions, which from there is (x - actions) / t. */
  function Straight(actions: real): (real, real) -> real {
    (x: real, t: real) => if t == 0.0 then 0.0 else (x - actions) / t
  }

  /** Along a straight path the sampler reaches the actions, from any noise and with any
      number of steps. */
  lemma ReachesActions(noise: real, actions: real, steps: nat)
    requires steps > 0
    ensures Integrate(Straight(actions), Euler(), noise, steps, steps) == actions
  {
    OnThePath(noise, actions, steps, steps);
    assert Fraction(0, steps) == 0.0;
    hide Integrate, Straight, Fraction;
  }

  function PathAt(noise: real, actions: real, t: real): real { t * noise + (1.0 - t) * actions }

  lemma IntegrateStep<X, V>(velocity: (X, real) -> V, advance: (X, real, V) -> X, x: X, steps: nat, done: nat)
    requires 0 < done <= steps
    ensures var was := Integrate(velocity, advance, x, steps, done - 1);
            Integrate(velocity, advance, x, steps, done) ==
            advance(was, -Fraction(1, steps), velocity(was, Fraction(steps - (done - 1), steps)))
  {
    hide Fraction, StepSize, TimeAt;
    Schedule(steps, done - 1);
  }

  lemma {:induction false} OnThePath(noise: real, actions: real, steps: nat, done: nat)
    requires steps > 0 && done <= steps
    ensures Integrate(Straight(actions), Euler(), noise, steps, done) ==
            PathAt(noise, actions, Fraction(steps - done, steps))
    decreases done
  {
    hide Fraction, StepSize, TimeAt, Integrate, PathAt, Straight;
    if done == 0 {
      PathStart(noise, actions, steps);
    } else {
      OnThePath(noise, actions, steps, done - 1);
      IntegrateStep(Straight(actions), Euler(), noise, steps, done);
      OneMore(steps - (done - 1), steps);
      NotZero(steps - (done - 1), steps);
      PathStep(noise, actions, Fraction(steps - (done - 1), steps), Fraction(1, steps));
    }
  }

  lemma PathStart(noise: real, actions: real, steps: nat)
    requires steps > 0
    ensures Integrate(Straight(actions), Euler(), noise, steps, 0) == PathAt(noise, actions, Fraction(steps - 0, steps))
  {
    FractionTimes(steps, steps);
    Cancel(Fraction(steps, steps), 1.0, steps as real);
  }

  lemma NotZero(k: nat, steps: nat)
    requires steps > 0 && k > 0
    ensures Fraction(k, steps) != 0.0
  {
    FractionTimes(k, steps);
  }

  lemma PathStep(noise: real, actions: real, t: real, d: real)
    requires t != 0.0
    ensures var x := PathAt(noise, actions, t);
            Euler()(x, -d, Straight(actions)(x, t)) == PathAt(noise, actions, t - d)
  {
    var x := PathAt(noise, actions, t);
    assert x - actions == t * (noise - actions);
    Undo(t, noise - actions, x - actions);
    assert (t - d) * noise == t * noise - d * noise;
    assert (1.0 - (t - d)) * actions == (1.0 - t) * actions + d * actions;
    assert -d * (noise - actions) == -(d * noise) + d * actions;
  }

  lemma Undo(t: real, v: real, a: real)
    requires t != 0.0 && a == t * v
    ensures a / t == v
  {
  }
}
