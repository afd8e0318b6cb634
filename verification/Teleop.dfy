/** Mirroring a leader arm onto a follower (mirror.py): the projection of the leader's
    position onto the follower's arc, and the overload protection of one motor.
    Percentages are exact; truncation is written out. */
module Teleop {
  import opened Options
  import opened Bits

  datatype Config = Config(deadband: int, margin: nat, minSpeed: int, maxSpeed: int, minAccel: int, maxAccel: int,
                           steps: nat)

  datatype Direction = Positive | Negative

  datatype Motor = Motor(present: nat, target: int, rangeMin: nat, rangeMax: nat, status: nat, current: int,
                         speed: int, accel: int)

  datatype Command = Command(goal: int, speed: Option<int>, accel: Option<int>)

  /** `int(x)` */
  function Trunc(x: real): int { if x >= 0.0 then x.Floor else -((-x).Floor) }

  // Arcs

  /** get_steps_range */
  function StepsRange(min: nat, max: nat, steps: nat): int {
    if max >= min then max - min else (steps - min) + max
  }

  /** The steps from the start of the arc to a position, or to the nearer end of it. */
  function Relative(position: nat, min: nat, max: nat, steps: nat): int {
    var size := StepsRange(min, max, steps);
    if max >= min then
      if position < min then 0 else if position > max then size else position - min
    else if position >= min then position - min
    else if position <= max then (steps - min) + position
    else if min - position < position - max then 0 else size
  }

  /** normalize_position */
  function Percent(position: nat, min: nat, max: nat, steps: nat): (pct: real)
    ensures 0.0 <= pct <= 100.0
  {
    var size := StepsRange(min, max, steps);
    if size == 0 then 50.0
    else
      var pct := (Relative(position, min, max, steps) as real / size as real) * 100.0;
      if pct > 100.0 then 100.0 else if pct < 0.0 then 0.0 else pct
  }

  function Offset(pct: real, usable: nat): int { Trunc(pct / 100.0 * usable as real) }

  /** The position asked of the follower; None when its arc has no room for the margins. */
  function Goal(leader: Motor, follower: Motor, c: Config): Option<int>
    requires c.steps > 0
  {
    var range := StepsRange(follower.rangeMin, follower.rangeMax, c.steps);
    if range < c.margin * 2 then None
    else Some((follower.rangeMin + GoalOffset(leader, range, c)) % c.steps)
  }

  function GoalOffset(leader: Motor, range: int, c: Config): int
    requires c.steps > 0 && range >= c.margin * 2
  {
    Offset(Percent(leader.present, leader.rangeMin, leader.rangeMax, c.steps), range - c.margin * 2) + c.margin
  }

  lemma ScaleBounds(f: real, n: real)
    requires 0.0 <= f <= 1.0 && n >= 0.0
    ensures 0.0 <= f * n <= n
  {
    assert f * n <= 1.0 * n;
  }

  lemma OffsetBounds(pct: real, usable: nat)
    requires 0.0 <= pct <= 100.0
    ensures 0 <= Offset(pct, usable) <= usable
  {
    ScaleBounds(pct / 100.0, usable as real);
    var x := pct / 100.0 * usable as real;
    assert 0.0 <= x <= usable as real;
  }

  lemma RealQuotient(a: nat, b: nat)
    requires b > 0
    ensures (a as real / b as real).Floor == a / b
  {
    var q, r := a / b, a % b;
    assert a == q * b + r;
    var x := r as real / b as real;
    assert 0.0 <= x < 1.0;
    assert a as real == q as real * b as real + r as real;
    assert a as real / b as real == q as real + x;
  }

  lemma RealRearrange(a: real, b: real, n: real)
    requires b > 0.0
    ensures a / b * 100.0 / 100.0 * n == a * n / b
  {
    var f := a / b;
    assert f * b == a;
    assert f * n * b == a * n;
    assert f * 100.0 / 100.0 == f;
  }

  /** On a proper arc the offset is the exact proportion, rounded down. */
  lemma OffsetIs(position: nat, min: nat, max: nat, steps: nat, usable: nat)
    requires min < steps && max < steps && position < steps && min != max
    ensures var size, at := StepsRange(min, max, steps), Relative(position, min, max, steps);
            0 <= at <= size && size > 0 && at * usable >= 0 &&
            Offset(Percent(position, min, max, steps), usable) == at * usable / size
  {
    var size, at := StepsRange(min, max, steps), Relative(position, min, max, steps);
    assert 0 <= at <= size && size > 0;
    hide Relative, StepsRange;
    Proportion(at, size, usable);
    Ratio(at, size);
    hide Offset;
  }

  lemma Ratio(a: nat, b: nat)
    requires a <= b && b > 0
    ensures 0.0 <= a as real / b as real * 100.0 <= 100.0
  {
    var f := a as real / b as real;
    assert 0.0 <= f <= 1.0;
  }

  lemma TruncQuotient(a: nat, b: nat)
    requires b > 0
    ensures Trunc(a as real / b as real) == a / b
  {
    RealQuotient(a, b);
    assert a as real / b as real >= 0.0;
  }

  lemma RealProduct(a: nat, b: nat)
    ensures a as real * b as real == (a * b) as real
  {
  }

  lemma Proportion(at: nat, size: nat, usable: nat)
    requires at <= size && size > 0
    ensures at * usable >= 0 && Offset(at as real / size as real * 100.0, usable) == at * usable / size
  {
    Product(at, usable);
    RealProduct(at, usable);
    RealRearrange(at as real, size as real, usable as real);
    TruncQuotient(at * usable, size);
    hide Trunc;
  }

  function Clockwise(a: int, b: int, steps: nat): nat
    requires steps > 0
  {
    (b - a) % steps
  }

  /** The goal lies at least the margin inside both ends of the follower's arc. */
  lemma GoalInside(leader: Motor, follower: Motor, c: Config)
    requires c.steps > 0 && Goal(leader, follower, c).Some?
    ensures var goal, min, max := Goal(leader, follower, c).value, follower.rangeMin, follower.rangeMax;
            var range := StepsRange(min, max, c.steps);
            var off := GoalOffset(leader, range, c);
            c.margin <= off <= range - c.margin && goal == (min + off) % c.steps && 0 <= goal < c.steps &&
            (range < c.steps ==> Clockwise(min, goal, c.steps) == off && Clockwise(goal, max, c.steps) == range - off)
  {
    var min, max := follower.rangeMin, follower.rangeMax;
    var range := StepsRange(min, max, c.steps);
    var off := GoalOffset(leader, range, c);
    OffsetBounds(Percent(leader.present, leader.rangeMin, leader.rangeMax, c.steps), range - c.margin * 2);
    hide GoalOffset, Clockwise;
    if range < c.steps {
      Turns(min, off, c.steps);
      TurnsTo(min, off, max, range, c.steps);
    }
  }

  lemma Turns(a: int, d: nat, steps: nat)
    requires steps > 0 && d < steps
    ensures Clockwise(a, (a + d) % steps, steps) == d
  {
    var q := (a + d) / steps;
    assert (a + d) % steps == a + d - q * steps;
    ModIs(d - q * steps, -q, d, steps);
  }

  lemma TurnsTo(a: int, d: nat, max: int, range: int, steps: nat)
    requires steps > 0 && d <= range < steps && (max == a + range || max == a + range - steps)
    ensures Clockwise((a + d) % steps, max, steps) == range - d
  {
    var q := (a + d) / steps;
    assert (a + d) % steps == a + d - q * steps;
    var k := if max == a + range then q else q - 1;
    assert k * steps == q * steps - (if max == a + range then 0 else steps);
    ModIs(max - (a + d) % steps, k, range - d, steps);
  }

  lemma ModIs(x: int, q: int, r: int, m: nat)
    requires m > 0 && x == q * m + r && 0 <= r < m
    ensures x % m == r
  {
    ModUnique(x, m, q, r);
  }

  // Speed

  /** shortest_distance */
  function ShortestDistance(a: int, b: int, steps: nat): int {
    var d := Abs(a - b);
    if d > steps / 2 then steps - d else d
  }

  lemma ShortestIs(a: nat, b: nat, steps: nat)
    requires a < steps && b < steps
    ensures var d, there, back := ShortestDistance(a, b, steps), Clockwise(a, b, steps), Clockwise(b, a, steps);
            d == (if there <= back then there else back) && 0 <= d <= steps / 2
  {
    ModIs(b - a, if b >= a then 0 else -1, if b >= a then b - a else b - a + steps, steps);
    ModIs(a - b, if a >= b then 0 else -1, if a >= b then a - b else a - b + steps, steps);
  }

  /** One of the two laws of speed_and_accel_for_distance. */
  function Proportional(distance: int, low: int, high: int, steps: nat): int
    requires steps > 0
  {
    Trunc(distance as real / (steps as real / 2.0) * (high - low) as real) + low
  }

  lemma NotNegative(q: real, b: real)
    requires b > 0.0 && q * b >= 0.0
    ensures q >= 0.0
  {
  }

  lemma Share(a: real, b: real)
    requires 0.0 <= a <= b && b > 0.0
    ensures 0.0 <= a / b <= 1.0
  {
    var q := a / b;
    assert q * b == a;
    assert (1.0 - q) * b == b - a;
    NotNegative(q, b);
    NotNegative(1.0 - q, b);
  }

  lemma TruncBounds(x: real, n: nat)
    requires 0.0 <= x <= n as real
    ensures 0 <= Trunc(x) <= n
  {
  }

  lemma ProportionalBounds(distance: nat, low: int, high: int, steps: nat)
    requires steps > 0 && distance <= steps / 2 && low <= high
    ensures low <= Proportional(distance, low, high, steps) <= high
  {
    var share := distance as real / (steps as real / 2.0);
    assert distance as real <= steps as real / 2.0;
    Share(distance as real, steps as real / 2.0);
    ScaleBounds(share, (high - low) as real);
    hide Trunc;
    TruncBounds(share * (high - low) as real, high - low);
  }
}
