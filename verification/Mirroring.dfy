/** What the follower is asked to do, in terms of positions on the circle: where the goal
    lies, which end a leader off its arc stands for, how fast to go, and when a command
    is given at all (mirror.py). */
module Mirroring {
  import opened Bits
  import opened Options
  import opened Teleop
  import opened Protection

  // Where the goal lies

  predicate ProperArc(m: Motor, steps: nat) { m.rangeMin < steps && m.rangeMax < steps }

  /** The goal lies this far into the part of the follower's arc that the margins leave. */
  predicate Aims(leader: Motor, follower: Motor, c: Config, part: int)
    requires c.steps > 0
  {
    Goal(leader, follower, c) == Some((follower.rangeMin + c.margin + part) % c.steps)
  }

  /** A leader off its arc stands for the start of it. */
  predicate AtStart(leader: Motor, steps: nat)
    requires steps > 0
  {
    if leader.rangeMin <= leader.rangeMax then leader.present < leader.rangeMin
    else Clockwise(leader.present, leader.rangeMin, steps) < Clockwise(leader.rangeMax, leader.present, steps)
  }

  lemma ClockwiseIs(a: nat, b: nat, steps: nat)
    requires a < steps && b < steps
    ensures Clockwise(a, b, steps) == if b >= a then b - a else steps - a + b
  {
    ModIs(b - a, if b >= a then 0 else -1, if b >= a then b - a else b - a + steps, steps);
  }

  lemma Halves(usable: nat)
    ensures Offset(50.0, usable) == usable / 2
  {
    TruncQuotient(usable, 2);
    assert 50.0 / 100.0 * usable as real == usable as real / 2.0;
  }

  /** The steps on the leader's arc that `Percent` counts, read on the circle. */
  lemma CountedSteps(l: Motor, steps: nat)
    requires ProperArc(l, steps) && l.present < steps && l.rangeMin != l.rangeMax
    ensures var width, at := Clockwise(l.rangeMin, l.rangeMax, steps), Clockwise(l.rangeMin, l.present, steps);
            StepsRange(l.rangeMin, l.rangeMax, steps) == width > 0 &&
            Relative(l.present, l.rangeMin, l.rangeMax, steps) ==
            if at <= width then at else if AtStart(l, steps) then 0 else width
  {
    ClockwiseIs(l.rangeMin, l.rangeMax, steps);
    ClockwiseIs(l.rangeMin, l.present, steps);
    ClockwiseIs(l.present, l.rangeMin, steps);
    ClockwiseIs(l.rangeMax, l.present, steps);
    hide Clockwise;
  }

  lemma OffsetOnCircle(l: Motor, steps: nat, usable: nat)
    requires ProperArc(l, steps) && l.present < steps
    ensures var width, at := Clockwise(l.rangeMin, l.rangeMax, steps), Clockwise(l.rangeMin, l.present, steps);
            Offset(Percent(l.present, l.rangeMin, l.rangeMax, steps), usable) ==
            if width == 0 then usable / 2
            else if at <= width then at * usable / width
            else if AtStart(l, steps) then 0 else usable
  {
    ClockwiseIs(l.rangeMin, l.rangeMax, steps);
    if l.rangeMin == l.rangeMax {
      hide Offset, Clockwise;
      Halves(usable);
    } else {
      hide Offset, Clockwise, Percent;
      CountedSteps(l, steps);
      OffsetIs(l.present, l.rangeMin, l.rangeMax, steps, usable);
      hide Relative, StepsRange, AtStart;
      var width, at := Clockwise(l.rangeMin, l.rangeMax, steps), Clockwise(l.rangeMin, l.present, steps);
      if at > width { WholeShare(width, usable); }
    }
  }

  lemma WholeShare(width: nat, usable: nat)
    requires width > 0
    ensures 0 * usable / width == 0 && width * usable / width == usable
  {
    DivUnique(width * usable, width, usable, 0);
  }

  lemma DivUnique(x: int, m: nat, q: int, r: int)
    requires m > 0 && x == m * q + r && 0 <= r < m
    ensures x / m == q
  {
    ModUnique(x, m, q, r);
  }

  /** Where the goal lies, for every leader and follower arc on the circle: nowhere when
      the margins do not fit, the same share of both arcs for a leader on its arc, one of
      the ends for a leader off it, and half way for a leader without an arc. */
  lemma GoalExactly(leader: Motor, follower: Motor, c: Config)
    requires ProperArc(leader, c.steps) && ProperArc(follower, c.steps) && leader.present < c.steps
    ensures var room := Clockwise(follower.rangeMin, follower.rangeMax, c.steps) - 2 * c.margin;
            var width := Clockwise(leader.rangeMin, leader.rangeMax, c.steps);
            var at := Clockwise(leader.rangeMin, leader.present, c.steps);
            (room < 0 ==> Goal(leader, follower, c) == None) &&
            (room >= 0 ==>
               (width == 0 ==> Aims(leader, follower, c, room / 2)) &&
               (0 < width && at <= width ==> Aims(leader, follower, c, at * room / width)) &&
               (0 < width < at && AtStart(leader, c.steps) ==> Aims(leader, follower, c, 0)) &&
               (0 < width < at && !AtStart(leader, c.steps) ==> Aims(leader, follower, c, room)))
  {
    ClockwiseIs(follower.rangeMin, follower.rangeMax, c.steps);
    var room := Clockwise(follower.rangeMin, follower.rangeMax, c.steps) - 2 * c.margin;
    if room >= 0 { OffsetOnCircle(leader, c.steps, room); }
    hide Offset, Percent, Clockwise, AtStart;
  }

  /** The end the goal is taken from is as near as the other one. */
  predicate Nearest(leader: Motor, steps: nat)
    requires steps > 0
  {
    var toStart := Clockwise(leader.present, leader.rangeMin, steps);
    var toEnd := Clockwise(leader.rangeMax, leader.present, steps);
    if AtStart(leader, steps) then toStart <= toEnd else toEnd <= toStart
  }

  /** A leader off its arc is sent to the nearest end exactly when the arc wraps, or the
      shorter way to an end does not cross the encoder's zero. */
  lemma NearestExactly(leader: Motor, steps: nat)
    requires ProperArc(leader, steps) && leader.present < steps
    requires Clockwise(leader.rangeMin, leader.present, steps) > Clockwise(leader.rangeMin, leader.rangeMax, steps) > 0
    ensures Nearest(leader, steps) <==>
            leader.rangeMin > leader.rangeMax ||
            -(steps as int) <= 2 * leader.present - (leader.rangeMin + leader.rangeMax) <= steps
  {
    ClockwiseIs(leader.rangeMin, leader.rangeMax, steps);
    ClockwiseIs(leader.rangeMin, leader.present, steps);
    ClockwiseIs(leader.present, leader.rangeMin, steps);
    ClockwiseIs(leader.rangeMax, leader.present, steps);
    hide Clockwise;
  }

  /** A leader 16 steps short of the start of its arc sends the follower to the far end. */
  lemma FarEnd(leader: Motor, follower: Motor, c: Config)
    requires c.steps == 4096 && c.margin == 20
    requires leader.rangeMin == 10 && leader.rangeMax == 1000 && leader.present == 4090
    requires follower.rangeMin == 10 && follower.rangeMax == 1000
    ensures Clockwise(leader.present, leader.rangeMin, c.steps) == 16
    ensures Goal(leader, follower, c) == Some(980)
  {
    GoalExactly(leader, follower, c);
    hide Goal;
  }

  // How fast to go

  /** The share of the way round in half circles, of the span between the limits, cut
      towards the low one. */
  lemma ProportionalIs(distance: nat, low: int, high: int, steps: nat)
    requires steps > 0
    ensures Proportional(distance, low, high, steps) ==
            if high >= low then low + 2 * distance * (high - low) / steps
            else low - 2 * distance * (low - high) / steps
  {
    var span: nat := if high >= low then high - low else low - high;
    ShareIs(distance, span, steps);
    if high < low {
      var share := distance as real / (steps as real / 2.0);
      Negated(share, high - low);
      hide Trunc;
    }
  }

  /** The share of a span. */
  lemma ShareIs(distance: nat, span: nat, steps: nat)
    requires steps > 0
    ensures distance as real / (steps as real / 2.0) * span as real >= 0.0
    ensures Trunc(distance as real / (steps as real / 2.0) * span as real) == 2 * distance * span / steps
  {
    Product(2 * distance, span);
    RealShare(distance, span, steps);
    TruncQuotient(2 * distance * span, steps);
    NotNegative((2 * distance * span) as real / steps as real, steps as real);
    hide Trunc;
  }

  lemma Negated(share: real, span: int)
    requires share * (-span) as real >= 0.0
    ensures Trunc(share * span as real) == -Trunc(share * (-span) as real)
  {
    assert share * span as real == -(share * (-span) as real);
    TruncNegated(share * (-span) as real);
  }

  lemma TruncNegated(x: real)
    requires x >= 0.0
    ensures Trunc(-x) == -Trunc(x)
  {
  }

  lemma RealShare(d: nat, span: nat, steps: nat)
    requires steps > 0
    ensures d as real / (steps as real / 2.0) * span as real == (2 * d * span) as real / steps as real
  {
    var q := d as real / (steps as real / 2.0);
    assert q * (steps as real / 2.0) == d as real;
    assert q * steps as real == (2 * d) as real;
    RealProduct(2 * d, span);
    Cancel(q, span as real, steps as real, (2 * d) as real);
  }

  lemma Cancel(q: real, n: real, b: real, a: real)
    requires b > 0.0 && q * b == a
    ensures q * n == a * n / b
  {
    assert (q * n) * b == a * n;
  }

  // When a command is given

  predicate Proper(t: Tick, c: Config) {
    ProperArc(t.leader, c.steps) && ProperArc(t.follower, c.steps) &&
    t.leader.present < c.steps && t.follower.present < c.steps
  }

  /** Both motors have reported, the leader has no fault but under-voltage, and the
      margins fit. */
  predicate Heard(t: Tick, c: Config)
    requires c.steps > 0
  {
    (t.leader.status == 0 || t.leader.status == 1) && t.leader.present > 0 && t.follower.present > 0 &&
    Clockwise(t.follower.rangeMin, t.follower.rangeMax, c.steps) >= 2 * c.margin
  }

  /** The goal lies on the other side of the follower than the blocked direction. */
  predicate TurnsBack(f: Motor, goal: int, blocked: Option<Direction>) {
    (blocked == Some(Positive) && goal < f.present) || (blocked == Some(Negative) && goal > f.present)
  }

  predicate Over(t: Tick, s: Limits) { 0 < s.threshold <= t.follower.current }

  lemma HeardIs(t: Tick, s: Limits)
    requires Proper(t, s.config)
    ensures Live(t, s) <==> Heard(t, s.config)
    ensures Heard(t, s.config) ==>
              Goal(t.leader, t.follower, s.config).Some? &&
              0 <= Goal(t.leader, t.follower, s.config).value < s.config.steps
  {
    var c := s.config;
    ClockwiseIs(t.follower.rangeMin, t.follower.rangeMax, c.steps);
    hide Clockwise, GoalOffset;
  }

  /** Nothing is sent, and nothing changes, on a tick that is not heard. */
  lemma Unheard(p: State, t: Tick, s: Limits)
    requires Proper(t, s.config) && !Heard(t, s.config)
    ensures Output(p, t, s) == None && Next(p, t, s) == p
  {
    hide *;
    HeardIs(t, s);
    NotLive(p, t, s);
  }

  lemma NotLive(p: State, t: Tick, s: Limits)
    requires !Live(t, s)
    ensures Output(p, t, s) == None && Next(p, t, s) == p
  {
    hide Live;
  }

  /** Under overload the only command is to stay, given when the present target is away
      from the position. A block begins away from the remembered position. */
  lemma UnderOverload(p: State, t: Tick, s: Limits)
    requires Proper(t, s.config) && Heard(t, s.config) && Over(t, s)
    ensures var c, f, next := s.config, t.follower, Next(p, t, s);
            Output(p, t, s) == (if -c.deadband <= f.target - f.present <= c.deadband then None
                                else Some(Command(f.present, None, None))) &&
            next.previous == p.previous &&
            next.blocked == if p.blocked.Some? || f.present == p.previous then p.blocked
                            else if f.present > p.previous then Some(Positive) else Some(Negative)
  {
    HeardIs(t, s);
    hide Live, Heard, Goal;
  }

  /** The block refuses unless the goal is on the other side, where it ends. */
  lemma BlockTells(p: State, t: Tick, s: Limits)
    requires Live(t, s) && !Over(t, s)
    ensures var back := TurnsBack(t.follower, Goal(t.leader, t.follower, s.config).value, p.blocked);
            !Overloaded(t, s) && Next(p, t, s).blocked == NextBlocked(p, t, s) &&
            NextBlocked(p, t, s) == (if back && s.threshold > 0 then None else p.blocked) &&
            (Refused(p, t, s) <==> p.blocked.Some? && !back)
  {
    hide Goal, Moves;
    assert p.blocked.Some? ==> p.blocked.value == Positive || p.blocked.value == Negative;
  }

  /** Without overload: a moving command is given exactly when the block, if any, is on
      the other side, and the goal is away from the position, either way round, and from
      the present target. A block ends with a goal on the other side, if the motor is
      protected; the position is remembered by a moving command and by a refusal. */
  lemma Unhindered(p: State, t: Tick, s: Limits)
    requires Proper(t, s.config) && Heard(t, s.config) && !Over(t, s)
    ensures Goal(t.leader, t.follower, s.config).Some?
    ensures var c, f, out, next := s.config, t.follower, Output(p, t, s), Next(p, t, s);
            var goal := Goal(t.leader, f, c).value;
            var back := TurnsBack(f, goal, p.blocked);
            (out.Some? <==>
               (p.blocked == None || back) &&
               Clockwise(f.present, goal, c.steps) > c.deadband &&
               Clockwise(goal, f.present, c.steps) > c.deadband &&
               !(-c.deadband <= f.target - goal <= c.deadband)) &&
            next.blocked == (if back && s.threshold > 0 then None else p.blocked) &&
            next.previous == if out.Some? || (p.blocked.Some? && !back) then f.present else p.previous
  {
    HeardIs(t, s);
    BlockTells(p, t, s);
    var goal := Goal(t.leader, t.follower, s.config).value;
    ShortestIs(t.follower.present, goal, s.config.steps);
    hide Live, Heard, Goal, Clockwise, ShortestDistance, Refused, Overloaded, NextBlocked, MoveCommand, TurnsBack;
  }

  /** A moving command goes to the goal, with the speed and the acceleration that belong
      to the shorter way there, each left out when in force already. */
  lemma MoveIs(p: State, t: Tick, s: Limits)
    requires Proper(t, s.config) && Output(p, t, s).Some? && !Over(t, s)
    requires s.config.minSpeed <= s.config.maxSpeed && s.config.minAccel <= s.config.maxAccel
    ensures var c, f, cmd := s.config, t.follower, Output(p, t, s).value;
            Goal(t.leader, f, c) == Some(cmd.goal) &&
            var there, back := Clockwise(f.present, cmd.goal, c.steps), Clockwise(cmd.goal, f.present, c.steps);
            var way := if there <= back then there else back;
            var speed := c.minSpeed + 2 * way * (c.maxSpeed - c.minSpeed) / c.steps;
            var accel := c.minAccel + 2 * way * (c.maxAccel - c.minAccel) / c.steps;
            cmd.speed == (if f.speed == speed then None else Some(speed)) &&
            cmd.accel == (if f.accel == accel then None else Some(accel))
  {
    hide Heard, Clockwise, GoalOffset, ShortestDistance, Proportional;
    HeardIs(t, s);
    var c, goal := s.config, Goal(t.leader, t.follower, s.config).value;
    hide Goal;
    ShortestIs(t.follower.present, goal, c.steps);
    var way := ShortestDistance(t.follower.present, goal, c.steps);
    ProportionalIs(way, c.minSpeed, c.maxSpeed, c.steps);
    ProportionalIs(way, c.minAccel, c.maxAccel, c.steps);
  }
}
