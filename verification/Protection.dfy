/** Overload protection of one follower motor over a run of ticks, and the table of
    the protection states of all motors (mirror.py). */
module Protection {
  import opened Bits
  import opened Options
  import opened Teleop

  datatype Tick = Tick(leader: Motor, follower: Motor)

  /** The configuration in force for a motor, with its current threshold. */
  datatype Setup = Setup(config: Config, threshold: int)

  type Limits = s: Setup | s.config.steps > 0 witness Setup(Config(20, 20, 300, 3300, 5, 100, 4096), 100)

  datatype State = State(blocked: Option<Direction>, previous: nat)

  const FRESH := State(None, 0)

  // What a tick means

  /** The tick is acted on: no fault but under-voltage (bit 0), both positions
      reported, and room for the margins. */
  predicate Live(t: Tick, s: Limits) {
    t.leader.status / 2 == 0 && t.leader.present != 0 && t.follower.present != 0 &&
    Goal(t.leader, t.follower, s.config).Some?
  }

  function Towards(from: int, to: int): Option<Direction> {
    if to > from then Some(Positive) else if to < from then Some(Negative) else None
  }

  /** The direction in which the leader asks the follower to move. */
  function Asked(t: Tick, s: Limits): Option<Direction>
    requires Live(t, s)
  {
    Towards(t.follower.present, Goal(t.leader, t.follower, s.config).value)
  }

  predicate Overloaded(t: Tick, s: Limits) {
    Live(t, s) && s.threshold > 0 && t.follower.current >= s.threshold
  }

  /** Normal current, and the leader asks for the other direction. */
  predicate Releases(t: Tick, s: Limits, d: Direction) {
    Live(t, s) && s.threshold > 0 && t.follower.current < s.threshold &&
    Asked(t, s).Some? && Asked(t, s).value != d
  }

  function NextBlocked(p: State, t: Tick, s: Limits): Option<Direction> {
    if p.blocked.None? then if Overloaded(t, s) then Towards(p.previous, t.follower.present) else None
    else if Releases(t, s, p.blocked.value) then None
    else p.blocked
  }

  /** A live tick of normal current that the block refuses. */
  predicate Refused(p: State, t: Tick, s: Limits) {
    Live(t, s) && !Overloaded(t, s) &&
    NextBlocked(p, t, s).Some? && Asked(t, s) in {None, NextBlocked(p, t, s)}
  }

  /** A moving command: live, normal current, not refused, and far enough from both the
      position and the present target. */
  predicate Moves(p: State, t: Tick, s: Limits) {
    Live(t, s) && !Overloaded(t, s) && !Refused(p, t, s) &&
    var goal := Goal(t.leader, t.follower, s.config).value;
    ShortestDistance(t.follower.present, goal, s.config.steps) > s.config.deadband &&
    Abs(t.follower.target - goal) > s.config.deadband
  }

  function Hold(f: Motor): Command { Command(f.present, None, None) }

  function Unless(value: int, now: int): Option<int> { if value != now then Some(value) else None }

  function MoveCommand(t: Tick, s: Limits): Command
    requires Live(t, s)
  {
    var c, f := s.config, t.follower;
    var goal := Goal(t.leader, f, c).value;
    var d := ShortestDistance(f.present, goal, c.steps);
    Command(goal, Unless(Proportional(d, c.minSpeed, c.maxSpeed, c.steps), f.speed),
            Unless(Proportional(d, c.minAccel, c.maxAccel, c.steps), f.accel))
  }

  function Output(p: State, t: Tick, s: Limits): Option<Command> {
    if Moves(p, t, s) then Some(MoveCommand(t, s))
    else if Overloaded(t, s) && Abs(t.follower.target - t.follower.present) > s.config.deadband then
      Some(Hold(t.follower))
    else None
  }

  function Next(p: State, t: Tick, s: Limits): State {
    State(NextBlocked(p, t, s), if Moves(p, t, s) || Refused(p, t, s) then t.follower.present else p.previous)
  }

  // The program

  class ProtectionState {
    var blocked: Option<Direction>
    var previous: nat

    constructor ()
      ensures Now() == FRESH
    {
      blocked, previous := None, 0;
    }

    function Now(): State
      reads this
    {
      State(blocked, previous)
    }

    /** compute_motor_command */
    method Compute(leader: Motor, follower: Motor, s: Limits) returns (cmd: Option<Command>)
      modifies this
      ensures Now() == Next(old(Now()), Tick(leader, follower), s)
      ensures cmd == Output(old(Now()), Tick(leader, follower), s)
    {
      hide Offset, Percent, StepsRange, ShortestDistance, Proportional, GoalOffset;
      var c := s.config;
      if leader.status / 2 != 0 { return None; }
      if leader.present == 0 || follower.present == 0 { return None; }
      var range := StepsRange(follower.rangeMin, follower.rangeMax, c.steps);
      if range < c.margin * 2 { return None; }
      var goal := (follower.rangeMin + GoalOffset(leader, range, c)) % c.steps;
      var asked := if goal > follower.present then Some(Positive)
                   else if goal < follower.present then Some(Negative) else None;
      if s.threshold > 0 {
        if follower.current >= s.threshold {
          if blocked.None? && previous != follower.present {
            if follower.present > previous {
              blocked := Some(Positive);
            } else {
              blocked := Some(Negative);
            }
          }
          if Abs(follower.target - follower.present) > c.deadband {
            return Some(Command(follower.present, None, None));
          }
          return None;
        }
        if blocked.Some? && asked.Some? && asked != blocked {
          blocked := None;
        }
      }
      if blocked.Some? {
        if asked.None? || asked == blocked {
          previous := follower.present;
          return None;
        }
      }
      var distance := ShortestDistance(follower.present, goal, c.steps);
      if distance <= c.deadband { return None; }
      if Abs(follower.target - goal) <= c.deadband { return None; }
      var speed, accel := Proportional(distance, c.minSpeed, c.maxSpeed, c.steps),
                          Proportional(distance, c.minAccel, c.maxAccel, c.steps);
      cmd := Some(Command(goal, if speed != follower.speed then Some(speed) else None,
                          if accel != follower.accel then Some(accel) else None));
      previous := follower.present;
    }
  }

  // One tick

  /** What a command may be: a hold of the present position under overload, or a move to
      a goal inside the margins, with speed and acceleration, where given, within the
      configured limits and different from those in force. */
  lemma CommandIsSafe(p: State, t: Tick, s: Limits)
    requires Output(p, t, s).Some?
    requires t.follower.present < s.config.steps
    requires s.config.minSpeed <= s.config.maxSpeed && s.config.minAccel <= s.config.maxAccel
    ensures var cmd, c, f := Output(p, t, s).value, s.config, t.follower;
            if Overloaded(t, s) then cmd == Hold(f)
            else
              var range := StepsRange(f.rangeMin, f.rangeMax, c.steps);
              range >= c.margin * 2 &&
              var off := GoalOffset(t.leader, range, c);
              c.margin <= off <= range - c.margin && cmd.goal == (f.rangeMin + off) % c.steps &&
              (range < c.steps ==> Clockwise(f.rangeMin, cmd.goal, c.steps) == off &&
                                   Clockwise(cmd.goal, f.rangeMax, c.steps) == range - off) &&
              (cmd.speed.Some? ==> c.minSpeed <= cmd.speed.value <= c.maxSpeed && cmd.speed.value != f.speed) &&
              (cmd.accel.Some? ==> c.minAccel <= cmd.accel.value <= c.maxAccel && cmd.accel.value != f.accel)
  {
    var c, f := s.config, t.follower;
    if Moves(p, t, s) {
      GoalInside(t.leader, f, c);
      hide GoalOffset, StepsRange, Clockwise, Proportional, ShortestDistance;
      var goal := Goal(t.leader, f, c).value;
      ShortestIs(f.present, goal, c.steps);
      var d := ShortestDistance(f.present, goal, c.steps);
      ProportionalBounds(d, c.minSpeed, c.maxSpeed, c.steps);
      ProportionalBounds(d, c.minAccel, c.maxAccel, c.steps);
    }
  }

  /** Once a direction is blocked, a tick that does not release it keeps the block, and
      its command, if any, holds the present position. A release drops the block, and
      its command, if any, moves the other way. */
  lemma BlockedTick(p: State, t: Tick, s: Limits)
    requires p.blocked.Some? && s.threshold > 0
    ensures var d := p.blocked.value;
            if Releases(t, s, d) then
              Next(p, t, s).blocked == None &&
              (Output(p, t, s).Some? ==>
                 Towards(t.follower.present, Output(p, t, s).value.goal) == Asked(t, s) != p.blocked)
            else
              Next(p, t, s).blocked == p.blocked &&
              HoldsOrNothing(Output(p, t, s), t.follower)
  {
    hide Offset, Percent, StepsRange, ShortestDistance, Proportional, Goal;
  }

  predicate HoldsOrNothing(cmd: Option<Command>, f: Motor) {
    cmd.Some? ==> cmd.value == Hold(f)
  }

  // Whole runs

  function Run(p: State, h: seq<Tick>, s: Limits): State {
    if h == [] then p else Next(Run(p, h[..|h| - 1], s), h[|h| - 1], s)
  }

  predicate HoldsAt(p: State, h: seq<Tick>, s: Limits, i: nat)
    requires i < |h|
  {
    HoldsOrNothing(Output(Run(p, h[..i], s), h[i], s), h[i].follower)
  }

  lemma RunNext(p: State, g: seq<Tick>, t: Tick, s: Limits)
    ensures Run(p, g + [t], s) == Next(Run(p, g, s), t, s)
  {
    assert (g + [t])[..|g|] == g;
    hide Next;
  }

  /** What holds in the beginning of a run holds in all of it. */
  lemma HoldsBefore(p: State, h: seq<Tick>, s: Limits, n: nat, i: nat)
    requires i < n <= |h| && HoldsAt(p, h[..n], s, i)
    ensures HoldsAt(p, h, s, i)
  {
    assert h[..n][..i] == h[..i];
    hide HoldsOrNothing, Output, Run;
  }

  lemma BlockedNext(p: State, h: seq<Tick>, s: Limits, d: Direction)
    requires h != [] && s.threshold > 0 && Run(p, h[..|h| - 1], s).blocked == Some(d)
    requires !Releases(h[|h| - 1], s, d)
    ensures Run(p, h, s).blocked == Some(d) && HoldsAt(p, h, s, |h| - 1)
  {
    hide Releases, Output, Next, HoldsOrNothing, Run;
    var n, g := |h| - 1, h[..|h| - 1];
    BlockedTick(Run(p, g, s), h[n], s);
    RunNext(p, g, h[n], s);
    assert g + [h[n]] == h;
  }

  /** From any blocked state: until a release, all commands hold and the block stays. */
  lemma {:induction false} HoldsUntilReleased(p: State, h: seq<Tick>, s: Limits, d: Direction)
    requires p.blocked == Some(d) && s.threshold > 0
    requires forall i | 0 <= i < |h| :: !Releases(h[i], s, d)
    ensures Run(p, h, s).blocked == Some(d)
    ensures forall i | 0 <= i < |h| :: HoldsAt(p, h, s, i)
  {
    if h == [] {
    } else {
      hide HoldsAt, Run, Releases;
      var n, g := |h| - 1, h[..|h| - 1];
      HoldsUntilReleased(p, g, s, d);
      BlockedNext(p, h, s, d);
      forall i | 0 <= i < n
        ensures HoldsAt(p, h, s, i)
      {
        HoldsBefore(p, h, s, n, i);
      }
    }
  }

  /** Tick `i` of a run that was not blocked blocks a direction: overload while away from
      the remembered position. */
  ghost predicate Blocks(p: State, h: seq<Tick>, s: Limits, i: nat, d: Direction) {
    i < |h| && Run(p, h[..i], s).blocked == None && Overloaded(h[i], s) &&
    Towards(Run(p, h[..i], s).previous, h[i].follower.present) == Some(d)
  }

  ghost predicate BlockedSince(p: State, h: seq<Tick>, s: Limits, i: nat, d: Direction) {
    Blocks(p, h, s, i, d) && forall j | i < j < |h| :: !Releases(h[j], s, d)
  }

  lemma SinceStep(p: State, g: seq<Tick>, t: Tick, s: Limits, d: Direction, i: nat)
    ensures BlockedSince(p, g + [t], s, i, d) <==>
            (BlockedSince(p, g, s, i, d) && !Releases(t, s, d)) ||
            (i == |g| && Run(p, g, s).blocked == None && Overloaded(t, s) &&
             Towards(Run(p, g, s).previous, t.follower.present) == Some(d))
  {
    hide Run, Overloaded, Towards, Releases;
    var h := g + [t];
    if i < |g| { assert h[..i] == g[..i]; }
    if i == |g| { assert h[..i] == g; }
    assert h[|g|] == t;
    assert forall j | 0 <= j < |g| :: g[j] == h[j];
  }

  /** A direction is blocked exactly when some tick blocked it and none since has
      released it. */
  lemma {:induction false} BlockedExactly(h: seq<Tick>, s: Limits, d: Direction)
    ensures Run(FRESH, h, s).blocked == Some(d) <==> exists i: nat :: BlockedSince(FRESH, h, s, i, d)
  {
    if h == [] {
    } else {
      var g, t := h[..|h| - 1], h[|h| - 1];
      assert h == g + [t];
      BlockedExactly(g, s, d);
      forall i: nat
        ensures BlockedSince(FRESH, h, s, i, d) <==>
                (BlockedSince(FRESH, g, s, i, d) && !Releases(t, s, d)) ||
                (i == |g| && Run(FRESH, g, s).blocked == None && Overloaded(t, s) &&
                 Towards(Run(FRESH, g, s).previous, t.follower.present) == Some(d))
      {
        SinceStep(FRESH, g, t, s, d, i);
      }
      assert Run(FRESH, h, s) == Next(Run(FRESH, g, s), t, s);
      hide Run, BlockedSince, Overloaded, Releases, Towards, Moves, Refused;
      var q := Run(FRESH, g, s);
      if q.blocked == None && Overloaded(t, s) && Towards(q.previous, t.follower.present) == Some(d) {
        assert BlockedSince(FRESH, h, s, |g|, d);
      }
    }
  }

  /** The remembered position is that of the last tick that moved or was refused, and 0
      before any. */
  lemma {:induction false} Remembered(h: seq<Tick>, s: Limits, i: nat)
    requires i <= |h|
    requires forall j | i <= j < |h| ::
               !Moves(Run(FRESH, h[..j], s), h[j], s) && !Refused(Run(FRESH, h[..j], s), h[j], s)
    requires i > 0 ==> Moves(Run(FRESH, h[..i - 1], s), h[i - 1], s) || Refused(Run(FRESH, h[..i - 1], s), h[i - 1], s)
    ensures Run(FRESH, h, s).previous == if i == 0 then 0 else h[i - 1].follower.present
  {
    if h == [] {
    } else {
      var n, g := |h| - 1, h[..|h| - 1];
      hide Moves, Refused, NextBlocked;
      assert h[..n] == g;
      if i <= n {
        assert forall j | 0 <= j <= n :: h[..j] == g[..j];
        Remembered(g, s, i);
      }
    }
  }

  /** A fresh motor blocks the positive direction at its first overload, whatever way it
      was moved by others, unless a command has moved it before. */
  lemma FirstOverload(h: seq<Tick>, t: Tick, s: Limits)
    requires forall j | 0 <= j < |h| :: !Overloaded(h[j], s) && !Moves(Run(FRESH, h[..j], s), h[j], s)
    requires Overloaded(t, s)
    ensures Run(FRESH, h + [t], s).blocked == Some(Positive)
  {
    StaysFresh(h, s);
    assert (h + [t])[..|h|] == h;
  }

  lemma {:induction false} StaysFresh(h: seq<Tick>, s: Limits)
    requires forall j | 0 <= j < |h| :: !Overloaded(h[j], s) && !Moves(Run(FRESH, h[..j], s), h[j], s)
    ensures Run(FRESH, h, s) == FRESH
  {
    if h == [] {
    } else {
      var g := h[..|h| - 1];
      assert h[..|h| - 1] == g;
      assert forall j | 0 <= j <= |g| :: h[..j] == g[..j];
      hide Moves;
      StaysFresh(g, s);
    }
  }

  /** A threshold of 0, or below, never blocks. */
  lemma {:induction false} NoProtection(h: seq<Tick>, s: Limits)
    requires s.threshold <= 0
    ensures Run(FRESH, h, s).blocked == None
  {
    if h == [] {
    } else {
      NoProtection(h[..|h| - 1], s);
    }
  }

  // All motors

  /** A tick of one motor. */
  datatype Event = Event(motor: nat, tick: Tick)

  function At(table: map<nat, State>, motor: nat): State {
    if motor in table then table[motor] else FRESH
  }

  function TableRun(h: seq<Event>, setup: nat -> Limits): map<nat, State> {
    if h == [] then map[]
    else
      var table, e := TableRun(h[..|h| - 1], setup), h[|h| - 1];
      table[e.motor := Next(At(table, e.motor), e.tick, setup(e.motor))]
  }

  function Of(h: seq<Event>, motor: nat): seq<Tick> {
    if h == [] then []
    else
      var e := h[|h| - 1];
      Of(h[..|h| - 1], motor) + (if e.motor == motor then [e.tick] else [])
  }

  /** Motors do not disturb each other: the state of a motor is that of its own ticks. */
  lemma {:induction false} MotorsApart(h: seq<Event>, setup: nat -> Limits, motor: nat)
    ensures At(TableRun(h, setup), motor) == Run(FRESH, Of(h, motor), setup(motor))
  {
    if h == [] {
    } else {
      var g, e := h[..|h| - 1], h[|h| - 1];
      MotorsApart(g, setup, motor);
      if e.motor == motor {
        assert (Of(g, motor) + [e.tick])[..|Of(g, motor)|] == Of(g, motor);
      } else {
        assert Of(h, motor) == Of(g, motor);
      }
      hide Next;
    }
  }

  class ProtectionTable {
    var states: map<nat, ProtectionState>

    constructor ()
      ensures states == map[]
    {
      states := map[];
    }

    /** No two motors share a state object. */
    ghost predicate Valid()
      reads this
    {
      forall a, b | a in states && b in states && a != b :: states[a] != states[b]
    }

    ghost function Table(): map<nat, State>
      reads this, states.Values
    {
      map m | m in states :: states[m].Now()
    }

    /** get, then compute_motor_command on the state it returned */
    method Compute(motor: nat, leader: Motor, follower: Motor, s: Limits) returns (cmd: Option<Command>)
      requires Valid()
      modifies this, states.Values
      ensures Valid() && fresh(states.Values - old(states.Values))
      ensures cmd == Output(At(old(Table()), motor), Tick(leader, follower), s)
      ensures Table() == old(Table())[motor := Next(At(old(Table()), motor), Tick(leader, follower), s)]
    {
      hide Next, Output;
      if motor !in states {
        var state := new ProtectionState();
        states := states[motor := state];
      }
      assert states[motor] in states.Values;
      cmd := states[motor].Compute(leader, follower, s);
    }
  }
}
