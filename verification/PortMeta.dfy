/** Calibration of one bus (port_meta.rs, and the offset arithmetic of port.rs):
    from the measured arc to the servo's offset register and the recentred bounds,
    and the worker that collects positions and freezes bounds. */
module PortMeta {
  import opened Options
  import opened Calibrate
  import opened Ordered

  type Angle = x: nat | x < FULL_RANGE
  type u16 = x: nat | x < 0x1_0000
  type i16 = x: int | -0x8000 <= x < 0x8000

  function ToI16(x: int): i16 { (x + 0x8000) % 0x1_0000 - 0x8000 }

  /** `%` of Rust: the sign of the dividend. */
  function Rem(a: int, b: int): int
    requires b > 0
  {
    if a >= 0 then a % b else -((-a) % b)
  }

  // Arithmetic of a freeze

  /** exec_get_midpoint */
  function Midpoint(min: Angle, max: Angle): u16 {
    if max >= min then min + (max - min) / 2
    else (min + ((4096 - min) + max) / 2) % 4096
  }

  /** The width of an arc given in the command: a single position has width 0. */
  function ArcWidth(min: Angle, max: Angle): nat {
    if max >= min then max - min else (4096 - min) + max
  }

  /** The width of a tracked arc: a single position counts as a full turn. */
  function TrackedWidth(min: Angle, max: Angle): nat {
    if min < max then max - min else (4096 - min) + max
  }

  function RecentredMin(range: nat): int { Rem(2048 - range / 2 + 4096, 4096) }

  function RecentredMax(range: nat): int { Rem(2048 + range / 2, 4096) }

  /** The correction that freeze_calibration writes to the offset register. */
  function Correction(midpoint: u16): i16 {
    var c := ToI16(ToI16(midpoint) - 2048);
    var w := if c > 2047 then ToI16(c - 4096) else if c < -2047 then ToI16(c + 4096) else c;
    if w > 2047 then 2047 else if w < -2047 then -2047 else w
  }

  /** normal_position: bit 15 is a sign. */
  function NormalPosition(raw: u16): Angle {
    if raw >= 0x8000 then (4096 - raw % 4096) % 4096 else raw % 4096
  }

  /** The encoder position behind a displayed one. */
  function EncoderPosition(raw: u16, offset: i16): u16 {
    Rem(NormalPosition(raw) + offset + 4096, 4096) % 0x1_0000
  }

  lemma CorrectionIs(midpoint: Angle)
    ensures Correction(midpoint) == if midpoint == 0 then 2047 else midpoint - 2048
  {
  }

  lemma RecentredIs(w: nat)
    requires w <= 4095
    ensures RecentredMin(w) == 2048 - w / 2 && RecentredMax(w) == 2048 + w / 2
    ensures 0 < RecentredMin(w) <= RecentredMax(w) <= 4095
  {
  }

  /** The two freeze branches agree exactly on arcs of more than one position. */
  lemma WidthsAgree(min: Angle, max: Angle)
    ensures ArcWidth(min, max) == TrackedWidth(min, max) <==> min != max
    ensures min == max ==> RecentredMin(TrackedWidth(min, max)) == RecentredMax(TrackedWidth(min, max)) == 0
  {
  }

  /** A position is displayed once: with an offset the register can hold, the
      encoder position behind a displayed one determines it. */
  lemma DisplayedOnce(d: Angle, offset: int, e: Angle)
    requires -2047 <= offset <= 2047
    ensures EncoderPosition(d, offset) == e <==> d == (e - offset) % 4096
  {
    assert EncoderPosition(d, offset) == (d + offset + 4096) % 4096;
    var up, down := (d + offset) / 4096, (e - offset) / 4096;
    if EncoderPosition(d, offset) == e { assert e - offset == d - up * 4096; }
    if d == (e - offset) % 4096 { assert d + offset == e - down * 4096; }
  }

  /** Steps from the start of the arc to a position on it. */
  lemma AlongArc(min: Angle, max: Angle, e: Angle)
    requires InArc(MotorArc(min, max), e)
    ensures Clockwise(min, e) <= ArcWidth(min, max)
    ensures e == (min + Clockwise(min, e)) % 4096
  {
  }

  lemma MidpointBelow(min: Angle, max: Angle)
    ensures Midpoint(min, max) < 4096
  {
  }

  lemma MidpointIs(min: Angle, max: Angle)
    ensures Midpoint(min, max) == (min + ArcWidth(min, max) / 2) % 4096 < 4096
  {
  }

  lemma ModSum(a: int, b: int)
    ensures (a % 4096 + b) % 4096 == (a + b) % 4096
  {
  }

  /** After a freeze every position of the arc is displayed at its distance from the
      start of the arc, counted from the recentred minimum; a midpoint of 0 shifts
      the display by exactly one step, because the register stops at 2047. */
  lemma DisplayedPosition(min: Angle, max: Angle, e: Angle, d: Angle)
    requires InArc(MotorArc(min, max), e)
    requires EncoderPosition(d, Correction(Midpoint(min, max))) == e
    ensures var w := ArcWidth(min, max);
            var shift := if Midpoint(min, max) == 0 then 1 else 0;
            d == (2048 - w / 2 + Clockwise(min, e) + shift) % 4096
  {
    MidpointBelow(min, max);
    hide Correction, Midpoint, EncoderPosition, Clockwise, ArcWidth, InArc;
    var w: int, r: int, mp := ArcWidth(min, max), Clockwise(min, e), Midpoint(min, max);
    MidpointIs(min, max);
    CorrectionIs(mp);
    AlongArc(min, max, e);
    DisplayedOnce(d, Correction(mp), e);
    DisplayArithmetic(min + r, min + w / 2, mp, Correction(mp), if mp == 0 then 1 else 0);
    assert min + r - (min + w / 2) == r - w / 2;
  }

  lemma DisplayArithmetic(e: int, m: int, mp: int, c: int, shift: int)
    requires mp == m % 4096
    requires c == mp - 2048 + (if mp == 0 then 4095 else 0) && shift == (if mp == 0 then 1 else 0)
    ensures (e % 4096 - c) % 4096 == (e - m + 2048 + shift) % 4096
  {
    ModSum(e, -c);
    var q := m / 4096;
    assert e - c == (e - m + 2048 + shift) + (q - shift) * 4096;
    ModShift(e - m + 2048 + shift, q - shift);
  }

  /** The end-to-end statement: on an arc of at most 4094 steps with a midpoint other
      than 0, every encoder position displays inside the recentred bounds, which do
      not wrap, with one extra step at the top when the width is odd; both ends of
      that range are reached. */
  lemma FrozenBounds(min: Angle, max: Angle, e: Angle, d: Angle)
    requires InArc(MotorArc(min, max), e) && Midpoint(min, max) != 0
    requires EncoderPosition(d, Correction(Midpoint(min, max))) == e
    ensures var w := ArcWidth(min, max);
            w <= 4094 ==>
              RecentredMin(w) <= d <= RecentredMax(w) + w % 2 <= 4095 &&
              d == RecentredMin(w) + Clockwise(min, e) &&
              (e == min ==> d == RecentredMin(w)) && (e == max ==> d == RecentredMax(w) + w % 2)
    ensures ArcWidth(min, max) == 4095 && e == max ==> d == 0 < RecentredMin(4095)
  {
    hide Correction, Midpoint, EncoderPosition, Clockwise, RecentredMin, RecentredMax, ArcWidth, InArc;
    var w, r := ArcWidth(min, max), Clockwise(min, e);
    DisplayedPosition(min, max, e, d);
    AlongArc(min, max, e);
    Ends(min, max);
    if w <= 4095 {
      RecentredIs(w);
      Inside(w, r, d);
    }
  }

  /** Every position of the arc is displayed inside the recentred bounds, with one extra
      step at the top when the width is odd. */
  ghost predicate DisplaysInside(min: Angle, max: Angle) {
    forall e: Angle, d: Angle | InArc(MotorArc(min, max), e) && Displays(min, max, e, d) ::
      InBounds(ArcWidth(min, max), d)
  }

  predicate Displays(min: Angle, max: Angle, e: Angle, d: Angle) {
    EncoderPosition(d, Correction(Midpoint(min, max))) == e
  }

  predicate InBounds(w: nat, d: Angle) { RecentredMin(w) <= d <= RecentredMax(w) + w % 2 }

  /** Exactly for these arcs a freeze keeps all positions inside the bounds. */
  lemma InsideExactly(min: Angle, max: Angle)
    ensures DisplaysInside(min, max) <==> Midpoint(min, max) != 0 && ArcWidth(min, max) <= 4094
  {
    var w, mp := ArcWidth(min, max), Midpoint(min, max);
    MidpointBelow(min, max);
    if mp != 0 && w <= 4094 {
      forall e: Angle, d: Angle | InArc(MotorArc(min, max), e) && Displays(min, max, e, d)
        ensures InBounds(w, d)
      {
        FrozenBounds(min, max, e, d);
        hide Midpoint, Correction, EncoderPosition, ArcWidth, InArc, RecentredMin, RecentredMax;
      }
    } else {
      var e, d := Outside(min, max);
      hide Displays, InBounds, InArc, Midpoint, ArcWidth;
      assert !DisplaysInside(min, max);
    }
  }

  /** The display that leaves the bounds: one step past the top, or 0. */
  lemma Outside(min: Angle, max: Angle) returns (e: Angle, d: Angle)
    requires Midpoint(min, max) == 0 || ArcWidth(min, max) == 4095
    ensures InArc(MotorArc(min, max), e) && Displays(min, max, e, d) && !InBounds(ArcWidth(min, max), d)
  {
    var w, mp := ArcWidth(min, max), Midpoint(min, max);
    MidpointBelow(min, max);
    Ends(min, max);
    var shift := if mp == 0 then 1 else 0;
    var r: nat := if w == 4095 then 4095 - shift else w;
    e := AtDistance(min, max, r);
    CorrectionIs(mp);
    d := (e - Correction(mp)) % 4096;
    DisplayedOnce(d, Correction(mp), e);
    DisplayedPosition(min, max, e, d);
    RecentredIs(w);
    hide Midpoint, Correction, EncoderPosition, ArcWidth, InArc, RecentredMin, RecentredMax, Clockwise;
    PastBounds(w, r, shift, d);
  }

  lemma AtDistance(min: Angle, max: Angle, r: nat) returns (e: Angle)
    requires r <= ArcWidth(min, max)
    ensures InArc(MotorArc(min, max), e) && Clockwise(min, e) == r
  {
    e := (min + r) % 4096;
  }

  lemma PastBounds(w: nat, r: nat, shift: nat, d: int)
    requires w <= 4095 && shift <= 1 && (w == 4095 || shift == 1) && r == (if w == 4095 then 4095 - shift else w)
    requires d == (2048 - w / 2 + r + shift) % 4096
    ensures !(2048 - w / 2 <= d <= 2048 + w / 2 + w % 2)
  {
  }

  lemma Inside(w: nat, r: nat, d: int)
    requires r <= w <= 4095 && d == (2048 - w / 2 + r) % 4096
    ensures w <= 4094 ==> d == 2048 - w / 2 + r && 2048 + w / 2 + w % 2 <= 4095
    ensures w - w / 2 == w / 2 + w % 2
    ensures w == r == 4095 ==> d == 0
  {
  }

  lemma Ends(min: Angle, max: Angle)
    ensures Clockwise(min, min) == 0 && Clockwise(min, max) == ArcWidth(min, max) <= 4095
  {
  }

  // The worker

  datatype Bounds = Bounds(min: Angle, max: Angle, freezed: bool)

  datatype Arc = Arc(motor: nat, min: Angle, max: Angle)

  /** What the worker receives for its bus. A freeze may bring the arcs to use.
      `AutoCalibrate` is the start of an automatic calibration, which drops the
      bus's bounds without telling the worker. */
  datatype Event =
    | ResetCalibration
    | FreezeCalibration(arcs: seq<Arc>)
    | DriveState(motor: nat, position: Angle)
    | AutoCalibrate

  function Recentred(range: nat): Bounds
    requires range <= 4096
  {
    RecentredInRange(range);
    Bounds(RecentredMin(range), RecentredMax(range), true)
  }

  lemma RecentredInRange(range: nat)
    requires range <= 4096
    ensures 0 <= RecentredMin(range) < 4096 && 0 <= RecentredMax(range) < 4096
  {
  }

  function FreezeGiven(bounds: map<nat, Bounds>, arcs: seq<Arc>): map<nat, Bounds>
    decreases |arcs|
  {
    if arcs == [] then bounds
    else FreezeGiven(bounds[arcs[0].motor := Recentred(ArcWidth(arcs[0].min, arcs[0].max))], arcs[1..])
  }

  function FreezeOne(bounds: Bounds): Bounds {
    Recentred(TrackedWidth(bounds.min, bounds.max))
  }

  function FreezeTracked(bounds: map<nat, Bounds>, motors: set<nat>): map<nat, Bounds>
    requires motors <= bounds.Keys
  {
    map m | m in bounds :: if m in motors then FreezeOne(bounds[m]) else bounds[m]
  }

  ghost function TrackedBounds(s: seq<Angle>): Bounds
    requires Ascending(s)
  {
    ArcBelow(s);
    Bounds(ArcOf(s).min, ArcOf(s).max, false)
  }

  lemma ArcBelow(s: seq<Angle>)
    requires Ascending(s)
    ensures ArcOf(s).min < FULL_RANGE && ArcOf(s).max < FULL_RANGE
  {
  }

  ghost predicate Tracks(b: Bounds, s: seq<Angle>) {
    Ascending(s) && b == TrackedBounds(s)
  }

  class Watch {
    var freezed: bool
    var motorPoints: map<nat, seq<Angle>>
    var bounds: map<nat, Bounds>

    ghost function Now(): State
      reads this
    {
      State(freezed, motorPoints, bounds)
    }

    /** Starts frozen unless the last calibration record is absent or a reset. */
    constructor (freezed: bool, bounds: map<nat, Bounds>)
      ensures Now() == State(freezed, map[], bounds) && Kept(Now())
    {
      this.freezed, this.bounds, motorPoints := freezed, bounds, map[];
    }

    method OnReset()
      modifies this
      ensures Now() == State(false, map[], map[])
    {
      freezed := false;
      bounds := map[];
      motorPoints := map[];
    }

    method OnAutoCalibrate()
      modifies this`bounds
      ensures bounds == map[]
    {
      bounds := map[];
    }

    /** Bounds given in the command are recentred; without any, those of the tracked
        motors are. A tracked motor without bounds is a panic (`unwrap`), which
        leaves the motors before it recentred. */
    method OnFreeze(arcs: seq<Arc>) returns (ok: bool)
      modifies this
      ensures ok <==> arcs != [] || old(motorPoints.Keys) <= old(bounds.Keys)
      ensures ok ==> Now() == Frozen(old(Now()), arcs)
      ensures !ok ==> exists done :: done <= old(bounds.Keys) && bounds == FreezeTracked(old(bounds), done)
    {
      freezed := true;
      if arcs != [] {
        FreezeArcs(arcs);
      } else {
        ok := FreezeMotors();
        if !ok { return; }
      }
      motorPoints := map[];
      ok := true;
    }

    method FreezeArcs(arcs: seq<Arc>)
      modifies this`bounds
      ensures bounds == FreezeGiven(old(bounds), arcs)
    {
      assert arcs[0..] == arcs;
      for i := 0 to |arcs|
        invariant FreezeGiven(bounds, arcs[i..]) == FreezeGiven(old(bounds), arcs)
      {
        hide Recentred;
        assert arcs[i..][1..] == arcs[i + 1..];
        bounds := bounds[arcs[i].motor := Recentred(ArcWidth(arcs[i].min, arcs[i].max))];
      }
    }

    method FreezeMotors() returns (ok: bool)
      modifies this`bounds
      ensures ok <==> motorPoints.Keys <= old(bounds.Keys)
      ensures ok ==> bounds == FreezeTracked(old(bounds), motorPoints.Keys)
      ensures !ok ==> exists done :: done <= old(bounds.Keys) && bounds == FreezeTracked(old(bounds), done)
    {
      hide FreezeOne;
      var rest := motorPoints.Keys;
      ghost var done: set<nat> := {};
      while rest != {}
        invariant done <= old(bounds.Keys) && done + rest == motorPoints.Keys && done !! rest
        invariant bounds == FreezeTracked(old(bounds), done)
        decreases rest
      {
        var m :| m in rest;
        if m !in bounds { return false; }
        bounds := bounds[m := FreezeOne(bounds[m])];
        rest, done := rest - {m}, done + {m};
      }
      return true;
    }

    /** A position is added to the motor's set; a new one moves its bounds to the arc
        of the set. */
    method OnDriveState(motor: nat, position: Angle)
      requires Kept(Now())
      modifies this`motorPoints, this`bounds
      ensures Now() == Step(old(Now()), DriveState(motor, position))
    {
      if freezed { return; }
      var was := if motor in motorPoints then motorPoints[motor] else [];
      InsertIs(was, position);
      var points := Insert(was, position);
      motorPoints := motorPoints[motor := points];
      if position !in was {
        var arc := CalculateArc(points);
        ArcUnique(arc, ArcOf(points), points);
        ArcBelow(points);
        bounds := bounds[motor := Bounds(arc.min, arc.max, false)];
      }
    }
  }

  // The worker over whole runs

  datatype State = State(freezed: bool, points: map<nat, seq<Angle>>, bounds: map<nat, Bounds>)

  function Points(s: State, motor: nat): seq<Angle> {
    if motor in s.points then s.points[motor] else []
  }

  /** Tracked positions are ordered and there are some; there are none while frozen;
      the bounds of a tracked motor, where it has any, are the arc of its positions. */
  ghost predicate Kept(s: State) {
    (s.freezed ==> s.points == map[]) &&
    forall m | m in s.points ::
      s.points[m] != [] && Ascending(s.points[m]) && (m in s.bounds ==> Tracks(s.bounds[m], s.points[m]))
  }

  /** The outcome of a freeze that does not panic. */
  function Frozen(s: State, arcs: seq<Arc>): State
    requires arcs != [] || s.points.Keys <= s.bounds.Keys
  {
    State(true, map[],
          if arcs != [] then FreezeGiven(s.bounds, arcs) else FreezeTracked(s.bounds, s.points.Keys))
  }

  predicate Panics(s: State, e: Event) {
    e.FreezeCalibration? && e.arcs == [] && !(s.points.Keys <= s.bounds.Keys)
  }

  ghost function Step(s: State, e: Event): State
    requires Kept(s) && !Panics(s, e)
  {
    match e
    case ResetCalibration => State(false, map[], map[])
    case FreezeCalibration(arcs) => Frozen(s, arcs)
    case AutoCalibrate => s.(bounds := map[])
    case DriveState(motor, position) =>
      if s.freezed then s
      else
        var points := Insert(Points(s, motor), position);
        InsertIs(Points(s, motor), position);
        State(false, s.points[motor := points],
              if position in Points(s, motor) then s.bounds else s.bounds[motor := TrackedBounds(points)])
  }

  lemma StepKeeps(s: State, e: Event)
    requires Kept(s) && !Panics(s, e)
    ensures Kept(Step(s, e))
  {
    if e.DriveState? { InsertIs(Points(s, e.motor), e.position); }
    hide TrackedBounds, Insert, FreezeGiven, FreezeTracked, Ascending;
  }

  /** The worker after a run of events; None once it has panicked. */
  ghost function Run(s0: State, h: seq<Event>): (r: Option<State>)
    requires Kept(s0)
    ensures r.Some? ==> Kept(r.value)
  {
    if h == [] then Some(s0)
    else
      var r, e := Run(s0, h[..|h| - 1]), h[|h| - 1];
      if r.None? || Panics(r.value, e) then None
      else
        StepKeeps(r.value, e);
        Some(Step(r.value, e))
  }

  predicate Clears(e: Event) {
    e.ResetCalibration? || e.FreezeCalibration?
  }

  /** Whether positions are collected when event `i` arrives. */
  predicate Unfrozen(frozen0: bool, h: seq<Event>, i: nat)
    requires i <= |h|
  {
    if i == 0 then !frozen0
    else if Clears(h[i - 1]) then h[i - 1].ResetCalibration?
    else Unfrozen(frozen0, h, i - 1)
  }

  /** Event `i` brought this position while unfrozen, and nothing has cleared it since. */
  ghost predicate Collected(frozen0: bool, h: seq<Event>, i: nat, motor: nat, p: Angle) {
    i < |h| && h[i] == DriveState(motor, p) && Unfrozen(frozen0, h, i) &&
    forall j | i < j < |h| :: !Clears(h[j])
  }

  lemma {:induction false} UnfrozenPrefix(frozen0: bool, h: seq<Event>, n: nat, i: nat)
    requires i <= n <= |h|
    ensures Unfrozen(frozen0, h[..n], i) == Unfrozen(frozen0, h, i)
  {
    if i == 0 {
    } else {
      UnfrozenPrefix(frozen0, h, n, i - 1);
    }
  }

  lemma CollectedStep(frozen0: bool, h: seq<Event>, motor: nat, p: Angle)
    requires h != []
    ensures var n := |h| - 1;
            (exists i: nat :: Collected(frozen0, h, i, motor, p)) <==>
            (!Clears(h[n]) && exists i: nat :: Collected(frozen0, h[..n], i, motor, p)) ||
            (h[n] == DriveState(motor, p) && Unfrozen(frozen0, h, n))
  {
    var n := |h| - 1;
    forall i: nat | i < n
      ensures Collected(frozen0, h, i, motor, p) <==> !Clears(h[n]) && Collected(frozen0, h[..n], i, motor, p)
    {
      UnfrozenPrefix(frozen0, h, n, i);
      hide Unfrozen, Clears;
    }
    hide Unfrozen;
    assert Collected(frozen0, h, n, motor, p) <==> h[n] == DriveState(motor, p) && Unfrozen(frozen0, h, n);
  }

  lemma {:induction false} FrozenIs(s0: State, h: seq<Event>)
    requires Kept(s0) && Run(s0, h).Some?
    ensures Run(s0, h).value.freezed == !Unfrozen(s0.freezed, h, |h|)
  {
    if h == [] {
    } else {
      FrozenIs(s0, h[..|h| - 1]);
      UnfrozenPrefix(s0.freezed, h, |h| - 1, |h| - 1);
      hide Kept, FreezeGiven, FreezeTracked, Insert;
    }
  }

  /** The tracked positions of a motor are exactly those reported while unfrozen since
      the last reset. */
  lemma {:induction false} TrackedPositions(s0: State, h: seq<Event>, motor: nat, p: Angle)
    requires Kept(s0) && s0.points == map[] && Run(s0, h).Some?
    ensures p in Points(Run(s0, h).value, motor) <==> exists i: nat :: Collected(s0.freezed, h, i, motor, p)
  {
    if h == [] {
    } else {
      var n, e := |h| - 1, h[|h| - 1];
      var s := Run(s0, h[..n]).value;
      TrackedPositions(s0, h[..n], motor, p);
      CollectedStep(s0.freezed, h, motor, p);
      FrozenIs(s0, h[..n]);
      UnfrozenPrefix(s0.freezed, h, n, n);
      if e.DriveState? { InsertIs(Points(s, e.motor), e.position); }
      hide Kept, FreezeGiven, FreezeTracked, Insert, Unfrozen, Collected;
    }
  }

  /** At event `a` an automatic calibration dropped the bounds of the motor, whose
      positions were then `points`; nothing has cleared the collection since. */
  ghost predicate DroppedAt(s0: State, h: seq<Event>, a: nat, motor: nat, points: seq<Angle>)
    requires Kept(s0)
  {
    a < |h| && h[a].AutoCalibrate? && (forall j | a < j < |h| :: !Clears(h[j])) &&
    Run(s0, h[..a]).Some? && motor in Run(s0, h[..a]).value.points &&
    Points(Run(s0, h[..a]).value, motor) == points
  }

  lemma DroppedStep(s0: State, h: seq<Event>, a: nat, motor: nat, points: seq<Angle>)
    requires Kept(s0) && h != []
    ensures var n := |h| - 1;
            DroppedAt(s0, h, a, motor, points) <==>
            (!Clears(h[n]) && DroppedAt(s0, h[..n], a, motor, points)) ||
            (a == n && h[n].AutoCalibrate? && Run(s0, h[..n]).Some? &&
             motor in Run(s0, h[..n]).value.points && Points(Run(s0, h[..n]).value, motor) == points)
  {
    hide Run, Points, Clears;
    if a < |h| - 1 {
      assert h[..|h| - 1][..a] == h[..a];
    }
  }

  lemma {:induction false} PointsGrow(s0: State, h: seq<Event>, a: nat, motor: nat, p: Angle)
    requires Kept(s0) && Run(s0, h).Some? && a <= |h| && forall j | a <= j < |h| :: !Clears(h[j])
    ensures Run(s0, h[..a]).Some?
    ensures p in Points(Run(s0, h[..a]).value, motor) ==> p in Points(Run(s0, h).value, motor)
  {
    if a == |h| {
      assert h[..a] == h;
    } else {
      var g, e := h[..|h| - 1], h[|h| - 1];
      assert g[..a] == h[..a];
      PointsGrow(s0, g, a, motor, p);
      if e.DriveState? { InsertIs(Points(Run(s0, g).value, e.motor), e.position); }
      hide Kept, FreezeGiven, FreezeTracked, Insert;
    }
  }

  predicate Lost(s: State, motor: nat) {
    motor in s.points && motor !in s.bounds
  }

  predicate NewPosition(s: State, e: Event, motor: nat) {
    e.DriveState? && e.motor == motor && !s.freezed && e.position !in Points(s, motor)
  }

  lemma LostStep(s: State, e: Event, motor: nat)
    requires Kept(s) && !Panics(s, e)
    ensures var s' := Step(s, e);
            if Clears(e) || NewPosition(s, e, motor) then !Lost(s', motor)
            else Points(s', motor) == Points(s, motor) && (motor in s'.points <==> motor in s.points) &&
                 (Lost(s', motor) <==> Lost(s, motor) || (e.AutoCalibrate? && motor in s.points))
    ensures NewPosition(s, e, motor) ==> e.position in Points(Step(s, e), motor)
  {
    if e.DriveState? { InsertIs(Points(s, e.motor), e.position); }
    hide FreezeGiven, FreezeTracked, Insert, Ascending, TrackedBounds;
  }

  lemma NotSinceNew(s0: State, g: seq<Event>, e: Event, a: nat, motor: nat, points: seq<Angle>)
    requires Kept(s0) && Run(s0, g).Some? && NewPosition(Run(s0, g).value, e, motor) && e.position in points
    ensures !DroppedAt(s0, g, a, motor, points)
  {
    if DroppedAt(s0, g, a, motor, points) { PointsGrow(s0, g, a, motor, e.position); }
  }

  lemma SomePoints(s: State, motor: nat)
    requires Kept(s)
    ensures motor in s.points <==> Points(s, motor) != []
  {
  }

  /** A tracked motor is without bounds exactly when an automatic calibration dropped
      them and the motor has reported no new position since. */
  lemma {:induction false} WithoutBounds(s0: State, h: seq<Event>, motor: nat)
    requires Kept(s0) && s0.points == map[] && Run(s0, h).Some?
    ensures Lost(Run(s0, h).value, motor) <==>
            exists a: nat :: DroppedAt(s0, h, a, motor, Points(Run(s0, h).value, motor))
  {
    if h == [] {
    } else {
      var n, e := |h| - 1, h[|h| - 1];
      var g, s, s' := h[..n], Run(s0, h[..n]).value, Run(s0, h).value;
      WithoutBounds(s0, g, motor);
      hide Run, DroppedAt, Kept, Step, Points, Panics, Lost;
      assert h == g + [e];
      WithoutBoundsStep(s0, g, e, s, s', motor);
    }
  }

  lemma WithoutBoundsStep(s0: State, g: seq<Event>, e: Event, s: State, s': State, motor: nat)
    requires Kept(s0)
    requires Run(s0, g) == Some(s) && Kept(s) && !Panics(s, e) && s' == Step(s, e)
    requires Lost(s, motor) <==> exists a: nat :: DroppedAt(s0, g, a, motor, Points(s, motor))
    ensures Lost(s', motor) <==> exists a: nat :: DroppedAt(s0, g + [e], a, motor, Points(s', motor))
  {
    hide Run, DroppedAt, Kept, Step, Points, Panics;
    var n, h := |g|, g + [e];
    assert h[..n] == g;
    LostStep(s, e, motor);
    SomePoints(s, motor);
    forall a: nat
      ensures DroppedAt(s0, g + [e], a, motor, Points(s', motor)) <==>
              (!Clears(e) && DroppedAt(s0, g, a, motor, Points(s', motor))) ||
              (a == n && e.AutoCalibrate? && motor in s.points && Points(s, motor) == Points(s', motor))
    {
      hide Clears, NewPosition;
      DroppedStep(s0, h, a, motor, Points(s', motor));
    }
    if NewPosition(s, e, motor) {
      forall a: nat
        ensures !DroppedAt(s0, g, a, motor, Points(s', motor))
      {
        NotAt(s0, g, s, s', e, a, motor);
      }
    }
    hide Clears, NewPosition, Lost;
    if e.AutoCalibrate? && motor in s.points && !Clears(e) && !NewPosition(s, e, motor) {
      assert DroppedAt(s0, g + [e], n, motor, Points(s', motor));
    }
  }

  lemma NotAt(s0: State, g: seq<Event>, s: State, s': State, e: Event, a: nat, motor: nat)
    requires Kept(s0) && Run(s0, g) == Some(s) && Kept(s) && !Panics(s, e) && s' == Step(s, e)
    requires NewPosition(s, e, motor)
    ensures !DroppedAt(s0, g, a, motor, Points(s', motor))
  {
    LostStep(s, e, motor);
    NotSinceNew(s0, g, e, a, motor, Points(s', motor));
  }

  /** A freeze without arcs panics exactly when some motor is in that state. */
  lemma PanicsExactly(s0: State, h: seq<Event>)
    requires Kept(s0) && s0.points == map[] && Run(s0, h).Some?
    ensures Run(s0, h + [FreezeCalibration([])]).None? <==>
            exists motor: nat, a: nat :: DroppedAt(s0, h, a, motor, Points(Run(s0, h).value, motor))
  {
    var s, f := Run(s0, h).value, FreezeCalibration([]);
    assert (h + [f])[..|h|] == h;
    assert Run(s0, h + [f]).None? <==> Panics(s, f);
    assert Panics(s, f) <==> exists motor: nat :: Lost(s, motor) by {
      hide Run, DroppedAt, Kept, Points;
      if Panics(s, f) {
        var motor :| motor in s.points.Keys && motor !in s.bounds.Keys;
        assert Lost(s, motor);
      }
    }
    hide *;
    forall motor: nat
      ensures Lost(s, motor) <==> exists a: nat :: DroppedAt(s0, h, a, motor, Points(s, motor))
    {
      WithoutBounds(s0, h, motor);
    }
  }

  /** Without automatic calibrations the worker never panics. */
  lemma {:induction false} NeverPanics(s0: State, h: seq<Event>)
    requires Kept(s0) && s0.points == map[] && forall i | 0 <= i < |h| :: !h[i].AutoCalibrate?
    ensures Run(s0, h).Some?
  {
    if h == [] {
    } else {
      var g, e := h[..|h| - 1], h[|h| - 1];
      NeverPanics(s0, g);
      forall motor: nat | motor in Run(s0, g).value.points
        ensures motor in Run(s0, g).value.bounds
      {
        WithoutBounds(s0, g, motor);
        hide Run, Kept;
      }
    }
  }

  lemma RunSnoc(s0: State, h: seq<Event>, e: Event)
    requires Kept(s0) && Run(s0, h).Some?
    ensures var s := Run(s0, h).value;
            Run(s0, h + [e]) == if Panics(s, e) then None else Some(Step(s, e))
  {
    assert (h + [e])[..|h|] == h;
  }

  /** One position, an automatic calibration, the same position again: the freeze panics. */
  lemma RepeatedPositionPanics()
    ensures Run(State(false, map[], map[]),
                [DriveState(1, 5), AutoCalibrate, DriveState(1, 5), FreezeCalibration([])]).None?
  {
    var s0, e := State(false, map[], map[]), DriveState(1, 5);
    assert Run(s0, []) == Some(s0);
    hide Run, Step, Points;
    assert [] + [e] == [e] && [e] + [AutoCalibrate] == [e, AutoCalibrate];
    assert [e, AutoCalibrate] + [e] == [e, AutoCalibrate, e];
    assert [e, AutoCalibrate, e] + [FreezeCalibration([])] == [e, AutoCalibrate, e, FreezeCalibration([])];
    RunSnoc(s0, [], e);
    var s1 := Step(s0, e);
    Fresh(s0, e);
    SomePoints(s1, 1);
    RunSnoc(s0, [e], AutoCalibrate);
    LostStep(s1, AutoCalibrate, 1);
    RunSnoc(s0, [e, AutoCalibrate], e);
    LostStep(Step(s1, AutoCalibrate), e, 1);
    RunSnoc(s0, [e, AutoCalibrate, e], FreezeCalibration([]));
  }

  lemma Fresh(s: State, e: Event)
    requires Kept(s) && s.points == map[] && !s.freezed && e.DriveState?
    ensures e.position in Points(Step(s, e), e.motor)
  {
    LostStep(s, e, e.motor);
  }
}
