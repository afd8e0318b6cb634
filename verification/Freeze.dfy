/** The bounds that a freeze leaves (port_meta.rs), against the positions that the servo
    displays once its offset register is set (port.rs). */
module Freeze {
  import opened Calibrate
  import opened Ordered
  import opened PortMeta

  /** The bounds lie evenly around the middle of the display, `width` apart, a step less
      when that is odd. */
  predicate Centred(b: Bounds, width: nat) {
    b.min + b.max == 4096 && b.max - b.min == width - width % 2
  }

  /** Every position of the arc is displayed inside the bounds, with one extra step at the
      top when the width is odd. */
  ghost predicate Holds(b: Bounds, min: Angle, max: Angle) {
    forall e: Angle, d: Angle | InArc(MotorArc(min, max), e) && Displays(min, max, e, d) ::
      b.min <= d <= b.max + ArcWidth(min, max) % 2
  }

  /** What a freeze makes of an arc: bounds that are frozen, lie around the middle, start and
      end where the ends of the arc are displayed, and hold all of it exactly when its
      midpoint is not 0 and it is at most 4094 steps wide. */
  ghost predicate FrozenTo(b: Bounds, min: Angle, max: Angle) {
    b.freezed && Centred(b, ArcWidth(min, max)) &&
    (Holds(b, min, max) <==> Midpoint(min, max) != 0 && ArcWidth(min, max) <= 4094) &&
    (Midpoint(min, max) != 0 && ArcWidth(min, max) <= 4094 ==>
       forall d: Angle ::
         (Displays(min, max, min, d) ==> d == b.min) &&
         (Displays(min, max, max, d) ==> d == b.max + ArcWidth(min, max) % 2))
  }

  lemma RecentredFits(min: Angle, max: Angle)
    ensures ArcWidth(min, max) <= 4095 && FrozenTo(Recentred(ArcWidth(min, max)), min, max)
  {
    Ends(min, max);
    var w := ArcWidth(min, max);
    RecentredIs(w);
    InsideExactly(min, max);
    if Midpoint(min, max) != 0 && w <= 4094 {
      forall d: Angle
        ensures Displays(min, max, min, d) ==> d == RecentredMin(w)
        ensures Displays(min, max, max, d) ==> d == RecentredMax(w) + w % 2
      {
        if Displays(min, max, min, d) { FrozenBounds(min, max, min, d); }
        if Displays(min, max, max, d) { FrozenBounds(min, max, max, d); }
      }
    }
    hide Midpoint, ArcWidth, Displays, RecentredMin, RecentredMax, InArc;
  }

  // Arcs given in the command

  /** Arc `i` is the last one given for its motor. */
  predicate LastFor(arcs: seq<Arc>, i: nat) {
    i < |arcs| && forall j | i < j < |arcs| :: arcs[j].motor != arcs[i].motor
  }

  predicate Named(arcs: seq<Arc>, m: nat) { exists j | 0 <= j < |arcs| :: arcs[j].motor == m }

  /** The last arc given for a motor counts; other motors keep their bounds. */
  lemma {:induction false} GivenBounds(bounds: map<nat, Bounds>, arcs: seq<Arc>)
    ensures forall i: nat | LastFor(arcs, i) ::
              arcs[i].motor in FreezeGiven(bounds, arcs) &&
              FrozenTo(FreezeGiven(bounds, arcs)[arcs[i].motor], arcs[i].min, arcs[i].max)
    ensures forall m: nat | !Named(arcs, m) ::
              (m in FreezeGiven(bounds, arcs) <==> m in bounds) &&
              (m in bounds ==> FreezeGiven(bounds, arcs)[m] == bounds[m])
    decreases |arcs|
  {
    if arcs == [] {
    } else {
      var arc, rest := arcs[0], arcs[1..];
      RecentredFits(arc.min, arc.max);
      hide FrozenTo, Recentred, ArcWidth;
      var next := bounds[arc.motor := Recentred(ArcWidth(arc.min, arc.max))];
      GivenBounds(next, rest);
      assert FreezeGiven(bounds, arcs) == FreezeGiven(next, rest);
      hide FreezeGiven;
      forall i: nat | LastFor(arcs, i)
        ensures arcs[i].motor in FreezeGiven(next, rest) &&
                FrozenTo(FreezeGiven(next, rest)[arcs[i].motor], arcs[i].min, arcs[i].max)
      {
        LastTail(arcs, i);
        hide LastFor, Named;
      }
      forall m: nat | !Named(arcs, m)
        ensures !Named(rest, m) && m != arc.motor
      {
        NotNamed(arcs, m);
      }
    }
  }

  lemma LastTail(arcs: seq<Arc>, i: nat)
    requires LastFor(arcs, i)
    ensures i < |arcs| && (i == 0 ==> !Named(arcs[1..], arcs[0].motor))
    ensures i > 0 ==> LastFor(arcs[1..], i - 1) && arcs[1..][i - 1] == arcs[i]
  {
    assert forall j | 0 <= j < |arcs| - 1 :: arcs[1..][j] == arcs[j + 1];
  }

  lemma NotNamed(arcs: seq<Arc>, m: nat)
    requires arcs != [] && !Named(arcs, m)
    ensures !Named(arcs[1..], m) && m != arcs[0].motor
  {
    assert forall j | 0 <= j < |arcs| - 1 :: arcs[1..][j] == arcs[j + 1];
  }

  // Tracked motors

  /** The bounds of a tracked motor become those of its arc; a single position counts as a
      full turn, of which the bounds are 0 and 0. */
  lemma TrackedBoundsFrozen(bounds: map<nat, Bounds>, motors: set<nat>, m: nat)
    requires motors <= bounds.Keys && m in bounds
    ensures var after := FreezeTracked(bounds, motors);
            m in after &&
            if m !in motors then after[m] == bounds[m]
            else if bounds[m].min == bounds[m].max then after[m] == Bounds(0, 0, true)
            else FrozenTo(after[m], bounds[m].min, bounds[m].max)
  {
    RecentredFits(bounds[m].min, bounds[m].max);
    WidthsAgree(bounds[m].min, bounds[m].max);
    hide FrozenTo, ArcWidth, RecentredMin, RecentredMax;
  }

  // The freeze

  /** After a freeze the worker is frozen and tracks nothing, and its bounds are those of the
      arcs: of the last one given for each motor, or of each tracked motor when none is
      given. All other motors keep theirs. */
  lemma AfterFreeze(s: State, arcs: seq<Arc>)
    requires arcs != [] || s.points.Keys <= s.bounds.Keys
    ensures var f := Frozen(s, arcs);
            f.freezed && f.points == map[] &&
            (forall i: nat | LastFor(arcs, i) ::
               arcs[i].motor in f.bounds && FrozenTo(f.bounds[arcs[i].motor], arcs[i].min, arcs[i].max)) &&
            (forall m: nat | arcs == [] && m in s.points ::
               m in f.bounds &&
               if s.bounds[m].min == s.bounds[m].max then f.bounds[m] == Bounds(0, 0, true)
               else FrozenTo(f.bounds[m], s.bounds[m].min, s.bounds[m].max)) &&
            forall m: nat | if arcs == [] then m !in s.points else !Named(arcs, m) ::
              (m in f.bounds <==> m in s.bounds) && (m in s.bounds ==> f.bounds[m] == s.bounds[m])
  {
    if arcs != [] {
      GivenBounds(s.bounds, arcs);
    } else {
      forall m: nat | m in s.bounds
        ensures var after := FreezeTracked(s.bounds, s.points.Keys);
                m in after &&
                if m !in s.points then after[m] == s.bounds[m]
                else if s.bounds[m].min == s.bounds[m].max then after[m] == Bounds(0, 0, true)
                else FrozenTo(after[m], s.bounds[m].min, s.bounds[m].max)
      {
        TrackedBoundsFrozen(s.bounds, s.points.Keys, m);
      }
    }
    hide FrozenTo, FreezeGiven;
  }

  /** Every position that was tracked is displayed inside the frozen bounds. */
  lemma TrackedStaysInside(s: State, m: nat, position: Angle, d: Angle)
    requires s.points.Keys <= s.bounds.Keys && m in s.points && Tracks(s.bounds[m], s.points[m])
    requires position in s.points[m] && Displays(s.bounds[m].min, s.bounds[m].max, position, d)
    requires Midpoint(s.bounds[m].min, s.bounds[m].max) != 0
    requires s.bounds[m].min != s.bounds[m].max && ArcWidth(s.bounds[m].min, s.bounds[m].max) <= 4094
    ensures var b := Frozen(s, []).bounds;
            m in b && b[m].min <= d <= b[m].max + ArcWidth(s.bounds[m].min, s.bounds[m].max) % 2
  {
    var was := s.bounds[m];
    ArcContains(ArcOf(s.points[m]), s.points[m], position);
    AfterFreeze(s, []);
    hide Midpoint, ArcWidth, Displays, InArc, Frozen;
    assert MotorArc(was.min, was.max) == ArcOf(s.points[m]);
  }

  // Below 4096 and above

  /** The correction for every midpoint that a command can bring and whose subtraction does not
      overflow: beyond the encoder's range the wrap and the limits of the register show. */
  lemma CorrectionOfAny(midpoint: u16)
    requires midpoint < 0x8000 || midpoint >= 0x8800
    ensures Correction(midpoint) ==
            if midpoint == 0 then 2047
            else if midpoint < 4096 then midpoint - 2048
            else if midpoint < 8192 then if midpoint == 4096 then -2047 else midpoint - 6144
            else if midpoint < 0x8000 then 2047
            else if midpoint <= 61440 then -2047
            else midpoint - 63488
  {
    I16Is(midpoint);
    I16Is(ToI16(midpoint) - 2048);
    var c: int := ToI16(ToI16(midpoint) - 2048);
    I16Is(c - 4096);
    I16Is(c + 4096);
    hide ToI16;
  }

  lemma I16Is(x: int)
    requires -0x1_0000 <= x < 0x1_0000
    ensures ToI16(x) == if x >= 0x8000 then x - 0x1_0000 else if x < -0x8000 then x + 0x1_0000 else x
  {
  }

  /** Bit 15 of a reported position is its sign: what is read is, on the circle, the
      magnitude forwards or backwards from 0. */
  lemma SignedPosition(raw: u16)
    ensures raw < 0x8000 ==> (raw - NormalPosition(raw)) % 4096 == 0
    ensures raw >= 0x8000 ==> (raw - 0x8000 + NormalPosition(raw)) % 4096 == 0
  {
  }

  /** The encoder position that is tracked, for any reported position and any offset from
      -4096 on: their sum on the circle. */
  lemma TrackedPosition(raw: u16, offset: i16)
    ensures offset >= -4096 ==>
              EncoderPosition(raw, offset) < 4096 &&
              (EncoderPosition(raw, offset) - NormalPosition(raw) - offset) % 4096 == 0
    ensures NormalPosition(raw) + offset < -4096 && (NormalPosition(raw) + offset) % 4096 != 0 ==>
              EncoderPosition(raw, offset) == 0xF000 + (NormalPosition(raw) + offset) % 4096
  {
  }

  // While positions are collected

  /** A new position of a motor moves its bounds to the arc of its positions, not frozen, and
      nothing else; an old one changes nothing, and neither does any while frozen. */
  lemma MovingBounds(s: State, motor: nat, position: Angle)
    requires Kept(s)
    ensures var was, after := Points(s, motor), Step(s, DriveState(motor, position));
            after.freezed == s.freezed &&
            if s.freezed || position in was then after.bounds == s.bounds && (s.freezed ==> after == s)
            else
              motor in after.bounds && !after.bounds[motor].freezed &&
              MotorArc(after.bounds[motor].min, after.bounds[motor].max) == ArcOf(Points(after, motor)) &&
              (forall p: Angle :: p in Points(after, motor) <==> p in was || p == position) &&
              forall m: nat | m != motor ::
                Points(after, m) == Points(s, m) &&
                (m in after.bounds <==> m in s.bounds) && (m in s.bounds ==> after.bounds[m] == s.bounds[m])
  {
    InsertIs(Points(s, motor), position);
    hide Insert, ArcOf;
  }
}
