/** The grace window of scan_motors (port.rs): a motor that stops answering should be
    given up only after 100 ms of consecutive misses. Times are in nanoseconds. */
module Grace {
  const GRACE := 100_000_000

  datatype Tracker = Tracker(lastSeen: set<nat>, missing: map<nat, int>)

  /** A scan that ran to its end: who answered, whom the search found, and when. */
  datatype Scan = Scan(answered: set<nat>, found: set<nat>, now: int)

  function FirstMissed(s: Tracker, motor: nat, now: int): int {
    if motor in s.missing then s.missing[motor] else now
  }

  function Missing(s: Tracker, answered: set<nat>): set<nat> { s.lastSeen - answered }

  function Evicted(s: Tracker, answered: set<nat>, now: int): set<nat> {
    set m | m in Missing(s, answered) && now - FirstMissed(s, m, now) >= GRACE
  }

  function Kept(s: Tracker, answered: set<nat>, now: int): set<nat> {
    Missing(s, answered) - Evicted(s, answered, now)
  }

  /** The motors seen after the grace check: those that answered and those kept. */
  function Current(s: Tracker, answered: set<nat>, now: int): set<nat> {
    answered * s.lastSeen + Kept(s, answered, now)
  }

  /** The tracker after the grace check, before the final clearing. */
  function Noted(s: Tracker, answered: set<nat>, now: int): map<nat, int> {
    map m | m in (s.missing.Keys + Missing(s, answered)) - Evicted(s, answered, now) :: FirstMissed(s, m, now)
  }

  /** As written, the tracker is cleared for all motors now seen, the kept ones among
      them; as intended, for those that answered. */
  function Step(asWritten: bool, s: Tracker, scan: Scan): Tracker {
    var current := Current(s, scan.answered, scan.now);
    var cleared := if asWritten then current else scan.answered * s.lastSeen;
    Tracker(current + scan.found, Noted(s, scan.answered, scan.now) - cleared)
  }

  function Run(asWritten: bool, s: Tracker, h: seq<Scan>): Tracker {
    if h == [] then s else Step(asWritten, Run(asWritten, s, h[..|h| - 1]), h[|h| - 1])
  }

  // As written

  /** With an empty tracker no one is evicted, no one is lost, and the tracker is empty
      again. */
  lemma AsWrittenStep(s: Tracker, scan: Scan)
    requires s.missing == map[]
    ensures Evicted(s, scan.answered, scan.now) == {}
    ensures Step(true, s, scan) == Tracker(s.lastSeen + scan.found, map[])
  {
    var e := Evicted(s, scan.answered, scan.now);
    assert forall m :: m !in e;
    assert Current(s, scan.answered, scan.now) == s.lastSeen;
  }

  /** So over any run the set of seen motors only grows, whoever stops answering. */
  lemma {:induction false} NeverForgets(s: Tracker, h: seq<Scan>)
    requires s.missing == map[]
    ensures Run(true, s, h).missing == map[]
    ensures s.lastSeen <= Run(true, s, h).lastSeen
    ensures forall m :: m in Run(true, s, h).lastSeen <==>
              m in s.lastSeen || exists i :: 0 <= i < |h| && m in h[i].found
  {
    if h == [] {
    } else {
      var n, g := |h| - 1, h[..|h| - 1];
      NeverForgets(s, g);
      AsWrittenStep(Run(true, s, g), h[n]);
      hide Step;
      forall m
        ensures (exists i :: 0 <= i < |h| && m in h[i].found) <==>
                (exists i :: 0 <= i < n && m in g[i].found) || m in h[n].found
      {
        if i :| 0 <= i < |h| && m in h[i].found { assert i < n ==> m in g[i].found; }
        if i :| 0 <= i < n && m in g[i].found { assert m in h[i].found; }
      }
    }
  }

  // As intended

  const START := Tracker({}, map[])

  /** The motor was seen and not missing before scan `i`, and has missed every scan since,
      each within the grace window of scan `i`. */
  ghost predicate MissingSince(h: seq<Scan>, motor: nat, i: nat) {
    i < |h| &&
    motor in Run(false, START, h[..i]).lastSeen && motor !in Run(false, START, h[..i]).missing &&
    forall j | i <= j < |h| :: motor !in h[j].answered && h[j].now - h[i].now < GRACE
  }

  lemma MissingSinceStep(g: seq<Scan>, e: Scan, motor: nat, i: nat)
    ensures var s := Run(false, START, g);
            MissingSince(g + [e], motor, i) <==>
            (MissingSince(g, motor, i) && motor !in e.answered && e.now - g[i].now < GRACE) ||
            (i == |g| && motor in s.lastSeen && motor !in s.missing && motor !in e.answered)
  {
    hide Run;
    var h := g + [e];
    assert h[|g|] == e;
    if i < |g| { assert h[..i] == g[..i]; }
    if i == |g| { assert h[..i] == g; }
    assert forall j | 0 <= j < |g| :: g[j] == h[j];
  }

  lemma IntendedStep(s: Tracker, e: Scan, motor: nat)
    requires s.missing.Keys <= s.lastSeen
    ensures var s' := Step(false, s, e);
            s'.missing.Keys <= s'.lastSeen &&
            (motor in s'.missing <==>
               motor in s.lastSeen && motor !in e.answered && e.now - FirstMissed(s, motor, e.now) < GRACE) &&
            (motor in s'.missing ==> s'.missing[motor] == FirstMissed(s, motor, e.now))
  {
  }

  /** The tracker holds, for each missing motor, the time of the first scan of its
      present streak of misses. */
  lemma {:induction false} MissingExactly(h: seq<Scan>, motor: nat)
    ensures Run(false, START, h).missing.Keys <= Run(false, START, h).lastSeen
    ensures motor in Run(false, START, h).missing <==> exists i: nat :: MissingSince(h, motor, i)
    ensures forall i: nat | MissingSince(h, motor, i) ::
              motor in Run(false, START, h).missing && Run(false, START, h).missing[motor] == h[i].now
  {
    if h == [] {
    } else {
      var g, e := h[..|h| - 1], h[|h| - 1];
      var s := Run(false, START, g);
      assert h == g + [e];
      MissingExactly(g, motor);
      IntendedStep(s, e, motor);
      forall i: nat
        ensures MissingSince(h, motor, i) <==>
                (MissingSince(g, motor, i) && motor !in e.answered && e.now - g[i].now < GRACE) ||
                (i == |g| && motor in s.lastSeen && motor !in s.missing && motor !in e.answered)
      {
        MissingSinceStep(g, e, motor, i);
      }
      assert Run(false, START, h) == Step(false, s, e);
      hide Step, MissingSince, Run;
      if motor in s.lastSeen && motor !in s.missing && motor !in e.answered { assert MissingSince(h, motor, |g|); }
    }
  }

  /** The intended bound: a motor is evicted exactly when it misses a scan at least 100 ms
      after the first scan of its present streak of misses. */
  lemma EvictedExactly(h: seq<Scan>, e: Scan, motor: nat)
    ensures motor in Evicted(Run(false, START, h), e.answered, e.now) <==>
            motor !in e.answered && exists i: nat :: MissingSince(h, motor, i) && e.now - h[i].now >= GRACE
  {
    MissingExactly(h, motor);
    hide Run, MissingSince;
  }

  /** A motor that has missed every scan from `i` on, as long as the window allowed, is no
      longer seen once it misses a scan after the window, unless the search finds it. */
  lemma GivenUp(h: seq<Scan>, e: Scan, motor: nat, i: nat)
    requires MissingSince(h, motor, i) && motor !in e.answered && motor !in e.found
    ensures motor in Run(false, START, h + [e]).lastSeen <==> e.now - h[i].now < GRACE
  {
    MissingExactly(h, motor);
    assert (h + [e])[..|h|] == h;
  }
}
