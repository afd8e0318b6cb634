/** Which buses and motors the published state lists after any run of envelopes. */
module BusHistory {
  import opened Options
  import opened BusState

  /** An envelope with its queue pointer and the bounds known when it arrived. */
  datatype Event = Event(envelope: Envelope, pointer: nat, bounds: AllBounds)

  function Run(h: seq<Event>): map<string, BusView> {
    if h == [] then map[]
    else
      var m, e := Run(h[..|h| - 1]), h[|h| - 1];
      if Counts(e.envelope) then Step(m, e.envelope, e.pointer, e.bounds) else m
  }

  predicate On(e: Event, port: string) { Counts(e.envelope) && e.envelope.bus.value.port == port }

  predicate Connects(e: Event, port: string) { On(e, port) && e.envelope.signal == BusConnect }

  predicate Disconnects(e: Event, port: string) { On(e, port) && e.envelope.signal == BusDisconnect }

  /** A state or an error of a motor. */
  predicate Reports(e: Event, port: string, motor: nat) {
    On(e, port) && e.envelope.signal in {DriveState, DriveError} && e.envelope.motor == motor != 0
  }

  predicate Drops(e: Event, port: string, motor: nat) {
    On(e, port) && e.envelope.signal == DriveDisconnect && e.envelope.motor == motor
  }

  predicate Listed(m: map<string, BusView>, port: string, motor: nat) { port in m && motor in m[port].motors }

  // One event

  lemma StepBus(m: map<string, BusView>, e: Event, port: string)
    requires Counts(e.envelope)
    ensures port in Step(m, e.envelope, e.pointer, e.bounds) <==>
            (port in m && !Disconnects(e, port)) || Connects(e, port)
  {
  }

  lemma StepMotor(m: map<string, BusView>, e: Event, port: string, motor: nat)
    requires Counts(e.envelope)
    ensures var m' := Step(m, e.envelope, e.pointer, e.bounds);
            (Listed(m', port, motor) <==>
               (Listed(m, port, motor) && !Disconnects(e, port) && !Drops(e, port, motor)) ||
               (port in m && Reports(e, port, motor))) &&
            (Listed(m', port, motor) && Reports(e, port, motor) ==>
               m'[port].motors[motor].reading == ReadingOf(e.envelope, e.pointer, e.bounds)) &&
            (Listed(m', port, motor) && !Reports(e, port, motor) ==>
               Listed(m, port, motor) && m'[port].motors[motor].reading == m[port].motors[motor].reading)
  {
    hide Addressed, ReadingOf;
  }

  // Runs

  /** Connected at `c` and not disconnected since. */
  ghost predicate ConnectedSince(h: seq<Event>, port: string, c: nat) {
    c < |h| && Connects(h[c], port) && forall j | c < j < |h| :: !Disconnects(h[j], port)
  }

  lemma ConnectedStep(g: seq<Event>, e: Event, port: string, c: nat)
    ensures ConnectedSince(g + [e], port, c) <==>
            (ConnectedSince(g, port, c) && !Disconnects(e, port)) || (c == |g| && Connects(e, port))
  {
    hide Connects, Disconnects;
    var h := g + [e];
    assert h[|g|] == e;
    assert forall j | 0 <= j < |g| :: g[j] == h[j];
  }

  lemma {:induction false} ConnectedExactly(h: seq<Event>, port: string)
    ensures port in Run(h) <==> exists c: nat :: ConnectedSince(h, port, c)
  {
    if h == [] {
    } else {
      var g, e := h[..|h| - 1], h[|h| - 1];
      assert h == g + [e];
      ConnectedExactly(g, port);
      forall c: nat
        ensures ConnectedSince(h, port, c) <==>
                (ConnectedSince(g, port, c) && !Disconnects(e, port)) || (c == |g| && Connects(e, port))
      {
        ConnectedStep(g, e, port, c);
      }
      if Counts(e.envelope) { StepBus(Run(g), e, port); }
      hide ConnectedSince, Step;
      if Connects(e, port) { assert ConnectedSince(h, port, |g|); }
    }
  }

  /** Reported at `i`, on a bus connected at `c` before and not disconnected since, and
      not dropped since. */
  ghost predicate ListedSince(h: seq<Event>, port: string, motor: nat, c: nat, i: nat) {
    ConnectedSince(h, port, c) && c < i < |h| && Reports(h[i], port, motor) &&
    forall j | i < j < |h| :: !Drops(h[j], port, motor)
  }

  lemma ListedStep(g: seq<Event>, e: Event, port: string, motor: nat, c: nat, i: nat)
    ensures ListedSince(g + [e], port, motor, c, i) <==>
            (ListedSince(g, port, motor, c, i) && !Disconnects(e, port) && !Drops(e, port, motor)) ||
            (i == |g| && ConnectedSince(g, port, c) && Reports(e, port, motor))
  {
    ConnectedStep(g, e, port, c);
    Apart(e, port, motor);
    hide Connects, Disconnects, Reports, Drops;
    var h := g + [e];
    assert h[|g|] == e;
    assert forall j | 0 <= j < |g| :: g[j] == h[j];
  }

  lemma Apart(e: Event, port: string, motor: nat)
    ensures Reports(e, port, motor) ==> !Disconnects(e, port) && !Connects(e, port)
  {
  }

  /** A motor is listed exactly when it reported a state or an error on a bus that has
      been connected ever since, and has not been dropped after that report. */
  lemma {:induction false} ListedExactly(h: seq<Event>, port: string, motor: nat)
    ensures Listed(Run(h), port, motor) <==> exists c: nat, i: nat :: ListedSince(h, port, motor, c, i)
  {
    if h == [] {
    } else {
      var g, e := h[..|h| - 1], h[|h| - 1];
      assert h == g + [e];
      ListedExactly(g, port, motor);
      ConnectedExactly(g, port);
      forall c: nat, i: nat
        ensures ListedSince(h, port, motor, c, i) <==>
                (ListedSince(g, port, motor, c, i) && !Disconnects(e, port) && !Drops(e, port, motor)) ||
                (i == |g| && ConnectedSince(g, port, c) && Reports(e, port, motor))
      {
        ListedStep(g, e, port, motor, c, i);
      }
      if Counts(e.envelope) { StepMotor(Run(g), e, port, motor); }
      ListedSplit(h, g, e, port, motor);
      hide ListedSince, ConnectedSince, Step, Listed;
    }
  }

  lemma ListedSplit(h: seq<Event>, g: seq<Event>, e: Event, port: string, motor: nat)
    requires forall c: nat, i: nat ::
               ListedSince(h, port, motor, c, i) <==>
               (ListedSince(g, port, motor, c, i) && !Disconnects(e, port) && !Drops(e, port, motor)) ||
               (i == |g| && ConnectedSince(g, port, c) && Reports(e, port, motor))
    ensures (exists c: nat, i: nat :: ListedSince(h, port, motor, c, i)) <==>
            ((exists c: nat, i: nat :: ListedSince(g, port, motor, c, i)) &&
             !Disconnects(e, port) && !Drops(e, port, motor)) ||
            ((exists c: nat :: ConnectedSince(g, port, c)) && Reports(e, port, motor))
  {
    hide *;
    if c: nat :| ConnectedSince(g, port, c) && Reports(e, port, motor) {
      assert ListedSince(h, port, motor, c, |g|);
    }
    if c: nat, i: nat :| ListedSince(g, port, motor, c, i) && !Disconnects(e, port) && !Drops(e, port, motor) {
      assert ListedSince(h, port, motor, c, i);
    }
  }

  /** What is listed of a motor is its latest report. */
  lemma {:induction false} LatestReport(h: seq<Event>, port: string, motor: nat, i: nat)
    requires i < |h| && Reports(h[i], port, motor) && forall j | i < j < |h| :: !Reports(h[j], port, motor)
    requires Listed(Run(h), port, motor)
    ensures Run(h)[port].motors[motor].reading == ReadingOf(h[i].envelope, h[i].pointer, h[i].bounds)
  {
    var g, e := h[..|h| - 1], h[|h| - 1];
    if Counts(e.envelope) { StepMotor(Run(g), e, port, motor); }
    if i < |g| {
      assert forall j | 0 <= j < |g| :: g[j] == h[j];
      hide Step, ReadingOf, Listed, Reports, Disconnects, Drops;
      LatestReport(g, port, motor, i);
    }
  }

  /** A command changes nothing but the last command of the motors it addresses, and
      lists none. */
  lemma CommandsOnlyMark(m: map<string, BusView>, e: Event, port: string, motor: nat)
    requires Counts(e.envelope)
    requires e.envelope.signal in {CommandSent, CommandSuccess, CommandRejected, CommandFailed}
    ensures var m' := Step(m, e.envelope, e.pointer, e.bounds);
            m'.Keys == m.Keys &&
            (port in m ==> m'[port].info == m[port].info && m'[port].stamp == m[port].stamp) &&
            (Listed(m', port, motor) <==> Listed(m, port, motor)) &&
            (Listed(m, port, motor) ==>
               m'[port].motors[motor] ==
               if On(e, port) && e.envelope.motor != 0 && e.envelope.command.Some? &&
                  motor in Addressed(e.envelope)
               then
                 m[port].motors[motor].(lastCommand := Some((e.envelope.command.value, ResultOf(e.envelope.signal))))
               else m[port].motors[motor])
  {
    hide Addressed;
  }

  // Listing by the latest connect

  /** Reported at `i` after the latest connect of the bus, at `c`, with no disconnect since
      that connect and no drop since that report. */
  ghost predicate FreshAt(h: seq<Event>, port: string, motor: nat, c: nat, i: nat) {
    ListedSince(h, port, motor, c, i) && forall j | c < j < |h| :: !Connects(h[j], port)
  }

  ghost predicate ReportedSinceConnect(h: seq<Event>, port: string, motor: nat) {
    exists c: nat, i: nat :: FreshAt(h, port, motor, c, i)
  }

  /** Event `k` is a connect that add_bus returns from at once, since the bus is listed,
      with the motor on it; since then nothing has been heard of the motor or the bus. */
  ghost predicate KeptAt(h: seq<Event>, port: string, motor: nat, k: nat) {
    k < |h| && Connects(h[k], port) && Listed(Run(h[..k]), port, motor) &&
    forall j | k < j < |h| :: !Reports(h[j], port, motor) && !Drops(h[j], port, motor) && !Disconnects(h[j], port)
  }

  lemma {:induction false} LatestConnect(h: seq<Event>, port: string, c: nat) returns (k: nat)
    requires c < |h| && Connects(h[c], port)
    ensures c <= k < |h| && Connects(h[k], port) && forall j | k < j < |h| :: !Connects(h[j], port)
    decreases |h| - c
  {
    if d :| c < d < |h| && Connects(h[d], port) {
      k := LatestConnect(h, port, d);
    } else {
      k := c;
    }
  }

  lemma FreshIsListed(h: seq<Event>, port: string, motor: nat)
    requires ReportedSinceConnect(h, port, motor)
    ensures Listed(Run(h), port, motor)
  {
    ListedExactly(h, port, motor);
    hide ListedSince, Connects, Listed, Run;
  }

  lemma FreshAfter(h: seq<Event>, port: string, motor: nat, c: nat, i: nat, k: nat, r: nat)
    requires ListedSince(h, port, motor, c, i) && c <= k < r < |h| && Reports(h[r], port, motor)
    requires Connects(h[k], port) && forall j | k < j < |h| :: !Connects(h[j], port)
    ensures ReportedSinceConnect(h, port, motor)
  {
    hide Connects, Disconnects, Reports, Drops;
    assert FreshAt(h, port, motor, k, if i < r then r else i);
  }

  lemma StaleIsKept(h: seq<Event>, port: string, motor: nat)
    requires Listed(Run(h), port, motor) && !ReportedSinceConnect(h, port, motor)
    ensures exists k: nat :: KeptAt(h, port, motor, k)
  {
    ListedExactly(h, port, motor);
    hide Connects, Disconnects, Reports, Drops, Listed, Run;
    var c: nat, i: nat :| ListedSince(h, port, motor, c, i);
    var k := LatestConnect(h, port, c);
    forall r: nat | k < r < |h|
      ensures !Reports(h[r], port, motor)
    {
      if Reports(h[r], port, motor) { FreshAfter(h, port, motor, c, i, k, r); }
    }
    Distinct(h[k], port, motor);
    var g := h[..k];
    assert forall j | 0 <= j < k :: g[j] == h[j];
    assert ListedSince(g, port, motor, c, i);
    ListedExactly(g, port, motor);
    assert KeptAt(h, port, motor, k);
  }

  lemma Distinct(e: Event, port: string, motor: nat)
    ensures Connects(e, port) ==> !Reports(e, port, motor) && !Drops(e, port, motor) && !Disconnects(e, port)
  {
  }

  lemma KeptIsStale(h: seq<Event>, port: string, motor: nat, k: nat)
    requires KeptAt(h, port, motor, k)
    ensures Listed(Run(h), port, motor) && !ReportedSinceConnect(h, port, motor)
  {
    var g := h[..k];
    ListedExactly(g, port, motor);
    ListedExactly(h, port, motor);
    Distinct(h[k], port, motor);
    hide Connects, Disconnects, Reports, Drops, Listed, Run;
    var c: nat, i: nat :| ListedSince(g, port, motor, c, i);
    assert forall j | 0 <= j < k :: g[j] == h[j];
    forall j: nat | c < j < |h|
      ensures !Disconnects(h[j], port) && (i < j ==> !Drops(h[j], port, motor))
    {
      if j < k { assert !Disconnects(g[j], port); }
    }
    assert ListedSince(h, port, motor, c, i);
    forall d: nat, r: nat
      ensures !FreshAt(h, port, motor, d, r)
    {
    }
  }

  /** A motor is listed exactly when it reported after the latest connect of its bus, if
      and only if no connect found it listed already and was followed by no report, drop
      or disconnect. */
  lemma LatestConnectExactly(h: seq<Event>, port: string, motor: nat)
    ensures (Listed(Run(h), port, motor) <==> ReportedSinceConnect(h, port, motor)) <==>
            !exists k: nat :: KeptAt(h, port, motor, k)
  {
    hide Listed, Run, ReportedSinceConnect, KeptAt;
    if ReportedSinceConnect(h, port, motor) { FreshIsListed(h, port, motor); }
    if Listed(Run(h), port, motor) && !ReportedSinceConnect(h, port, motor) { StaleIsKept(h, port, motor); }
    if k: nat :| KeptAt(h, port, motor, k) { KeptIsStale(h, port, motor, k); }
  }

  /** A repeated connect does nothing: a motor can stay listed though it has reported
      nothing after the latest connect of its bus. */
  lemma RepeatedConnect(info: BusInfo, stamp: Stamp)
    requires info.serial != ""
    ensures var connect := Event(Envelope(Some(info), BusConnect, 0, stamp, [], None, None), 0, map[]);
            var report := Event(Envelope(Some(info), DriveState, 5, stamp, [], None, None), 1, map[]);
            Listed(Run([connect, report, connect]), info.port, 5)
  {
    var connect := Event(Envelope(Some(info), BusConnect, 0, stamp, [], None, None), 0, map[]);
    var report := Event(Envelope(Some(info), DriveState, 5, stamp, [], None, None), 1, map[]);
    var h := [connect, report, connect];
    assert ListedSince(h, info.port, 5, 0, 1);
    ListedExactly(h, info.port, 5);
  }
}
