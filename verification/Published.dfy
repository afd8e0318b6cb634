/** What is published of a bus and of a motor after any run of envelopes: the fields of the
    envelope that wrote them last (state.rs). */
module Published {
  import opened Options
  import opened BusState
  import opened BusHistory

  // Motors

  /** A listed motor shows the queue pointer, the stamp, the data and the error of its
      latest report, and the bounds that were known then, zeros when none were. */
  lemma MotorShown(h: seq<Event>, port: string, motor: nat, i: nat)
    requires i < |h| && Reports(h[i], port, motor) && forall j | i < j < |h| :: !Reports(h[j], port, motor)
    requires Listed(Run(h), port, motor)
    ensures var shown, e := Run(h)[port].motors[motor].reading, h[i].envelope;
            var serial := e.bus.value.serial;
            shown.pointer == h[i].pointer && shown.stamp == e.stamp &&
            shown.data == e.data && shown.error == e.error &&
            shown.range == (if serial in h[i].bounds && motor in h[i].bounds[serial] then h[i].bounds[serial][motor]
                            else Range(0, 0, false))
  {
    hide Listed, Run;
    LatestReport(h, port, motor, i);
  }

  /** What becomes of a command, as the signal says. */
  predicate Became(result: Result, signal: Signal) {
    (signal == CommandSent && result == Processing) || (signal == CommandSuccess && result == Success) ||
    (signal == CommandRejected && result == Rejected) || (signal == CommandFailed && result == Failed)
  }

  /** The envelope tells what became of a command to the motor: one sent to it, or a sync
      write to all that has it among its motors. */
  predicate Tells(e: Event, port: string, motor: nat) {
    On(e, port) && e.envelope.command.Some? && e.envelope.motor != 0 &&
    e.envelope.signal in {CommandSent, CommandSuccess, CommandRejected, CommandFailed} &&
    if e.envelope.motor == 254 && e.envelope.command.value.syncWrite.Some? then
      motor in e.envelope.command.value.syncWrite.value
    else e.envelope.motor == motor
  }

  predicate Shows(m: map<string, BusView>, port: string, motor: nat, e: Event)
    requires e.envelope.command.Some?
  {
    Listed(m, port, motor) && m[port].motors[motor].lastCommand.Some? &&
    m[port].motors[motor].lastCommand.value.0 == e.envelope.command.value &&
    Became(m[port].motors[motor].lastCommand.value.1, e.envelope.signal)
  }

  lemma StepCommand(m: map<string, BusView>, e: Event, port: string, motor: nat)
    requires Counts(e.envelope) && Listed(Step(m, e.envelope, e.pointer, e.bounds), port, motor)
    ensures var m' := Step(m, e.envelope, e.pointer, e.bounds);
            if !Listed(m, port, motor) then m'[port].motors[motor].lastCommand == None
            else if Tells(e, port, motor) then Shows(m', port, motor, e)
            else m'[port].motors[motor].lastCommand == m[port].motors[motor].lastCommand
  {
    hide ReadingOf;
  }

  /** A motor shows the last command it was told about since it was listed, with what the
      envelope said became of it. */
  lemma {:induction false} CommandShown(h: seq<Event>, port: string, motor: nat, i: nat)
    requires i < |h| && Tells(h[i], port, motor) && Listed(Run(h[..i]), port, motor)
    requires forall j | i < j < |h| ::
               !Tells(h[j], port, motor) && !Disconnects(h[j], port) && !Drops(h[j], port, motor)
    ensures Shows(Run(h), port, motor, h[i])
  {
    var g, e := h[..|h| - 1], h[|h| - 1];
    if i < |g| {
      assert forall j | 0 <= j < |g| :: g[j] == h[j];
      assert g[..i] == h[..i];
      CommandShown(g, port, motor, i);
    }
    StillListed(g, e, port, motor);
    if Counts(e.envelope) {
      StepCommand(Run(g), e, port, motor);
    }
    hide Step, Tells, Disconnects, Drops;
  }

  lemma StillListed(g: seq<Event>, e: Event, port: string, motor: nat)
    requires Listed(Run(g), port, motor) && !Disconnects(e, port) && !Drops(e, port, motor)
    ensures Listed(if Counts(e.envelope) then Step(Run(g), e.envelope, e.pointer, e.bounds) else Run(g), port, motor)
  {
    hide Listed, Run, Step, Disconnects, Drops, Reports;
    if Counts(e.envelope) { StepMotor(Run(g), e, port, motor); }
  }

  /** It shows none when it was told about none since it was listed. */
  lemma {:induction false} NoCommandShown(h: seq<Event>, port: string, motor: nat, i: nat)
    requires i < |h| && !Listed(Run(h[..i]), port, motor) && Listed(Run(h), port, motor)
    requires forall j | i < j < |h| :: Listed(Run(h[..j]), port, motor) && !Tells(h[j], port, motor)
    ensures Run(h)[port].motors[motor].lastCommand == None
  {
    hide *;
    var g, e := h[..|h| - 1], h[|h| - 1];
    assert h == g + [e] && h[..|g|] == g;
    if i < |g| {
      assert g[..i] == h[..i];
      forall j | i < j < |g|
        ensures g[..j] == h[..j] && g[j] == h[j]
      {
      }
      NoCommandShown(g, port, motor, i);
    }
    NoneStays(g, e, port, motor);
  }

  lemma NoneStays(g: seq<Event>, e: Event, port: string, motor: nat)
    requires Listed(Run(g + [e]), port, motor) && !(Listed(Run(g), port, motor) && Tells(e, port, motor))
    ensures Listed(Run(g), port, motor) ==>
              Run(g + [e])[port].motors[motor].lastCommand == Run(g)[port].motors[motor].lastCommand
    ensures !Listed(Run(g), port, motor) ==> Run(g + [e])[port].motors[motor].lastCommand == None
  {
    assert (g + [e])[..|g|] == g;
    hide Tells, Step;
    if Counts(e.envelope) { StepCommand(Run(g), e, port, motor); }
  }

  // Buses

  /** A connect that lists the bus. */
  ghost predicate Adds(h: seq<Event>, port: string, i: nat) {
    i < |h| && Connects(h[i], port) && port !in Run(h[..i])
  }

  /** An event that stamps the bus: the connect that lists it, or a state or an error from
      it while it is listed, even one without a motor id. */
  ghost predicate Stamps(h: seq<Event>, port: string, i: nat) {
    i < |h| &&
    (Adds(h, port, i) ||
     (On(h[i], port) && port in Run(h[..i]) &&
      (h[i].envelope.signal == DriveState || h[i].envelope.signal == DriveError)))
  }

  lemma StepShown(m: map<string, BusView>, e: Event, port: string)
    requires Counts(e.envelope) && port in Step(m, e.envelope, e.pointer, e.bounds)
    ensures var b := Step(m, e.envelope, e.pointer, e.bounds)[port];
            var stamped := On(e, port) && (e.envelope.signal == DriveState || e.envelope.signal == DriveError);
            if port !in m then Connects(e, port) && b.info == e.envelope.bus.value && b.stamp == e.envelope.stamp
            else b.info == m[port].info && b.stamp == if stamped then e.envelope.stamp else m[port].stamp
  {
    hide ReadingOf, Addressed, Commanded, Report;
  }

  lemma AtPrefix(g: seq<Event>, e: Event, port: string, i: nat)
    requires i < |g|
    ensures Adds(g + [e], port, i) <==> Adds(g, port, i)
    ensures Stamps(g + [e], port, i) <==> Stamps(g, port, i)
  {
    assert (g + [e])[..i] == g[..i];
    hide Run, Connects, On;
  }

  lemma AtLast(g: seq<Event>, e: Event, port: string)
    requires port in Run(g + [e])
    ensures Adds(g + [e], port, |g|) ==> Run(g + [e])[port].info == e.envelope.bus.value
    ensures !Adds(g + [e], port, |g|) ==> port in Run(g) && Run(g + [e])[port].info == Run(g)[port].info
    ensures Stamps(g + [e], port, |g|) ==> Run(g + [e])[port].stamp == e.envelope.stamp
    ensures !Stamps(g + [e], port, |g|) ==> port in Run(g) && Run(g + [e])[port].stamp == Run(g)[port].stamp
  {
    assert (g + [e])[..|g|] == g;
    hide Step;
    if Counts(e.envelope) { StepShown(Run(g), e, port); }
  }

  /** A listed bus shows its name and serial number as the connect that listed it gave
      them. */
  lemma {:induction false} BusShown(h: seq<Event>, port: string, c: nat)
    requires port in Run(h)
    requires c < |h| && Adds(h, port, c) && forall j | c < j < |h| :: !Adds(h, port, j)
    ensures Run(h)[port].info == h[c].envelope.bus.value
  {
    hide Adds, Stamps, Run, Step;
    var g, e := h[..|h| - 1], h[|h| - 1];
    assert h == g + [e];
    AtLast(g, e, port);
    if c < |g| {
      forall j | 0 <= j < |g|
        ensures Adds(h, port, j) <==> Adds(g, port, j)
      {
        AtPrefix(g, e, port, j);
      }
      BusShown(g, port, c);
    }
  }

  /** And the stamp of the latest event that stamps it. */
  lemma {:induction false} StampShown(h: seq<Event>, port: string, i: nat)
    requires port in Run(h)
    requires i < |h| && Stamps(h, port, i) && forall j | i < j < |h| :: !Stamps(h, port, j)
    ensures Run(h)[port].stamp == h[i].envelope.stamp
  {
    hide Adds, Stamps, Run, Step;
    var g, e := h[..|h| - 1], h[|h| - 1];
    assert h == g + [e];
    AtLast(g, e, port);
    if i < |g| {
      forall j | 0 <= j < |g|
        ensures Stamps(h, port, j) <==> Stamps(g, port, j)
      {
        AtPrefix(g, e, port, j);
      }
      StampShown(g, port, i);
    }
  }
}
