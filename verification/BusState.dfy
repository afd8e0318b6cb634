/** The published state of buses and motors (state.rs): two nested lists, updated by the
    envelopes that the drivers send. */
module BusState {
  import opened Options
  import opened Keyed

  datatype BusInfo = BusInfo(port: string, serial: string)

  datatype Stamp = Stamp(monotonic: nat, system: nat, appStart: nat)

  datatype Range = Range(min: nat, max: nat, freezed: bool)

  datatype Command = Command(id: seq<nat>, syncWrite: Option<seq<nat>>)

  datatype Result = Processing | Success | Rejected | Failed

  datatype Motor = Motor(id: nat, reading: Reading, lastCommand: Option<(Command, Result)>)

  datatype Reading = Reading(pointer: nat, stamp: Stamp, data: seq<nat>, error: Option<nat>, range: Range)

  datatype Bus = Bus(info: BusInfo, stamp: Stamp, motors: seq<Motor>)

  datatype Signal =
    | BusConnect | BusDisconnect | DriveState | DriveError | DriveDisconnect
    | CommandSent | CommandSuccess | CommandRejected | CommandFailed | Other

  datatype Envelope = Envelope(bus: Option<BusInfo>, signal: Signal, motor: nat, stamp: Stamp, data: seq<nat>,
                               error: Option<nat>, command: Option<Command>)

  type AllBounds = map<string, map<nat, Range>>

  const BROADCAST := 254

  function PortOf(): Bus -> string { (b: Bus) => b.info.port }

  function IdOf(): Motor -> nat { (m: Motor) => m.id }

  // The finite map behind the lists

  datatype BusView = BusView(info: BusInfo, stamp: Stamp, motors: map<nat, Motor>)

  function Same(): Motor -> Motor { (m: Motor) => m }

  function MotorsOf(motors: seq<Motor>): map<nat, Motor> { MapOf(motors, IdOf(), Same()) }

  function ViewBus(): Bus -> BusView { (b: Bus) => BusView(b.info, b.stamp, MotorsOf(b.motors)) }

  function View(buses: seq<Bus>): map<string, BusView> { MapOf(buses, PortOf(), ViewBus()) }

  ghost predicate ValidMotors(motors: seq<Motor>) {
    Distinct(motors, IdOf()) && forall i | 0 <= i < |motors| :: motors[i].id != 0
  }

  /** Port names are distinct, and so are the motor ids of a bus, which are not 0. */
  ghost predicate Valid(buses: seq<Bus>) {
    Distinct(buses, PortOf()) && forall i | 0 <= i < |buses| :: ValidMotors(buses[i].motors)
  }

  function RangeOf(bounds: AllBounds, serial: string, motor: nat): Range {
    if serial in bounds && motor in bounds[serial] then bounds[serial][motor] else Range(0, 0, false)
  }

  function ReadingOf(e: Envelope, pointer: nat, bounds: AllBounds): Reading
    requires e.bus.Some?
  {
    Reading(pointer, e.stamp, e.data, e.error, RangeOf(bounds, e.bus.value.serial, e.motor))
  }

  /** The motors a command is addressed to: those of a broadcast sync write, or one. */
  function Addressed(e: Envelope): set<nat>
    requires e.command.Some?
  {
    var c := e.command.value;
    if e.motor == BROADCAST && c.syncWrite.Some? then set id | id in c.syncWrite.value else {e.motor}
  }

  function Report(m: map<nat, Motor>, id: nat, reading: Reading): map<nat, Motor> {
    m[id := if id in m then m[id].(reading := reading) else Motor(id, reading, None)]
  }

  function Commanded(m: map<nat, Motor>, ids: set<nat>, command: Command, result: Result): map<nat, Motor> {
    map id | id in m :: if id in ids then m[id].(lastCommand := Some((command, result))) else m[id]
  }

  function ResultOf(s: Signal): Result {
    match s
    case CommandSent => Processing
    case CommandSuccess => Success
    case CommandRejected => Rejected
    case _ => Failed
  }

  /** An envelope counts when it names a bus with a serial number. */
  predicate Counts(e: Envelope) { e.bus.Some? && e.bus.value.serial != "" }

  /** What an envelope does to the map. */
  function Step(m: map<string, BusView>, e: Envelope, pointer: nat, bounds: AllBounds): map<string, BusView>
    requires Counts(e)
  {
    var info, port := e.bus.value, e.bus.value.port;
    if e.signal == BusConnect then if port in m then m else m[port := BusView(info, e.stamp, map[])]
    else if e.signal == BusDisconnect then m - {port}
    else if e.signal == Other || port !in m then m
    else
      var b := m[port];
      if e.signal == DriveDisconnect then m[port := b.(motors := b.motors - {e.motor})]
      else if e.signal == DriveState || e.signal == DriveError then m[port := Reported(b, e, pointer, bounds)]
      else if e.motor == 0 || e.command.None? then m
      else m[port := b.(motors := Commanded(b.motors, Addressed(e), e.command.value, ResultOf(e.signal)))]
  }

  /** A state or error: the bus is stamped even when the motor id is 0. */
  function Reported(b: BusView, e: Envelope, pointer: nat, bounds: AllBounds): BusView
    requires e.bus.Some?
  {
    BusView(b.info, e.stamp,
            if e.motor == 0 then b.motors else Report(b.motors, e.motor, ReadingOf(e, pointer, bounds)))
  }

  // The program

  class BusCommunicator {
    var buses: seq<Bus>
    var bounds: AllBounds
    var published: seq<seq<Bus>>

    constructor ()
      ensures buses == [] && bounds == map[] && published == []
    {
      buses, bounds, published := [], map[], [];
    }

    method AddBus(info: BusInfo, stamp: Stamp)
      requires Valid(buses)
      modifies this`buses
      ensures Valid(buses)
      ensures View(buses) == if info.port in View(old(buses)) then View(old(buses))
                             else View(old(buses))[info.port := BusView(info, stamp, map[])]
    {
      MapOfKeys(buses, PortOf(), ViewBus(), info.port);
      if Find(buses, PortOf(), info.port).Some? { return; }
      MapOfAppend(buses, PortOf(), ViewBus(), Bus(info, stamp, []));
      buses := buses + [Bus(info, stamp, [])];
    }

    method RemoveBus(info: BusInfo)
      requires Valid(buses)
      modifies this`buses
      ensures Valid(buses) && View(buses) == View(old(buses)) - {info.port}
    {
      MapOfWithout(buses, PortOf(), ViewBus(), info.port);
      buses := Without(buses, PortOf(), info.port);
      forall i | 0 <= i < |buses|
        ensures ValidMotors(buses[i].motors)
      {
        WithoutIn(old(buses), PortOf(), info.port, buses[i]);
        hide ValidMotors;
      }
    }

    method UpdateMotorState(pointer: nat, e: Envelope)
      requires Valid(buses) && e.bus.Some?
      modifies this`buses
      ensures Valid(buses)
      ensures var m, port := View(old(buses)), e.bus.value.port;
              View(buses) == if port in m then m[port := Reported(m[port], e, pointer, bounds)] else m
    {
      ghost var port := e.bus.value.port;
      MapOfKeys(buses, PortOf(), ViewBus(), port);
      var found := Find(buses, PortOf(), e.bus.value.port);
      if found.None? { return; }
      var i := found.value;
      MapOfAt(buses, PortOf(), ViewBus(), i);
      var bus := buses[i].(stamp := e.stamp);
      if e.motor != 0 {
        var motors := UpdateMotor(bus.motors, e.motor, ReadingOf(e, pointer, bounds));
        bus := bus.(motors := motors);
      }
      MapOfUpdate(buses, PortOf(), ViewBus(), i, bus);
      buses := buses[i := bus];
    }

    method UpdateMotor(motors: seq<Motor>, id: nat, reading: Reading) returns (r: seq<Motor>)
      requires id != 0 && ValidMotors(motors)
      ensures ValidMotors(r)
      ensures MotorsOf(r) == Report(MotorsOf(motors), id, reading)
    {
      MapOfKeys(motors, IdOf(), Same(), id);
      var found := Find(motors, IdOf(), id);
      if found.Some? {
        var m := motors[found.value].(reading := reading);
        MapOfAt(motors, IdOf(), Same(), found.value);
        MapOfUpdate(motors, IdOf(), Same(), found.value, m);
        r := motors[found.value := m];
      } else {
        MapOfAppend(motors, IdOf(), Same(), Motor(id, reading, None));
        r := motors + [Motor(id, reading, None)];
      }
    }

    method RemoveMotorState(info: BusInfo, motor: nat)
      requires Valid(buses)
      modifies this`buses
      ensures Valid(buses)
      ensures var m, port := View(old(buses)), info.port;
              View(buses) == if port in m then m[port := m[port].(motors := m[port].motors - {motor})] else m
    {
      MapOfKeys(buses, PortOf(), ViewBus(), info.port);
      var found := Find(buses, PortOf(), info.port);
      if found.None? { return; }
      var i := found.value;
      MapOfAt(buses, PortOf(), ViewBus(), i);
      var bus := buses[i].(motors := Without(buses[i].motors, IdOf(), motor));
      MapOfWithout(buses[i].motors, IdOf(), Same(), motor);
      forall k | 0 <= k < |bus.motors|
        ensures bus.motors[k].id != 0
      {
        WithoutIn(buses[i].motors, IdOf(), motor, bus.motors[k]);
      }
      MapOfUpdate(buses, PortOf(), ViewBus(), i, bus);
      buses := buses[i := bus];
    }

    method UpdateCommandResult(e: Envelope, result: Result)
      requires Valid(buses) && e.bus.Some?
      modifies this`buses
      ensures Valid(buses)
      ensures var m, port := View(old(buses)), e.bus.value.port;
              View(buses) ==
              if e.motor == 0 || e.command.None? || port !in m then m
              else m[port := m[port].(motors := Commanded(m[port].motors, Addressed(e), e.command.value, result))]
    {
      if e.motor == 0 { return; }
      if e.command.None? { return; }
      var command := e.command.value;
      MapOfKeys(buses, PortOf(), ViewBus(), e.bus.value.port);
      var found := Find(buses, PortOf(), e.bus.value.port);
      if found.None? { return; }
      var i := found.value;
      MapOfAt(buses, PortOf(), ViewBus(), i);
      var motors := buses[i].motors;
      if e.motor == BROADCAST && command.syncWrite.Some? {
        motors := SetLastCommands(motors, command.syncWrite.value, command, result);
        assert SetOf(command.syncWrite.value) == Addressed(e);
      } else {
        motors := SetLastCommand(motors, e.motor, command, result);
      }
      hide Commanded, MotorsOf, ValidMotors;
      var bus := buses[i].(motors := motors);
      MapOfUpdate(buses, PortOf(), ViewBus(), i, bus);
      buses := buses[i := bus];
    }

    /** The last commands of all motors of a sync write. */
    method SetLastCommands(motors: seq<Motor>, ids: seq<nat>, command: Command, result: Result)
      returns (r: seq<Motor>)
      requires ValidMotors(motors)
      ensures ValidMotors(r) && MotorsOf(r) == Commanded(MotorsOf(motors), SetOf(ids), command, result)
    {
      r := motors;
      CommandedNone(MotorsOf(motors), command, result);
      assert SetOf(ids[..0]) == {};
      hide MotorsOf, ValidMotors, Commanded;
      for k := 0 to |ids|
        invariant ValidMotors(r)
        invariant MotorsOf(r) == Commanded(MotorsOf(motors), SetOf(ids[..k]), command, result)
      {
        r := SetLastCommand(r, ids[k], command, result);
        CommandedMore(MotorsOf(motors), SetOf(ids[..k]), ids[k], command, result);
        assert SetOf(ids[..k + 1]) == SetOf(ids[..k]) + {ids[k]};
      }
      assert ids[..|ids|] == ids;
    }

    /** The last command of a motor, if it is listed. */
    method SetLastCommand(motors: seq<Motor>, id: nat, command: Command, result: Result) returns (r: seq<Motor>)
      requires ValidMotors(motors)
      ensures ValidMotors(r) && MotorsOf(r) == Commanded(MotorsOf(motors), {id}, command, result)
    {
      MapOfKeys(motors, IdOf(), Same(), id);
      var found := Find(motors, IdOf(), id);
      if found.Some? {
        var m := motors[found.value].(lastCommand := Some((command, result)));
        MapOfAt(motors, IdOf(), Same(), found.value);
        MapOfUpdate(motors, IdOf(), Same(), found.value, m);
        r := motors[found.value := m];
      } else {
        r := motors;
      }
    }

    /** update_state; every envelope that counts publishes a snapshot. */
    method UpdateState(e: Envelope, pointer: nat)
      requires Valid(buses)
      modifies this`buses, this`published
      ensures Valid(buses)
      ensures View(buses) == if Counts(e) then Step(View(old(buses)), e, pointer, bounds) else View(old(buses))
      ensures published == if Counts(e) then old(published) + [buses] else old(published)
    {
      hide Valid, View, Addressed, Commanded, Reported;
      if e.bus.None? { return; }
      var info := e.bus.value;
      if info.serial == "" { return; }
      match e.signal {
        case BusConnect => AddBus(info, e.stamp);
        case BusDisconnect => RemoveBus(info);
        case DriveState => UpdateMotorState(pointer, e);
        case DriveError => UpdateMotorState(pointer, e);
        case DriveDisconnect => RemoveMotorState(info, e.motor);
        case CommandSent => UpdateCommandResult(e, Processing);
        case CommandSuccess => UpdateCommandResult(e, Success);
        case CommandRejected => UpdateCommandResult(e, Rejected);
        case CommandFailed => UpdateCommandResult(e, Failed);
        case Other =>
      }
      published := published + [buses];
    }

    method ResetBounds(serial: string)
      modifies this`bounds
      ensures bounds == old(bounds) - {serial}
    {
      bounds := bounds - {serial};
    }

    method UpdateBounds(serial: string, motor: nat, range: Range)
      modifies this`bounds
      ensures forall s, m ::
                RangeOf(bounds, s, m) == if s == serial && m == motor then range else RangeOf(old(bounds), s, m)
    {
      var ofBus := if serial in bounds then bounds[serial] else map[];
      bounds := bounds[serial := ofBus[motor := range]];
    }
  }

  function SetOf(ids: seq<nat>): set<nat> { set id | id in ids }

  lemma CommandedNone(m: map<nat, Motor>, command: Command, result: Result)
    ensures Commanded(m, {}, command, result) == m
  {
  }

  lemma CommandedMore(m: map<nat, Motor>, ids: set<nat>, id: nat, command: Command, result: Result)
    ensures Commanded(Commanded(m, ids, command, result), {id}, command, result) ==
            Commanded(m, ids + {id}, command, result)
  {
  }
}
