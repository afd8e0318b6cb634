/** The EEPROM cache of the bus worker (port.rs): a motor's EEPROM registers are read once
    and put in front of each later read of its RAM registers, until a command that may
    change them. */
module EepromCache {
  import opened Options

  const EEPROM_SIZE: nat := 0x28
  const RAM_SIZE: nat := 0x45 + 2 - 0x28
  const FULL_SIZE: nat := EEPROM_SIZE + RAM_SIZE

  type Image = seq<nat>

  type Cache = map<nat, Image>

  /** The answer of a motor. `Registers` is a full-length one: of all its registers, those
      asked for. Anything else may come too. */
  datatype Reply = Registers(all: Image) | Data(data: Image) | ServoError(data: Image) | NoAnswer

  /** The image to publish, and the cache. */
  datatype Outcome = Outcome(image: Option<Image>, cache: Cache)

  /** What one motor's read does. A cached motor is asked for its RAM registers only. */
  function Read(cache: Cache, motor: nat, reply: Reply): Outcome {
    var cached := if motor in cache then Some(cache[motor]) else None;
    match reply
    case Registers(all) =>
      Taken(cache, motor, cached, if cached.None? || |all| < EEPROM_SIZE then all else all[EEPROM_SIZE..])
    case Data(data) => Taken(cache, motor, cached, data)
    case ServoError(data) =>
      Outcome(if data == [] then None
              else if |data| >= FULL_SIZE then Some(data)
              else if |data| >= RAM_SIZE && cached.Some? then Some(cached.value + data)
              else Some([]), cache)
    case NoAnswer => Outcome(None, cache)
  }

  function Taken(cache: Cache, motor: nat, cached: Option<Image>, data: Image): Outcome {
    if data == [] then Outcome(None, cache)
    else if cached.Some? then Outcome(Some(cached.value + data), cache)
    else Outcome(Some(data), if |data| >= EEPROM_SIZE then cache[motor := data[..EEPROM_SIZE]] else cache)
  }

  // Commands

  datatype Write = Write(motor: nat, address: nat, value: seq<nat>)

  /** One address, and a value for each of several motors. */
  datatype SyncWrite = SyncWrite(address: nat, motors: seq<(nat, seq<nat>)>)

  /** The parts of a command envelope that matter here; a malformed one may carry several. */
  datatype Command = Command(
    write: Option<Write>, regWrite: Option<Write>, action: Option<nat>, reset: Option<nat>,
    syncWrite: Option<SyncWrite>, resetCalibration: Option<bool>, freezeCalibration: Option<bool>, autoCalibrate: bool)

  const NOTHING := Command(None, None, None, None, None, None, None, false)

  const BROADCAST := 0xFE
  const ID_ADDRESS := 0x05

  /** get_motor_id, or 0 */
  function MotorId(c: Command): nat {
    if c.write.Some? then c.write.value.motor
    else if c.regWrite.Some? then c.regWrite.value.motor
    else if c.action.Some? then c.action.value
    else if c.reset.Some? then c.reset.value
    else if c.syncWrite.Some? then BROADCAST
    else 0
  }

  /** What is sent to the servos, in the order in which process_command looks. */
  datatype Operation =
    | WriteTo(motor: nat, address: nat, value: seq<nat>) | RegWriteTo(motor: nat) | ActionOf(motor: nat)
    | WriteMany(address: nat, motors: seq<(nat, seq<nat>)>)
    | ResetOf(motor: nat) | ResetAll | FreezeAll | CalibrateAll | Nothing

  function Executed(c: Command): Operation {
    if c.write.Some? then WriteTo(c.write.value.motor % 256, c.write.value.address % 256, c.write.value.value)
    else if c.regWrite.Some? then RegWriteTo(c.regWrite.value.motor % 256)
    else if c.action.Some? then ActionOf(c.action.value % 256)
    else if c.syncWrite.Some? then
      if c.syncWrite.value.motors == [] then Nothing
      else WriteMany(c.syncWrite.value.address % 256, c.syncWrite.value.motors)
    else if c.reset.Some? then ResetOf(c.reset.value % 256)
    else if c.resetCalibration == Some(true) then ResetAll
    else if c.freezeCalibration == Some(true) then FreezeAll
    else if c.autoCalibrate then CalibrateAll
    else Nothing
  }

  predicate ChangesId(c: Command) {
    c.write.Some? && c.write.value.address == ID_ADDRESS && c.write.value.value != []
  }

  function Invalidate(cache: Cache, c: Command): Cache {
    if c.resetCalibration.Some? || c.freezeCalibration.Some? then map[]
    else if c.reset.Some? || c.regWrite.Some? then cache - {MotorId(c) % 256}
    else cache
  }

  /** The cache after a command whose processing did not end the worker. */
  function AfterCommand(cache: Cache, c: Command): Cache {
    var cache := Invalidate(cache, c);
    if ChangesId(c) then cache - {c.write.value.motor % 256} else cache
  }

  predicate Invalidates(c: Command, motor: nat) {
    c.resetCalibration.Some? || c.freezeCalibration.Some? ||
    ((c.reset.Some? || c.regWrite.Some?) && MotorId(c) % 256 == motor) ||
    (ChangesId(c) && c.write.value.motor % 256 == motor)
  }

  /** Whatever else an envelope carries: when a register write or a reset of a motor is
      what it executes, that motor is invalidated, and a calibration command
      invalidates every motor. */
  lemma ExecutedIsInvalidated(c: Command, motor: nat)
    ensures Executed(c) in {RegWriteTo(motor), ResetOf(motor), ResetAll, FreezeAll} ==> Invalidates(c, motor)
    ensures motor in AfterCommand(map[motor := []], c) <==> !Invalidates(c, motor)
  {
  }

  // Runs

  datatype Event = Answer(motor: nat, reply: Reply) | Done(command: Command)

  function Next(cache: Cache, e: Event): Cache {
    match e
    case Answer(motor, reply) => Read(cache, motor, reply).cache
    case Done(command) => AfterCommand(cache, command)
  }

  function Run(cache: Cache, h: seq<Event>): Cache {
    if h == [] then cache else Next(Run(cache, h[..|h| - 1]), h[|h| - 1])
  }

  /** Consecutive parts of a run, such as the scans and commands of a worker. */
  lemma {:induction false} RunConcat(cache: Cache, a: seq<Event>, b: seq<Event>)
    ensures Run(cache, a + b) == Run(Run(cache, a), b)
    decreases |b|
  {
    if b == [] {
      assert a + b == a;
    } else {
      var n := |b| - 1;
      assert (a + b)[..|a + b| - 1] == a + b[..n];
      RunConcat(cache, a, b[..n]);
      hide Next;
    }
  }

  /** Every cached block is exactly the EEPROM registers. */
  predicate Blocks(cache: Cache) { forall m | m in cache :: |cache[m]| == EEPROM_SIZE }

  lemma {:induction false} BlocksKept(cache: Cache, h: seq<Event>)
    requires Blocks(cache)
    ensures Blocks(Run(cache, h))
  {
    if h == [] {
    } else {
      BlocksKept(cache, h[..|h| - 1]);
    }
  }

  predicate FullLength(e: Event) {
    e.Answer? ==> !e.reply.Data? && (e.reply.Registers? ==> |e.reply.all| == FULL_SIZE)
  }

  function BytesOf(reply: Reply): Image {
    match reply
    case Registers(all) => all
    case Data(data) => data
    case _ => []
  }

  /** A read of the motor without an error that is long enough to hold its EEPROM
      registers. */
  predicate ReadsOf(e: Event, motor: nat) {
    e.Answer? && e.motor == motor && |BytesOf(e.reply)| >= EEPROM_SIZE
  }

  /** The EEPROM part of the registers a read reported. */
  function EepromOf(e: Event): Image {
    if e.Answer? && |BytesOf(e.reply)| >= EEPROM_SIZE then BytesOf(e.reply)[..EEPROM_SIZE] else []
  }

  predicate Clears(e: Event, motor: nat) { e.Done? && Invalidates(e.command, motor) }

  /** Every read of the motor so far has been followed by an invalidation. */
  ghost predicate Unread(h: seq<Event>, motor: nat) {
    forall j | 0 <= j < |h| && ReadsOf(h[j], motor) :: ClearedAfter(h, motor, j)
  }

  ghost predicate ClearedAfter(h: seq<Event>, motor: nat, j: nat) {
    exists k :: j < k < |h| && Clears(h[k], motor)
  }

  /** Event `i` is the first read of the motor since it was last invalidated. */
  ghost predicate FilledAt(h: seq<Event>, motor: nat, i: nat) {
    i < |h| && ReadsOf(h[i], motor) && Unread(h[..i], motor) && !ClearedAfter(h, motor, i)
  }

  lemma ClearedStep(g: seq<Event>, e: Event, motor: nat, j: nat)
    requires j < |g|
    ensures ClearedAfter(g + [e], motor, j) <==> ClearedAfter(g, motor, j) || Clears(e, motor)
    ensures !ClearedAfter(g + [e], motor, |g|)
  {
    var h := g + [e];
    if Clears(e, motor) { assert Clears(h[|g|], motor); }
    if k :| j < k < |g| && Clears(g[k], motor) { assert Clears(h[k], motor); }
    if k :| j < k < |h| && Clears(h[k], motor) && k < |g| { assert Clears(g[k], motor); }
  }

  lemma UnreadStep(g: seq<Event>, e: Event, motor: nat)
    ensures Unread(g + [e], motor) <==> Clears(e, motor) || (!ReadsOf(e, motor) && Unread(g, motor))
  {
    var h := g + [e];
    forall j: nat | j < |g|
      ensures ClearedAfter(h, motor, j) <==> ClearedAfter(g, motor, j) || Clears(e, motor)
      ensures h[j] == g[j] && !ClearedAfter(h, motor, |g|)
    {
      ClearedStep(g, e, motor, j);
    }
    assert h[|g|] == e;
    assert !ClearedAfter(h, motor, |g|);
    if Clears(e, motor) { assert !ReadsOf(e, motor); }
    hide ClearedAfter, ReadsOf, Clears;
    if Unread(h, motor) && !Clears(e, motor) {
      forall j | 0 <= j < |g| && ReadsOf(g[j], motor)
        ensures ClearedAfter(g, motor, j)
      {
        assert ReadsOf(h[j], motor);
      }
    }
  }

  lemma FilledStep(g: seq<Event>, e: Event, motor: nat, i: nat)
    ensures FilledAt(g + [e], motor, i) <==>
            (FilledAt(g, motor, i) && !Clears(e, motor)) || (i == |g| && ReadsOf(e, motor) && Unread(g, motor))
  {
    var h := g + [e];
    assert h[|g|] == e;
    if i < |g| {
      ClearedStep(g, e, motor, i);
      assert h[..i] == g[..i] && h[i] == g[i];
    }
    if i == |g| {
      assert h[..i] == g;
      assert !ClearedAfter(h, motor, |g|);
    }
    hide ClearedAfter, ReadsOf, Clears, Unread;
  }

  lemma NextIs(cache: Cache, e: Event, motor: nat)
    ensures var c := Next(cache, e);
            if Clears(e, motor) then motor !in c
            else if ReadsOf(e, motor) && motor !in cache then motor in c && c[motor] == EepromOf(e)
            else (motor in c <==> motor in cache) && (motor in c ==> c[motor] == cache[motor])
  {
  }

  /** A motor is cached exactly when it was read since its last invalidation, and the
      block is that of the first such read. */
  lemma {:induction false} CachedExactly(h: seq<Event>, motor: nat)
    ensures motor in Run(map[], h) <==> !Unread(h, motor)
    ensures motor in Run(map[], h) <==> exists i: nat :: FilledAt(h, motor, i)
    ensures forall i: nat | FilledAt(h, motor, i) ::
              motor in Run(map[], h) && Run(map[], h)[motor] == EepromOf(h[i])
  {
    if h == [] {
    } else {
      var g, e := h[..|h| - 1], h[|h| - 1];
      assert h == g + [e];
      CachedExactly(g, motor);
      NextIs(Run(map[], g), e, motor);
      UnreadStep(g, e, motor);
      forall i: nat
        ensures FilledAt(h, motor, i) <==>
                (FilledAt(g, motor, i) && !Clears(e, motor)) || (i == |g| && ReadsOf(e, motor) && Unread(g, motor))
      {
        FilledStep(g, e, motor, i);
      }
      assert !(Clears(e, motor) && ReadsOf(e, motor));
      assert Run(map[], h) == Next(Run(map[], g), e);
      hide FilledAt, Unread, Next, Clears, ReadsOf, Run, EepromOf;
      if ReadsOf(e, motor) && Unread(g, motor) { assert FilledAt(h, motor, |g|); }
    }
  }

  /** The image published from an answer that reports the registers: the EEPROM part is the
      one from the first read since the motor was last invalidated, this very read if
      there is none, the rest is the present one, and register `a` is at byte `a`. */
  lemma PublishedImage(h: seq<Event>, motor: nat, all: Image)
    requires |all| > EEPROM_SIZE
    ensures var image := Read(Run(map[], h), motor, Registers(all)).image;
            (Unread(h, motor) ==> image == Some(all)) &&
            (forall i: nat | FilledAt(h, motor, i) :: image == Some(EepromOf(h[i]) + all[EEPROM_SIZE..])) &&
            image.Some? && |image.value| == |all| &&
            forall a | EEPROM_SIZE <= a < |all| :: image.value[a] == all[a]
  {
    hide Unread, FilledAt, Run, EepromOf, Read, Blocks, ReadsOf, ClearedAfter, Clears;
    CachedExactly(h, motor);
    NoBlocks();
    BlocksKept(map[], h);
    ImageRead(Run(map[], h), motor, all);
  }

  /** What any other answer without an error publishes: its bytes, behind the EEPROM
      registers of the read that filled the cache, if there is one. */
  lemma PublishedData(h: seq<Event>, motor: nat, data: Image)
    ensures var image := Read(Run(map[], h), motor, Data(data)).image;
            (data == [] <==> image == None) &&
            (data != [] && Unread(h, motor) ==> image == Some(data)) &&
            forall i: nat | FilledAt(h, motor, i) && data != [] :: image == Some(EepromOf(h[i]) + data)
    ensures |data| < EEPROM_SIZE ==>
              Read(Run(map[], h), motor, Registers(data)).image == Read(Run(map[], h), motor, Data(data)).image
    ensures |data| == EEPROM_SIZE ==>
              Read(Run(map[], h), motor, Registers(data)).image == if Unread(h, motor) then Some(data) else None
    ensures Read(Run(map[], h), motor, NoAnswer).image == None
  {
    hide Unread, FilledAt, Run, EepromOf;
    CachedExactly(h, motor);
  }

  /** What the answer of a faulty servo publishes. With all registers in it, these; with
      the RAM registers, and no more than part of the others, register `a` of them at byte
      `a` behind the EEPROM registers of the read that filled the cache, and an empty image
      without such a read; an empty image for a shorter one. No such answer fills the
      cache. */
  lemma PublishedFault(h: seq<Event>, motor: nat, data: Image)
    ensures var image := Read(Run(map[], h), motor, ServoError(data)).image;
            (data == [] <==> image == None) &&
            (|data| >= FULL_SIZE ==> image == Some(data)) &&
            (0 < |data| < RAM_SIZE ==> image == Some([])) &&
            (RAM_SIZE <= |data| < FULL_SIZE && Unread(h, motor) ==> image == Some([])) &&
            forall i: nat | FilledAt(h, motor, i) && RAM_SIZE <= |data| < FULL_SIZE ::
              image.Some? && |image.value| == EEPROM_SIZE + |data| &&
              image.value[..EEPROM_SIZE] == EepromOf(h[i]) &&
              forall a | EEPROM_SIZE <= a < EEPROM_SIZE + |data| :: image.value[a] == data[a - EEPROM_SIZE]
    ensures Read(Run(map[], h), motor, ServoError(data)).cache == Run(map[], h)
  {
    hide Unread, FilledAt, Run, ReadsOf, ClearedAfter, Clears, BytesOf;
    CachedExactly(h, motor);
    FilledBlocks(h, motor);
  }

  lemma FilledBlocks(h: seq<Event>, motor: nat)
    ensures forall i: nat | FilledAt(h, motor, i) :: |EepromOf(h[i])| == EEPROM_SIZE
  {
  }

  lemma NoBlocks()
    ensures Blocks(map[])
  {
  }

  lemma ImageRead(cache: Cache, motor: nat, all: Image)
    requires |all| > EEPROM_SIZE && Blocks(cache)
    ensures motor in cache ==> |cache[motor]| == EEPROM_SIZE
    ensures Read(cache, motor, Registers(all)).image ==
            Some(if motor in cache then cache[motor] + all[EEPROM_SIZE..] else all)
  {
  }

  /** After a command that invalidates the motor, its next such image is all current. */
  lemma FreshAfter(h: seq<Event>, c: Command, motor: nat, all: Image)
    requires |all| > EEPROM_SIZE && Invalidates(c, motor)
    ensures Read(Run(map[], h + [Done(c)]), motor, Registers(all)).image == Some(all)
  {
    UnreadStep(h, Done(c), motor);
    PublishedImage(h + [Done(c)], motor, all);
  }

  // Currency

  /** A request to a motor, or to all. */
  predicate Reaches(target: nat, motor: nat) { target == motor || target == BROADCAST }

  /** A write from this address on of which the id register becomes this motor's id. */
  predicate GivesId(address: nat, value: seq<nat>, motor: nat) {
    address <= ID_ADDRESS < address + |value| && value[ID_ADDRESS - address] == motor
  }

  predicate MayWrite(target: nat, address: nat, value: seq<nat>, motor: nat) {
    value != [] && address < EEPROM_SIZE && (Reaches(target, motor) || GivesId(address, value, motor))
  }

  /** The operations after which the EEPROM registers read at a motor id may differ: a
      write of at least one of them, to one servo or to several, or one that gives some
      servo this id; an action, a reset, and a calibration. An action carries out whatever
      register write its servo holds, be it from before the run or one of another
      servo's id; a register write alone changes nothing. */
  predicate MayChange(o: Operation, motor: nat) {
    match o
    case WriteTo(target, address, value) => MayWrite(target, address, value, motor)
    case RegWriteTo(target) => false
    case ActionOf(target) => true
    case WriteMany(address, motors) =>
      exists i :: 0 <= i < |motors| && MayWrite(motors[i].0 % 256, address, motors[i].1, motor)
    case ResetOf(target) => Reaches(target, motor)
    case ResetAll => true
    case FreezeAll => true
    case CalibrateAll => true
    case Nothing => false
  }

  predicate Changes(e: Event, motor: nat) { e.Done? && MayChange(Executed(e.command), motor) }

  /** A behaviour of the servo: its EEPROM registers before each event of a run and after
      the last. They differ only across commands that may change them. */
  ghost predicate Behaves(eeproms: seq<Image>, h: seq<Event>, motor: nat) {
    |eeproms| == |h| + 1 && (forall i | 0 <= i < |eeproms| :: |eeproms[i]| == EEPROM_SIZE) &&
    forall i, j | 0 <= i < |h| && j == i + 1 && !Changes(h[i], motor) :: eeproms[j] == eeproms[i]
  }

  /** The run in which the motor's answers report these EEPROM registers. */
  function Reporting(h: seq<Event>, motor: nat, eeproms: seq<Image>): (r: seq<Event>)
    requires |eeproms| >= |h|
    ensures |r| == |h|
    ensures forall i | 0 <= i < |h| ::
              r[i] == if ReadsOf(h[i], motor) && h[i].reply.Registers? then
                        h[i].(reply := Registers(eeproms[i] + h[i].reply.all[EEPROM_SIZE..]))
                      else h[i]
  {
    seq(|h|, i requires 0 <= i < |h| =>
      if ReadsOf(h[i], motor) && h[i].reply.Registers? then
        h[i].(reply := Registers(eeproms[i] + h[i].reply.all[EEPROM_SIZE..]))
      else h[i])
  }

  /** Whatever the servo does, the image of its next full-length answer is that answer. */
  ghost predicate AlwaysCurrent(h: seq<Event>, motor: nat) {
    forall eeproms, ram: Image | Behaves(eeproms, h, motor) && |ram| == RAM_SIZE ::
      Read(Run(map[], Reporting(h, motor, eeproms)), motor, Registers(eeproms[|h|] + ram)).image ==
      Some(eeproms[|h|] + ram)
  }

  /** Event `j` may have changed the motor's EEPROM registers since the read at `i` that
      filled its cache. */
  ghost predicate ChangedSince(h: seq<Event>, motor: nat, i: nat, j: nat) {
    FilledAt(h, motor, i) && i < j < |h| && Changes(h[j], motor)
  }

  lemma ReportingShape(h: seq<Event>, motor: nat, eeproms: seq<Image>, i: nat)
    requires |eeproms| >= |h| && i < |h| && FullLength(h[i]) && |eeproms[i]| == EEPROM_SIZE
    ensures var r := Reporting(h, motor, eeproms);
            FullLength(r[i]) && (ReadsOf(r[i], motor) <==> ReadsOf(h[i], motor)) &&
            (Clears(r[i], motor) <==> Clears(h[i], motor)) &&
            (ReadsOf(h[i], motor) ==> EepromOf(r[i]) == eeproms[i])
  {
    if ReadsOf(h[i], motor) {
      assert (eeproms[i] + h[i].reply.all[EEPROM_SIZE..])[..EEPROM_SIZE] == eeproms[i];
    }
  }

  /** The contents of the answers do not bear on what is read and cleared when. */
  lemma SameShape(h: seq<Event>, r: seq<Event>, motor: nat)
    requires |r| == |h|
    requires forall i | 0 <= i < |h| ::
               (ReadsOf(r[i], motor) <==> ReadsOf(h[i], motor)) && (Clears(r[i], motor) <==> Clears(h[i], motor))
    ensures Unread(r, motor) <==> Unread(h, motor)
    ensures forall i: nat :: FilledAt(r, motor, i) <==> FilledAt(h, motor, i)
  {
    hide ReadsOf, Clears;
    UnreadSame(h, r, motor);
    forall i: nat | i < |h|
      ensures FilledAt(r, motor, i) <==> FilledAt(h, motor, i)
    {
      UnreadSame(h[..i], r[..i], motor);
      ClearedSame(h, r, motor, i);
      hide Unread, ClearedAfter;
    }
  }

  lemma ClearedSame(h: seq<Event>, r: seq<Event>, motor: nat, j: nat)
    requires |r| == |h| && forall i | 0 <= i < |h| :: Clears(r[i], motor) <==> Clears(h[i], motor)
    ensures ClearedAfter(r, motor, j) <==> ClearedAfter(h, motor, j)
  {
    hide Clears;
  }

  lemma UnreadSame(h: seq<Event>, r: seq<Event>, motor: nat)
    requires |r| == |h|
    requires forall i | 0 <= i < |h| ::
               (ReadsOf(r[i], motor) <==> ReadsOf(h[i], motor)) && (Clears(r[i], motor) <==> Clears(h[i], motor))
    ensures Unread(r, motor) <==> Unread(h, motor)
  {
    hide ReadsOf, Clears;
    forall j: nat | j < |h|
      ensures ClearedAfter(r, motor, j) <==> ClearedAfter(h, motor, j)
    {
      ClearedSame(h, r, motor, j);
    }
    hide ClearedAfter;
  }

  lemma {:induction false} Steady(eeproms: seq<Image>, h: seq<Event>, motor: nat, i: nat, j: nat)
    requires Behaves(eeproms, h, motor) && i <= j <= |h|
    requires forall k | i <= k < j :: !Changes(h[k], motor)
    ensures eeproms[j] == eeproms[i]
  {
    if i == j {
    } else {
      Steady(eeproms, h, motor, i, j - 1);
      assert !Changes(h[j - 1], motor);
    }
  }

  /** What is published from a behaviour's next answer. */
  lemma ImageOf(h: seq<Event>, motor: nat, eeproms: seq<Image>, ram: Image)
    requires (forall i | 0 <= i < |h| :: FullLength(h[i])) && Behaves(eeproms, h, motor) && |ram| == RAM_SIZE
    ensures var now := eeproms[|h|] + ram;
            var image := Read(Run(map[], Reporting(h, motor, eeproms)), motor, Registers(now)).image;
            (Unread(h, motor) ==> image == Some(now)) &&
            forall i: nat | FilledAt(h, motor, i) :: image == Some(eeproms[i] + ram)
  {
    var r := Reporting(h, motor, eeproms);
    forall i | 0 <= i < |h|
      ensures FullLength(r[i]) && (ReadsOf(r[i], motor) <==> ReadsOf(h[i], motor))
      ensures Clears(r[i], motor) <==> Clears(h[i], motor)
      ensures ReadsOf(h[i], motor) ==> EepromOf(r[i]) == eeproms[i]
    {
      ReportingShape(h, motor, eeproms, i);
    }
    SameShape(h, r, motor);
    var now := eeproms[|h|] + ram;
    assert now[EEPROM_SIZE..] == ram;
    PublishedImage(r, motor, now);
    forall i: nat | FilledAt(h, motor, i)
      ensures i < |h| && ReadsOf(h[i], motor)
    {
    }
    hide Reporting, Read, Run, FilledAt, Unread, ReadsOf, Clears, EepromOf, FullLength, Behaves;
  }

  /** A published image is current, whatever the servo does, exactly when nothing has been
      executed that may change the motor's EEPROM registers since the read that filled its
      cache, or when there is none. */
  lemma CurrentExactly(h: seq<Event>, motor: nat)
    requires forall i | 0 <= i < |h| :: FullLength(h[i])
    ensures AlwaysCurrent(h, motor) <==> !exists i: nat, j: nat :: ChangedSince(h, motor, i, j)
  {
    CachedExactly(h, motor);
    if i: nat, j: nat :| ChangedSince(h, motor, i, j) {
      NotCurrent(h, motor, i, j);
    } else {
      forall eeproms, ram: Image | Behaves(eeproms, h, motor) && |ram| == RAM_SIZE
        ensures Read(Run(map[], Reporting(h, motor, eeproms)), motor, Registers(eeproms[|h|] + ram)).image ==
                Some(eeproms[|h|] + ram)
      {
        ImageOf(h, motor, eeproms, ram);
        if i: nat :| FilledAt(h, motor, i) {
          FilledQuiet(h, motor, i);
          Steady(eeproms, h, motor, i, |h|);
        }
      }
    }
  }

  lemma FilledQuiet(h: seq<Event>, motor: nat, i: nat)
    requires FilledAt(h, motor, i) && !exists j: nat :: ChangedSince(h, motor, i, j)
    ensures forall k | i <= k < |h| :: !Changes(h[k], motor)
  {
    forall k: nat | i <= k < |h|
      ensures !Changes(h[k], motor)
    {
      assert k > i ==> !ChangedSince(h, motor, i, k);
    }
  }

  /** A servo whose registers are all 0 until event `j`, and all 1 after it. */
  lemma Flips(h: seq<Event>, motor: nat, j: nat) returns (eeproms: seq<Image>)
    requires j < |h| && Changes(h[j], motor)
    ensures Behaves(eeproms, h, motor)
    ensures forall i | 0 <= i <= j :: eeproms[i][0] == 0
    ensures eeproms[|h|][0] == 1
  {
    hide Changes;
    eeproms := seq(|h| + 1, k => seq(EEPROM_SIZE, _ => if k <= j then 0 else 1));
  }

  lemma NotCurrent(h: seq<Event>, motor: nat, i: nat, j: nat)
    requires (forall k | 0 <= k < |h| :: FullLength(h[k])) && ChangedSince(h, motor, i, j)
    ensures !AlwaysCurrent(h, motor)
  {
    var eeproms := Flips(h, motor, j);
    var ram := seq(RAM_SIZE, _ => 0);
    hide FullLength, FilledAt, Changes, Behaves, Read, Run, Reporting, AlwaysCurrent;
    ImageOf(h, motor, eeproms, ram);
    FirstBytes(eeproms[i], eeproms[|h|], ram);
    if AlwaysCurrent(h, motor) { AlwaysAt(h, motor, eeproms, ram); }
  }

  lemma AlwaysAt(h: seq<Event>, motor: nat, eeproms: seq<Image>, ram: Image)
    requires AlwaysCurrent(h, motor) && Behaves(eeproms, h, motor) && |ram| == RAM_SIZE
    ensures Read(Run(map[], Reporting(h, motor, eeproms)), motor, Registers(eeproms[|h|] + ram)).image ==
            Some(eeproms[|h|] + ram)
  {
  }

  lemma FirstBytes(a: Image, b: Image, c: Image)
    requires a != [] && b != [] && a[0] != b[0]
    ensures a + c != b + c
  {
    assert (a + c)[0] == a[0] && (b + c)[0] == b[0];
  }

  /** A register write waits in the servo for its action. A scan in between caches the
      registers from before, and the action does not invalidate them: the next image
      shows the old EEPROM. */
  lemma StaleAfterAction(motor: nat, w: Write, before: Image, after: Image)
    requires w.motor == motor < 256 && |before| == |after| == FULL_SIZE
    ensures var write, act := NOTHING.(regWrite := Some(w)), NOTHING.(action := Some(motor));
            var h := [Done(write), Answer(motor, Registers(before)), Done(act)];
            Executed(write) == RegWriteTo(motor) && Executed(act) == ActionOf(motor) &&
            Read(Run(map[], h), motor, Registers(after)).image == Some(before[..EEPROM_SIZE] + after[EEPROM_SIZE..])
  {
    var write, act := NOTHING.(regWrite := Some(w)), NOTHING.(action := Some(motor));
    var h := [Done(write), Answer(motor, Registers(before)), Done(act)];
    assert h[..1] == [Done(write)];
    UnreadStep([], Done(write), motor);
    assert [] + [Done(write)] == h[..1];
    assert !ClearedAfter(h, motor, 1);
    assert FilledAt(h, motor, 1);
    hide FilledAt, Unread;
    PublishedImage(h, motor, after);
  }

  /** A plain write below the RAM registers takes effect at once and invalidates nothing,
      unless it sets the id. */
  lemma StaleAfterWrite(motor: nat, w: Write, before: Image, after: Image)
    requires w.motor == motor < 256 && w.address < EEPROM_SIZE && w.address != ID_ADDRESS && w.value != []
    requires |before| == |after| == FULL_SIZE
    ensures var write := NOTHING.(write := Some(w));
            var h := [Answer(motor, Registers(before)), Done(write)];
            MayChange(Executed(write), motor) && !Invalidates(write, motor) &&
            Read(Run(map[], h), motor, Registers(after)).image == Some(before[..EEPROM_SIZE] + after[EEPROM_SIZE..])
  {
    var write := NOTHING.(write := Some(w));
    var h := [Answer(motor, Registers(before)), Done(write)];
    assert h[..0] == [];
    assert !ClearedAfter(h, motor, 0);
    assert FilledAt(h, motor, 0);
    hide FilledAt, Unread;
    PublishedImage(h, motor, after);
  }
}
