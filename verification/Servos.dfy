/** What the commands of a bus do to its servos (port.rs): which request an envelope sends,
    and which EEPROM registers can differ after it. */
module Servos {
  import opened Options
  import opened EepromCache

  // Envelopes

  predicate NoneBefore(c: Command, parts: nat) {
    (parts > 0 ==> c.write.None?) && (parts > 1 ==> c.regWrite.None?) && (parts > 2 ==> c.action.None?) &&
    (parts > 3 ==> c.syncWrite.None?) && (parts > 4 ==> c.reset.None?)
  }

  /** Which part of an envelope is executed, both ways: the first that is there, in the order
      write, register write, action, sync write, reset and the calibrations. */
  lemma ExecutedExactly(c: Command, motor: nat, address: nat, value: seq<nat>, motors: seq<(nat, seq<nat>)>)
    ensures Executed(c) == WriteTo(motor, address, value) <==>
            c.write.Some? && c.write.value.value == value &&
            motor == c.write.value.motor % 256 && address == c.write.value.address % 256
    ensures Executed(c) == RegWriteTo(motor) <==>
            NoneBefore(c, 1) && c.regWrite.Some? && motor == c.regWrite.value.motor % 256
    ensures Executed(c) == ActionOf(motor) <==> NoneBefore(c, 2) && c.action.Some? && motor == c.action.value % 256
    ensures Executed(c) == WriteMany(address, motors) <==>
            NoneBefore(c, 3) && c.syncWrite.Some? && motors != [] && c.syncWrite.value.motors == motors &&
            address == c.syncWrite.value.address % 256
    ensures Executed(c) == ResetOf(motor) <==> NoneBefore(c, 4) && c.reset.Some? && motor == c.reset.value % 256
    ensures Executed(c) == ResetAll <==> NoneBefore(c, 5) && c.resetCalibration == Some(true)
    ensures Executed(c) == FreezeAll <==>
            NoneBefore(c, 5) && c.resetCalibration != Some(true) && c.freezeCalibration == Some(true)
    ensures Executed(c) == CalibrateAll <==>
            NoneBefore(c, 5) && c.resetCalibration != Some(true) && c.freezeCalibration != Some(true) && c.autoCalibrate
  {
  }

  /** The first of write, register write, action and reset names this motor. */
  predicate Names(c: Command, motor: nat) {
    (c.write.Some? && c.write.value.motor == motor) ||
    (NoneBefore(c, 1) && c.regWrite.Some? && c.regWrite.value.motor == motor) ||
    (NoneBefore(c, 2) && c.action.Some? && c.action.value == motor) ||
    (NoneBefore(c, 3) && c.reset.Some? && c.reset.value == motor)
  }

  /** The motor of an envelope, both ways; a sync write alone goes to all, and an envelope
      without any of these to none, which is 0. */
  lemma NamedMotor(c: Command, motor: nat)
    ensures MotorId(c) == motor <==>
            Names(c, motor) ||
            (NoneBefore(c, 3) && c.reset.None? && motor == if c.syncWrite.Some? then 254 else 0)
  {
  }

  /** What a command leaves of the cache, both ways. */
  lemma ForgottenExactly(cache: Cache, c: Command, motor: nat)
    ensures motor in AfterCommand(cache, c) <==>
            motor in cache && c.resetCalibration.None? && c.freezeCalibration.None? &&
            ((c.reset.Some? || c.regWrite.Some?) ==> forall id: nat | Names(c, id) :: id % 256 != motor) &&
            !(c.write.Some? && c.write.value.address == 5 && c.write.value.value != [] &&
              c.write.value.motor % 256 == motor)
    ensures motor in AfterCommand(cache, c) ==> AfterCommand(cache, c)[motor] == cache[motor]
  {
    if c.reset.Some? || c.regWrite.Some? {
      NamedMotor(c, MotorId(c));
      assert Names(c, MotorId(c));
      forall id: nat | Names(c, id)
        ensures id == MotorId(c)
      {
        NamedMotor(c, id);
      }
    }
    hide MotorId, Names;
  }

  // Servos

  /** The EEPROM registers of a servo, and the register write it holds until an action. */
  datatype Servo = Servo(eeprom: Image, pending: Option<(nat, seq<nat>)>)

  predicate Proper(s: Servo) { |s.eeprom| == EEPROM_SIZE }

  function Id(s: Servo): nat
    requires Proper(s)
  {
    s.eeprom[5]
  }

  /** A servo takes what is sent to its id, or to all. */
  predicate Takes(s: Servo, target: nat)
    requires Proper(s)
  {
    Id(s) == target || target == 254
  }

  /** Bytes put into the registers from an address on; what goes past the EEPROM registers
      goes into others. */
  function Poke(eeprom: Image, address: nat, value: seq<nat>): (r: Image)
    ensures |r| == |eeprom|
    ensures forall i | 0 <= i < |r| ::
              r[i] == if address <= i < address + |value| then value[i - address] else eeprom[i]
  {
    seq(|eeprom|, i requires 0 <= i < |eeprom| =>
      if address <= i < address + |value| then value[i - address] else eeprom[i])
  }

  /** The values of a sync write that are meant for a servo, one after the other. */
  function PokeAll(eeprom: Image, id: nat, address: nat, motors: seq<(nat, seq<nat>)>): (r: Image)
    ensures |r| == |eeprom|
  {
    if motors == [] then eeprom
    else
      var before, m := PokeAll(eeprom, id, address, motors[..|motors| - 1]), motors[|motors| - 1];
      if m.0 % 256 == id || m.0 % 256 == 254 then Poke(before, address, m.1) else before
  }

  /** What an operation can make of the EEPROM registers of a servo. Restarting a servo that
      was reset keeps its id; what a calibration writes is not said. */
  ghost predicate Becomes(o: Operation, s: Servo, eeprom: Image)
    requires Proper(s)
  {
    |eeprom| == EEPROM_SIZE &&
    match o
    case WriteTo(target, address, value) =>
      eeprom == if Takes(s, target) then Poke(s.eeprom, address, value) else s.eeprom
    case RegWriteTo(_) => eeprom == s.eeprom
    case ActionOf(target) =>
      eeprom == if Takes(s, target) && s.pending.Some? then Poke(s.eeprom, s.pending.value.0, s.pending.value.1)
                else s.eeprom
    case WriteMany(address, motors) => eeprom == PokeAll(s.eeprom, Id(s), address, motors)
    case ResetOf(target) => eeprom[5] == Id(s) && (!Takes(s, target) ==> eeprom == s.eeprom)
    case ResetAll => true
    case FreezeAll => true
    case CalibrateAll => true
    case Nothing => eeprom == s.eeprom
  }

  lemma PokeOther(eeprom: Image, address: nat, value: seq<nat>)
    requires |eeprom| == EEPROM_SIZE && (value == [] || address >= EEPROM_SIZE)
    ensures Poke(eeprom, address, value) == eeprom
  {
  }

  /** A servo that has the id after a write that may not change that id's registers had it
      before, with the same registers. */
  lemma WriteKeeps(s: Servo, target: nat, address: nat, value: seq<nat>, motor: nat)
    requires Proper(s) && !MayWrite(target, address, value, motor) && Takes(s, target)
    requires Poke(s.eeprom, address, value)[5] == motor
    ensures Poke(s.eeprom, address, value) == s.eeprom
  {
    if value == [] || address >= EEPROM_SIZE { PokeOther(s.eeprom, address, value); }
  }

  /** The same of all values of a sync write; each servo takes those sent to the id it has
      when the write begins. */
  lemma {:induction false} WritesKeep(eeprom: Image, id: nat, address: nat, motors: seq<(nat, seq<nat>)>, motor: nat)
    requires |eeprom| == EEPROM_SIZE && eeprom[5] == id
    requires forall i | 0 <= i < |motors| :: !MayWrite(motors[i].0 % 256, address, motors[i].1, motor)
    requires PokeAll(eeprom, id, address, motors)[5] == motor
    ensures PokeAll(eeprom, id, address, motors) == eeprom
  {
    if motors == [] {
    } else {
      var g, m := motors[..|motors| - 1], motors[|motors| - 1];
      var before := PokeAll(eeprom, id, address, g);
      assert !MayWrite(m.0 % 256, address, m.1, motor);
      if (m.0 % 256 == id || m.0 % 256 == 254) && m.1 != [] && address < EEPROM_SIZE {
        if before[5] == motor {
          assert forall i | 0 <= i < |g| :: g[i] == motors[i];
          WritesKeep(eeprom, id, address, g, motor);
        }
      } else {
        if m.0 % 256 == id || m.0 % 256 == 254 { PokeOther(before, address, m.1); }
        assert forall i | 0 <= i < |g| :: g[i] == motors[i];
        WritesKeep(eeprom, id, address, g, motor);
      }
    }
  }

  /** What `MayChange` stands for: after any other operation a servo that answers under this
      id has answered under it before, with the same EEPROM registers. */
  lemma OthersKeep(o: Operation, s: Servo, eeprom: Image, motor: nat)
    requires Proper(s) && Becomes(o, s, eeprom) && !MayChange(o, motor) && eeprom[5] == motor
    ensures Id(s) == motor && eeprom == s.eeprom
  {
    hide MayWrite;
    match o
    case WriteTo(target, address, value) =>
      if Takes(s, target) { WriteKeeps(s, target, address, value, motor); }
    case WriteMany(address, motors) => WritesKeep(s.eeprom, Id(s), address, motors, motor);
    case _ =>
  }

  /** The write puts its own id into a servo, and nothing else. */
  predicate OwnId(o: Operation, motor: nat) {
    (o.WriteTo? && o.motor == motor && o.address == 5 && o.value == [motor]) ||
    (o.WriteMany? && |o.motors| == 1 && o.motors[0].0 % 256 == motor && o.address == 5 && o.motors[0].1 == [motor])
  }

  function Filled(id: nat, fill: nat): (r: Image)
    ensures |r| == EEPROM_SIZE && r[5] == id && forall i | 0 <= i < |r| && i != 5 :: r[i] == fill
  {
    seq(EEPROM_SIZE, i => if i == 5 then id else fill)
  }

  lemma WriteReaches(target: nat, address: nat, value: seq<nat>, motor: nat) returns (s: Servo)
    requires MayWrite(target, address, value, motor) && !(target == motor && address == 5 && value == [motor])
    ensures Proper(s) && Takes(s, target)
    ensures var after := Poke(s.eeprom, address, value);
            after != s.eeprom && (Id(s) == motor || after[5] == motor)
  {
    var r := if address == 5 && |value| > 1 then 6 else address;
    if Reaches(target, motor) && r != 5 {
      s := Servo(Filled(motor, value[r - address] + 1), None);
      assert Poke(s.eeprom, address, value)[r] != s.eeprom[r];
    } else if Reaches(target, motor) {
      s := Servo(Filled(if value[0] == motor then motor + 1 else motor, 0), None);
      assert Poke(s.eeprom, address, value)[5] == value[0] != s.eeprom[5];
    } else {
      s := Servo(Filled(target, 0), None);
      assert Poke(s.eeprom, address, value)[5] == motor != s.eeprom[5];
    }
  }

  /** And each of the operations that it names can do so, but for a write of the id that the
      servo has: some servo that answers under this id, before or after it, has other
      registers afterwards. */
  lemma SomeChanges(o: Operation, motor: nat) returns (s: Servo, eeprom: Image)
    requires MayChange(o, motor) && !OwnId(o, motor) && (o.WriteMany? ==> |o.motors| == 1)
    ensures Proper(s) && Becomes(o, s, eeprom) && eeprom != s.eeprom && (Id(s) == motor || eeprom[5] == motor)
  {
    if o.WriteTo? {
      s := WriteReaches(o.motor, o.address, o.value, motor);
      eeprom := Poke(s.eeprom, o.address, o.value);
    } else if o.WriteMany? {
      s := WriteReaches(o.motors[0].0 % 256, o.address, o.motors[0].1, motor);
      eeprom := Poke(s.eeprom, o.address, o.motors[0].1);
      assert o.motors[..0] == [];
      assert PokeAll(s.eeprom, Id(s), o.address, o.motors[..0]) == s.eeprom;
    } else if o.ActionOf? {
      var change := if o.motor == motor || o.motor == 254 then (0, [1]) else (5, [motor]);
      s := Servo(Filled(if o.motor == 254 then motor else o.motor, 0), Some(change));
      eeprom := Poke(s.eeprom, change.0, change.1);
      assert eeprom[change.0] != s.eeprom[change.0];
    } else {
      s := Servo(Filled(motor, 0), None);
      eeprom := Filled(motor, 1);
      assert eeprom[0] != s.eeprom[0];
    }
  }
}
