/** What the worker of a bus puts into its queue (port.rs): for each command and each read the
    signals it means to send, without those that cannot be sent. */
module WorkerTells {
  import opened Options
  import opened EepromCache
  import opened BusWorker

  /** What a command should send: that it came, the error of a servo with its data or any
      other error without, the result, and for a write to the id register that did not break
      the worker the disconnect of the old id. */
  function Intended(c: Command, result: Processing): seq<Signal> {
    [CommandSent(MotorId(c), c)] +
    (if result.Faulty? then [DriveError(MotorId(c) % 65536, result.data)]
     else if result.TimedOut? || result.Broken? then [DriveError(MotorId(c) % 65536, [])] else []) +
    [CommandResult(MotorId(c), c, result)] +
    (if c.write.Some? && c.write.value.address == 5 && |c.write.value.value| > 0 && !result.Broken? then
       [DriveDisconnect(c.write.value.motor % 256)] else [])
  }

  /** What of it is sent: a signal that cannot be is left out, and ends the command when it is
      one of the two around it. */
  function Passed(signals: seq<Signal>, w: World): seq<Signal> {
    if signals == [] then []
    else if !w.fails(signals[0]) then [signals[0]] + Passed(signals[1..], w)
    else if signals[0].CommandSent? || signals[0].CommandResult? then []
    else Passed(signals[1..], w)
  }

  lemma PassedFirst(s: Signal, rest: seq<Signal>, w: World)
    ensures Passed([s] + rest, w) ==
            if !w.fails(s) then [s] + Passed(rest, w)
            else if s.CommandSent? || s.CommandResult? then [] else Passed(rest, w)
  {
    assert ([s] + rest)[1..] == rest;
  }

  function Kept(part: seq<Signal>, w: World): seq<Signal> { if part == [] || w.fails(part[0]) then [] else part }

  lemma PassedParts(sent: Signal, error: seq<Signal>, done: Signal, gone: seq<Signal>, w: World)
    requires sent.CommandSent? && done.CommandResult?
    requires |error| <= 1 && forall s | s in error :: s.DriveError?
    requires |gone| <= 1 && forall s | s in gone :: s.DriveDisconnect?
    ensures Passed([sent] + error + [done] + gone, w) ==
            if w.fails(sent) then []
            else [sent] + Kept(error, w) + (if w.fails(done) then [] else [done] + Kept(gone, w))
  {
    hide Passed, Kept;
    PassedEnd(gone, w);
    PassedFirst(done, gone, w);
    PassedError(error, [done] + gone, w);
    PassedFirst(sent, error + ([done] + gone), w);
    Regroup([sent], error, [done], gone);
    if !w.fails(sent) {
      var last := if w.fails(done) then [] else [done] + Kept(gone, w);
      assert [sent] + Kept(error, w) + last == [sent] + (Kept(error, w) + last);
    }
  }

  lemma Regroup(a: seq<Signal>, b: seq<Signal>, c: seq<Signal>, d: seq<Signal>)
    ensures a + b + c + d == a + (b + (c + d))
  {
  }

  lemma PassedError(error: seq<Signal>, rest: seq<Signal>, w: World)
    requires |error| <= 1 && forall s | s in error :: s.DriveError?
    ensures Passed(error + rest, w) == Kept(error, w) + Passed(rest, w)
  {
    if error == [] {
      assert error + rest == rest;
    } else {
      assert error == [error[0]] && error[0] in error;
      PassedFirst(error[0], rest, w);
    }
    hide Passed;
  }

  /** The signals of a command, for any outcome and any failing sends. */
  lemma CommandSends(c: Command, result: Processing, w: World)
    ensures CommandSignals(c, result, w) == Passed(Intended(c, result), w)
  {
    hide MotorId, Passed;
    var id := MotorId(c);
    var sent, done := CommandSent(id, c), CommandResult(id, c, result);
    var gone := if ChangesId(c) && !result.Broken? then [DriveDisconnect(c.write.value.motor % 256)] else [];
    var error := if result.Faulty? then [DriveError(id % 65536, result.data)]
                 else if result.TimedOut? || result.Broken? then [DriveError(id % 65536, [])] else [];
    PassedParts(sent, error, done, gone, w);
    ErrorKept(c, result, w);
    assert CommandError(c, result, w) == Kept(error, w);
    hide CommandError;
    assert Intended(c, result) == [sent] + error + [done] + gone;
    hide Intended;
  }

  lemma ErrorKept(c: Command, result: Processing, w: World)
    ensures CommandError(c, result, w) ==
            if result.Accepted? || result.Rejected? then []
            else Kept([DriveError(MotorId(c) % 65536, if result.Faulty? then result.data else [])], w)
  {
  }

  lemma PassedEnd(gone: seq<Signal>, w: World)
    requires |gone| <= 1 && forall s | s in gone :: s.DriveDisconnect?
    ensures Passed(gone, w) == Kept(gone, w)
  {
    if gone != [] { assert gone[1..] == []; }
  }

  /** The signals of a read when all can be sent: the error with the servo's data, and behind
      it the image, if there is one. */
  lemma ReadSends(cache: Cache, motor: nat, w: World)
    requires forall s: Signal :: !w.fails(s)
    ensures var reply, image := w.reply(motor), Read(cache, motor, w.reply(motor)).image;
            var state := if image.Some? then [DriveState(motor, image.value)] else [];
            SignalsOf(cache, motor, w) ==
            if reply.NoAnswer? then [DriveError(motor, [])]
            else if reply.ServoError? then [DriveError(motor, reply.data)] + state
            else state
  {
  }

  /** A search in which no command waits asks all ids from 1 to 8 that are not seen. */
  lemma AskedAll(ignore: set<nat>, w: World, motor: nat)
    requires forall k: nat :: !w.searchWaiting(k)
    ensures Asked(ignore, w, motor) <==> 0 < motor < 9 && motor !in ignore
  {
  }

  /** And otherwise those ahead of the first check at which one waits. */
  lemma AskedUpTo(ignore: set<nat>, w: World, motor: nat, first: nat)
    requires 0 < first && w.searchWaiting(first) && forall k | 0 < k < first :: !w.searchWaiting(k)
    ensures Asked(ignore, w, motor) <==> 0 < motor < 9 && motor !in ignore && motor < first
  {
  }
}
