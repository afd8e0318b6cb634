/** The worker's loop (port.rs) and what the published state (state.rs) lists of its motors
    meanwhile. */
module BusLoop {
  import opened Options
  import C = EepromCache
  import opened BusWorker
  import opened BusHistory
  import S = BusState

  /** A command with what became of it, or a tick, at which a command may be waiting. */
  datatype Round =
    | Command(command: C.Command, result: Processing, w: World)
    | Tick(busy: bool, search: bool, w: World)

  /** The round is a change of this id to another. */
  predicate GivesUp(r: Round, motor: nat) {
    r.Command? && C.ChangesId(r.command) && r.command.write.value.motor % 256 == motor
  }

  /** Every disconnect sent is that of an id change. */
  ghost predicate OnlyIdChanges(rounds: seq<Round>, before: seq<Signal>, after: seq<Signal>) {
    before <= after &&
    forall i | |before| <= i < |after| && after[i].DriveDisconnect? ::
      exists r :: 0 <= r < |rounds| && GivesUp(rounds[r], after[i].motor)
  }

  /** The iteration order of a set is any. */
  method InSomeOrder(motors: set<nat>) returns (order: seq<nat>)
    ensures forall m :: m in order <==> m in motors
  {
    order := [];
    var rest := motors;
    while rest != {}
      invariant rest <= motors && forall m :: m in order <==> m in motors - rest
      decreases rest
    {
      var m :| m in rest;
      order, rest := order + [m], rest - {m};
    }
  }

  lemma CommandDrops(c: C.Command, result: Processing, w: World)
    ensures var signals := CommandSignals(c, result, w);
            forall i | 0 <= i < |signals| && signals[i].DriveDisconnect? ::
              C.ChangesId(c) && signals[i].motor == c.write.value.motor % 256
  {
  }

  lemma MoreSignals(rounds: seq<Round>, before: seq<Signal>, mid: seq<Signal>, after: seq<Signal>)
    requires OnlyIdChanges(rounds, before, mid) && OnlyIdChanges(rounds, mid, after)
    ensures OnlyIdChanges(rounds, before, after)
  {
    forall i | |before| <= i < |after| && after[i].DriveDisconnect?
      ensures exists r :: 0 <= r < |rounds| && GivesUp(rounds[r], after[i].motor)
    {
      if i < |mid| { assert mid[i] == after[i]; }
    }
  }

  lemma CommandRound(rounds: seq<Round>, k: nat, before: seq<Signal>)
    requires k < |rounds| && rounds[k].Command?
    ensures var r := rounds[k];
            OnlyIdChanges(rounds, before, before + CommandSignals(r.command, r.result, r.w))
  {
    var r := rounds[k];
    CommandDrops(r.command, r.result, r.w);
    hide CommandSignals;
    var after := before + CommandSignals(r.command, r.result, r.w);
    forall i | |before| <= i < |after| && after[i].DriveDisconnect?
      ensures exists j :: 0 <= j < |rounds| && GivesUp(rounds[j], after[i].motor)
    {
      assert GivesUp(rounds[k], after[i].motor);
    }
  }

  lemma QuietRound(rounds: seq<Round>, before: seq<Signal>, after: seq<Signal>)
    requires Quiet(before, after)
    ensures OnlyIdChanges(rounds, before, after)
  {
  }

  /** worker_loop, over any rounds: the seen motors only grow, and no motor is ever
      disconnected for its silence. */
  method Loop(worker: Worker, rounds: seq<Round>) returns (alive: bool)
    requires worker.missing == map[]
    modifies worker
    ensures worker.missing == map[] && old(worker.lastSeen) <= worker.lastSeen
    ensures OnlyIdChanges(rounds, old(worker.sent), worker.sent)
  {
    hide OnlyIdChanges, Quiet, CommandSignals, C.AfterCommand, C.Invalidate, CacheAfter, SentAfter, SeenAfter;
    QuietNow(worker.sent);
    QuietRound(rounds, worker.sent, worker.sent);
    for k := 0 to |rounds|
      invariant worker.missing == map[] && old(worker.lastSeen) <= worker.lastSeen
      invariant OnlyIdChanges(rounds, old(worker.sent), worker.sent)
    {
      ghost var before := worker.sent;
      match rounds[k] {
        case Command(c, result, w) =>
          alive := worker.OnCommand(c, result, w);
          CommandRound(rounds, k, before);
          MoreSignals(rounds, old(worker.sent), before, worker.sent);
          if !alive { return; }
        case Tick(busy, search, w) =>
          if !busy {
            var order := InSomeOrder(worker.lastSeen);
            ghost var whole, scan, done;
            alive, whole, scan, done := worker.ScanMotors(order, w, search);
            QuietRound(rounds, before, worker.sent);
            MoreSignals(rounds, old(worker.sent), before, worker.sent);
            if !alive { return; }
          }
      }
    }
    return true;
  }

  // The published state

  function ResultSignal(result: Processing): S.Signal {
    match result
    case Accepted => S.CommandSuccess
    case Rejected => S.CommandRejected
    case _ => S.CommandFailed
  }

  /** The envelope of a signal, at any time and queue position. */
  predicate Carries(e: Event, info: S.BusInfo, s: Signal) {
    var v := e.envelope;
    v.bus == Some(info) && v.motor == s.motor &&
    match s
    case DriveState(_, image) => v.signal == S.DriveState && v.data == image && v.error.None?
    case DriveError(_, data) => v.signal == S.DriveError && v.data == data && v.error.Some?
    case DriveConnect(_) => v.signal == S.Other
    case DriveDisconnect(_) => v.signal == S.DriveDisconnect
    case CommandSent(_, _) => v.signal == S.CommandSent && v.command.Some?
    case CommandResult(_, _, result) => v.signal == ResultSignal(result) && v.command.Some?
  }

  /** Events among which those on the bus are the envelopes of these signals, in order;
      the workers of other buses send in between. */
  predicate Woven(es: seq<Event>, info: S.BusInfo, signals: seq<Signal>) {
    if es == [] then signals == []
    else
      var e, rest := es[|es| - 1], es[..|es| - 1];
      if !On(e, info.port) then Woven(rest, info, signals)
      else signals != [] && Carries(e, info, signals[|signals| - 1]) && Woven(rest, info, signals[..|signals| - 1])
  }

  /** The motor is reported at `i` and not disconnected after that. */
  ghost predicate ToldAt(signals: seq<Signal>, motor: nat, i: nat) {
    i < |signals| && Tells(signals[i], motor) && DriveDisconnect(motor) !in signals[i + 1..]
  }

  lemma CarriedStep(m: map<string, S.BusView>, e: Event, info: S.BusInfo, s: Signal, motor: nat)
    requires info.serial != "" && info.port in m && Carries(e, info, s) && motor != 0
    ensures var m' := S.Step(m, e.envelope, e.pointer, e.bounds);
            info.port in m' && S.Counts(e.envelope) &&
            (Listed(m', info.port, motor) <==>
               (Listed(m, info.port, motor) && s != DriveDisconnect(motor)) || Tells(s, motor))
  {
    StepBus(m, e, info.port);
    StepMotor(m, e, info.port, motor);
    hide S.Step, Listed;
  }

  lemma ForeignStep(m: map<string, S.BusView>, e: Event, port: string, motor: nat)
    requires !On(e, port) && S.Counts(e.envelope)
    ensures var m' := S.Step(m, e.envelope, e.pointer, e.bounds);
            (port in m' <==> port in m) && (Listed(m', port, motor) <==> Listed(m, port, motor))
  {
    StepBus(m, e, port);
    StepMotor(m, e, port, motor);
    hide S.Step, Listed;
  }

  lemma RunMore(h: seq<Event>, es: seq<Event>)
    requires es != []
    ensures var e, was := es[|es| - 1], Run(h + es[..|es| - 1]);
            Run(h + es) == if S.Counts(e.envelope) then S.Step(was, e.envelope, e.pointer, e.bounds) else was
  {
    var all := h + es;
    assert all[..|all| - 1] == h + es[..|es| - 1] && all[|all| - 1] == es[|es| - 1];
    hide S.Step, S.Counts;
  }

  lemma ToldMore(signals: seq<Signal>, motor: nat)
    requires signals != []
    ensures var s, rest := signals[|signals| - 1], signals[..|signals| - 1];
            (DriveDisconnect(motor) in signals <==> DriveDisconnect(motor) in rest || s == DriveDisconnect(motor)) &&
            ((exists i: nat :: ToldAt(signals, motor, i)) <==>
               Tells(s, motor) || (s != DriveDisconnect(motor) && exists i: nat :: ToldAt(rest, motor, i)))
  {
    var n, s, rest := |signals| - 1, signals[|signals| - 1], signals[..|signals| - 1];
    assert signals == rest + [s];
    forall i: nat
      ensures ToldAt(signals, motor, i) <==>
              (i == n && Tells(s, motor)) || (i < n && s != DriveDisconnect(motor) && ToldAt(rest, motor, i))
    {
      if i < n { assert signals[i + 1..] == rest[i + 1..] + [s]; }
    }
    if Tells(s, motor) { assert ToldAt(signals, motor, n); }
    hide ToldAt;
    if i: nat :| ToldAt(rest, motor, i) { assert s != DriveDisconnect(motor) ==> i < n ==> ToldAt(signals, motor, i); }
  }

  /** What is listed of a connected bus after its worker's signals: the motors listed before
      and not disconnected, and those reported and not disconnected after that. */
  lemma {:induction false} PublishedExactly(h: seq<Event>, es: seq<Event>, info: S.BusInfo, signals: seq<Signal>,
                                            motor: nat)
    requires info.serial != "" && info.port in Run(h) && motor != 0 && Woven(es, info, signals)
    ensures info.port in Run(h + es)
    ensures Listed(Run(h + es), info.port, motor) <==>
            (Listed(Run(h), info.port, motor) && DriveDisconnect(motor) !in signals) ||
            exists i: nat :: ToldAt(signals, motor, i)
    decreases |es|
  {
    if es == [] {
      assert h + es == h;
    } else {
      var e, rest := es[|es| - 1], es[..|es| - 1];
      RunMore(h, es);
      if On(e, info.port) {
        var n := |signals| - 1;
        PublishedExactly(h, rest, info, signals[..n], motor);
        ToldMore(signals, motor);
        CarriedStep(Run(h + rest), e, info, signals[n], motor);
      } else {
        PublishedExactly(h, rest, info, signals, motor);
        if S.Counts(e.envelope) { ForeignStep(Run(h + rest), e, info.port, motor); }
      }
      hide *;
    }
  }

  /** From the worker to the published state: while no command changes its id, a motor of a
      connected bus stays listed whatever it answers or fails to answer, and one that was
      not listed is listed from its first report on. */
  lemma StaysListed(h: seq<Event>, es: seq<Event>, info: S.BusInfo, rounds: seq<Round>, before: seq<Signal>,
                    after: seq<Signal>, motor: nat)
    requires info.serial != "" && info.port in Run(h) && motor != 0
    requires OnlyIdChanges(rounds, before, after) && Woven(es, info, after[|before|..])
    requires forall r | 0 <= r < |rounds| :: !GivesUp(rounds[r], motor)
    ensures Listed(Run(h + es), info.port, motor) <==>
            Listed(Run(h), info.port, motor) || exists i :: |before| <= i < |after| && Tells(after[i], motor)
  {
    var signals := after[|before|..];
    PublishedExactly(h, es, info, signals, motor);
    assert DriveDisconnect(motor) !in signals;
    hide Woven, Run, Listed;
    if i: nat :| ToldAt(signals, motor, i) { assert signals[i] == after[|before| + i]; }
    if i :| |before| <= i < |after| && Tells(after[i], motor) {
      assert signals[i - |before|] == after[i];
      assert ToldAt(signals, motor, i - |before|);
    }
  }

  // The old id of an id change

  /** On any connected bus, whatever was listed before, these signals leave the motor listed
      exactly when told so. */
  ghost predicate Lists(signals: seq<Signal>, motor: nat, told: bool) {
    forall h: seq<Event>, es: seq<Event>, info: S.BusInfo |
      info.serial != "" && info.port in Run(h) && Woven(es, info, signals) ::
      Listed(Run(h + es), info.port, motor) <==> told
  }

  /** An id change and the next tick, from any state of the worker, searching or not, with
      any signals that cannot be sent and any commands that wait. The command takes the old
      id off the published list when its disconnect can be sent, and then the id is listed
      again exactly when the tick reports it: it is still among the seen motors, so that a
      tick asks it and reports its silence. */
  method OldIdReturns(worker: Worker, c: C.Command, result: Processing, wc: World, order: seq<nat>, w: World,
                      search: bool)
    returns (handled: bool)
    requires worker.missing == map[] && C.ChangesId(c)
    requires forall m :: m in order <==> m in worker.lastSeen
    modifies worker
    ensures handled <==> Survives(c, result, wc)
    ensures old(worker.sent) <= worker.sent
    ensures var id, signals := c.write.value.motor % 256, worker.sent[|old(worker.sent)|..];
            var told := ScanTells(old(worker.lastSeen), C.AfterCommand(old(worker.cache), c), order, w, search, id);
            var gone := !wc.fails(DriveDisconnect(id));
            handled ==>
              (DriveDisconnect(id) in signals <==> gone) &&
              ((exists i: nat :: ToldAt(signals, id, i)) <==>
                 told || (!gone && Told(CommandError(c, result, wc), id))) &&
              (gone && id != 0 ==> Lists(signals, id, told))
  {
    ghost var before, id := worker.sent, c.write.value.motor % 256;
    handled := worker.OnCommand(c, result, wc);
    if !handled { return; }
    ghost var mid := worker.sent;
    ghost var whole, scan, done;
    var alive;
    alive, whole, scan, done := worker.ScanMotors(order, w, search);
    IdChangeTells(c, result, wc, id);
    hide ScanTells, Told, ToldAt, CommandSignals, CommandError, Lists, Survives;
    var more := CommandSignals(c, result, wc);
    Behind(before, more, worker.sent);
    TellsBehind(more, worker.sent[|mid|..], id);
    if !wc.fails(DriveDisconnect(id)) && id != 0 {
      ListsTold(worker.sent[|before|..], id);
    }
  }

  lemma Behind(before: seq<Signal>, more: seq<Signal>, after: seq<Signal>)
    requires Quiet(before + more, after)
    ensures before <= after && after[|before|..] == more + after[|before + more|..]
    ensures forall motor: nat :: DriveDisconnect(motor) !in after[|before + more|..]
  {
  }

  /** What the command itself leaves told. */
  lemma IdChangeTells(c: C.Command, result: Processing, w: World, id: nat)
    requires C.ChangesId(c) && Survives(c, result, w) && id == c.write.value.motor % 256
    ensures var signals := CommandSignals(c, result, w);
            (DriveDisconnect(id) in signals <==> !w.fails(DriveDisconnect(id))) &&
            ((exists i: nat :: ToldAt(signals, id, i)) <==>
               w.fails(DriveDisconnect(id)) && Told(CommandError(c, result, w), id))
  {
    var signals, errors := CommandSignals(c, result, w), CommandError(c, result, w);
    var head := [CommandSent(C.MotorId(c), c)];
    var tail := [CommandResult(C.MotorId(c), c, result)] + Sent(DriveDisconnect(id), w);
    assert signals == head + errors + tail;
    ErrorsOnly(c, result, w);
    hide CommandSignals, CommandError;
    if !w.fails(DriveDisconnect(id)) {
      assert signals[|signals| - 1] == DriveDisconnect(id);
      LastGone(signals, id);
    } else {
      assert tail == [CommandResult(C.MotorId(c), c, result)];
      assert signals == head + (errors + tail);
      TellsBehind(head, errors + tail, id);
      ToldAlso([], errors, tail, id);
    }
  }

  lemma ErrorsOnly(c: C.Command, result: Processing, w: World)
    ensures forall s | s in CommandError(c, result, w) :: s.DriveError?
  {
  }

  lemma LastGone(signals: seq<Signal>, motor: nat)
    requires signals != [] && signals[|signals| - 1] == DriveDisconnect(motor)
    ensures DriveDisconnect(motor) in signals && !exists i: nat :: ToldAt(signals, motor, i)
  {
    forall i: nat
      ensures !ToldAt(signals, motor, i)
    {
      if i < |signals| - 1 { assert signals[i + 1..][|signals| - i - 2] == DriveDisconnect(motor); }
    }
  }

  /** Signals without a disconnect of the motor, behind any others. */
  lemma TellsBehind(a: seq<Signal>, b: seq<Signal>, motor: nat)
    requires DriveDisconnect(motor) !in b
    ensures DriveDisconnect(motor) in a + b <==> DriveDisconnect(motor) in a
    ensures (exists i: nat :: ToldAt(a + b, motor, i)) <==> (exists i: nat :: ToldAt(a, motor, i)) || Told(b, motor)
  {
    forall i: nat
      ensures ToldAt(a + b, motor, i) <==>
              if i < |a| then ToldAt(a, motor, i) else i < |a| + |b| && Tells(b[i - |a|], motor)
    {
      if i < |a| {
        assert (a + b)[i + 1..] == a[i + 1..] + b;
      } else if i < |a| + |b| {
        assert (a + b)[i + 1..] == b[i + 1 - |a|..];
      }
    }
    if Told(b, motor) {
      var s :| s in b && Tells(s, motor);
      var j :| 0 <= j < |b| && b[j] == s;
      assert ToldAt(a + b, motor, |a| + j);
    }
    if i: nat :| ToldAt(a + b, motor, i) {
      if i >= |a| { assert b[i - |a|] in b && Tells(b[i - |a|], motor); }
    }
    if i: nat :| ToldAt(a, motor, i) { assert ToldAt(a + b, motor, i); }
  }

  lemma ListsTold(signals: seq<Signal>, motor: nat)
    requires motor != 0 && DriveDisconnect(motor) in signals
    ensures Lists(signals, motor, exists i: nat :: ToldAt(signals, motor, i))
  {
    hide Woven, Run, Listed, ToldAt;
    forall h: seq<Event>, es: seq<Event>, info: S.BusInfo |
      info.serial != "" && info.port in Run(h) && Woven(es, info, signals)
      ensures Listed(Run(h + es), info.port, motor) <==> exists i: nat :: ToldAt(signals, motor, i)
    {
      PublishedExactly(h, es, info, signals, motor);
    }
  }

  /** With nothing in the way, a tick reports an id that is not cached, as an old id is
      after its change, exactly when it was seen and answers anything but an empty read, or
      was not seen, is searched for, and answers with an error. */
  lemma UndisturbedTells(lastSeen: set<nat>, cache: C.Cache, order: seq<nat>, w: World, search: bool, motor: nat)
    requires (forall s :: !w.fails(s)) && (forall k: nat :: !w.waiting(k)) && motor !in cache
    requires forall m :: m in order <==> m in lastSeen
    ensures ScanTells(lastSeen, cache, order, w, search, motor) <==>
            (motor in lastSeen && w.reply(motor) != C.Registers([]) && w.reply(motor) != C.Data([])) ||
            (search && !w.searchWaiting(0) && Pinged(lastSeen, w, motor) && w.ping(motor) in {ServoPong, Garbled})
  {
    Undisturbed(cache, order, |order|, w);
    var silent := w.reply(motor) == C.Registers([]) || w.reply(motor) == C.Data([]);
    hide Pinged;
    if silent {
      forall k | 0 <= k < |order| && order[k] == motor
        ensures !SaysAt(cache, order, k, w)
      {
        StaysUncached(cache, order, k, w, motor);
        SaysFirst(CacheAfter(cache, order, k, w.reply), motor, w);
      }
    } else if motor in lastSeen {
      var k := FirstAt(order, motor);
      StaysUncached(cache, order, k, w, motor);
      Undisturbed(cache, order, k, w);
      SaysFirst(CacheAfter(cache, order, k, w.reply), motor, w);
      assert SaysAt(cache, order, k, w);
    }
    hide SaysAt, Uncut;
  }

  lemma Undisturbed(cache: C.Cache, order: seq<nat>, k: nat, w: World)
    requires k <= |order| && (forall s :: !w.fails(s)) && (forall j: nat :: !w.waiting(j))
    ensures Uncut(cache, order, k, w)
  {
    hide CacheAfter, C.Read;
  }

  lemma SaysFirst(cache: C.Cache, motor: nat, w: World)
    requires motor !in cache && forall s :: !w.fails(s)
    ensures Says(cache, motor, w) <==> w.reply(motor) != C.Registers([]) && w.reply(motor) != C.Data([])
  {
  }

  lemma FirstAt(order: seq<nat>, motor: nat) returns (k: nat)
    requires motor in order
    ensures k < |order| && order[k] == motor && motor !in order[..k]
  {
    k := 0;
    while order[k] != motor
      invariant k < |order| && motor !in order[..k]
      decreases |order| - k
    {
      k := k + 1;
    }
  }

  lemma {:induction false} StaysUncached(cache: C.Cache, order: seq<nat>, k: nat, w: World, motor: nat)
    requires k <= |order| && motor !in cache
    requires motor !in order[..k] || w.reply(motor) == C.Registers([]) || w.reply(motor) == C.Data([])
    ensures motor !in CacheAfter(cache, order, k, w.reply)
  {
    if k == 0 {
      NoneYet([], cache, order, w);
    } else {
      assert order[..k] == order[..k - 1] + [order[k - 1]];
      OneMore([], cache, order, k - 1, w);
      hide CacheAfter;
      StaysUncached(cache, order, k - 1, w, motor);
    }
  }
}
