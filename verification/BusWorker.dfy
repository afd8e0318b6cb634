/** The worker of one bus (port.rs): its scans and its handling of commands, against
    servos that may answer anything. Each method is stated by the functions of Grace and
    EepromCache, whose properties over runs are proved there. */
module BusWorker {
  import opened Options
  import opened Grace
  import opened EepromCache

  datatype Signal =
    | DriveState(motor: nat, image: Image)
    | DriveError(motor: nat, data: Image)
    | DriveConnect(motor: nat)
    | DriveDisconnect(motor: nat)
    | CommandSent(motor: nat, command: Command)
    | CommandResult(motor: nat, command: Command, result: Processing)

  /** What became of a command: `Faulty` is an error answer of the servo, `Broken` an I/O
      error or any other. */
  datatype Processing = Accepted | Rejected | Faulty(data: Image) | TimedOut | Broken

  datatype Ping = Pong | ServoPong | Silent | IoFailure | Garbled

  /** What a scan meets: the answers, the clock, whether a command waits at the k-th check
      of the reading loop and of the search, and which signals cannot be sent. What is sent
      is what gets into the queue; an error that does not is only logged. */
  datatype World = World(reply: nat -> Reply, ping: nat -> Ping, waiting: nat -> bool, searchWaiting: nat -> bool,
                         now: int, fails: Signal -> bool)

  const MAX_MOTORS := 8

  // What the reading loop sends and caches

  function Sent(s: Signal, w: World): seq<Signal> {
    if w.fails(s) then [] else [s]
  }

  function ErrorOf(motor: nat, reply: Reply, w: World): seq<Signal> {
    match reply
    case ServoError(data) => Sent(DriveError(motor, data), w)
    case NoAnswer => Sent(DriveError(motor, []), w)
    case _ => []
  }

  function SignalsOf(cache: Cache, motor: nat, w: World): seq<Signal> {
    var image := Read(cache, motor, w.reply(motor)).image;
    ErrorOf(motor, w.reply(motor), w) + (if image.Some? then [DriveState(motor, image.value)] else [])
  }

  /** A report of a motor is a state or an error of it. */
  predicate Tells(s: Signal, motor: nat) { (s.DriveState? || s.DriveError?) && s.motor == motor }

  ghost predicate Told(signals: seq<Signal>, motor: nat) { exists s :: s in signals && Tells(s, motor) }

  /** The image of the motor, if there is one, can be sent. */
  predicate Passes(cache: Cache, motor: nat, w: World) {
    var image := Read(cache, motor, w.reply(motor)).image;
    image.Some? ==> !w.fails(DriveState(motor, image.value))
  }

  /** Reading the motor reports it: by an error or by an image that can be sent. */
  predicate Says(cache: Cache, motor: nat, w: World) {
    var image := Read(cache, motor, w.reply(motor)).image;
    match w.reply(motor)
    case NoAnswer => !w.fails(DriveError(motor, []))
    case ServoError(data) =>
      !w.fails(DriveError(motor, data)) || (image.Some? && !w.fails(DriveState(motor, image.value)))
    case _ => image.Some? && !w.fails(DriveState(motor, image.value))
  }

  /** The first `k` answers, in the order of the set's iteration. */
  function Answers(order: seq<nat>, k: nat, reply: nat -> Reply): seq<Event>
    requires k <= |order|
  {
    if k == 0 then [] else Answers(order, k - 1, reply) + [Answer(order[k - 1], reply(order[k - 1]))]
  }

  function CacheAfter(cache: Cache, order: seq<nat>, k: nat, reply: nat -> Reply): Cache
    requires k <= |order|
  {
    EepromCache.Run(cache, Answers(order, k, reply))
  }

  /** All signals once the first `k` motors are read, after those in `before`. */
  function SentAfter(before: seq<Signal>, cache: Cache, order: seq<nat>, k: nat, w: World): seq<Signal>
    requires k <= |order|
  {
    if k == 0 then before
    else
      SentAfter(before, cache, order, k - 1, w) +
      SignalsOf(CacheAfter(cache, order, k - 1, w.reply), order[k - 1], w)
  }

  /** The first `k` motors are read and their images sent: no command waits before any of
      them. */
  predicate Uncut(cache: Cache, order: seq<nat>, k: nat, w: World)
    requires k <= |order|
  {
    forall j | 0 <= j < k :: !w.waiting(j) && Passes(CacheAfter(cache, order, j, w.reply), order[j], w)
  }

  /** The reading loop comes to the k-th motor, and reading it reports it. */
  predicate SaysAt(cache: Cache, order: seq<nat>, k: nat, w: World)
    requires k < |order|
  {
    Uncut(cache, order, k, w) && !w.waiting(k) && Says(CacheAfter(cache, order, k, w.reply), order[k], w)
  }

  /** Reading the first `k` motors, as far as it gets, reports the motor. */
  predicate ReadingTells(cache: Cache, order: seq<nat>, k: nat, w: World, motor: nat)
    requires k <= |order|
  {
    exists j | 0 <= j < k :: order[j] == motor && SaysAt(cache, order, j, w)
  }

  /** The search comes to this id: no command waits, and no ping before it fails. */
  predicate Pinged(ignore: set<nat>, w: World, motor: nat) {
    Asked(ignore, w, motor) && forall k | 1 <= k < motor && k !in ignore :: w.ping(k) != IoFailure
  }

  predicate SearchTells(ignore: set<nat>, w: World, motor: nat) {
    Pinged(ignore, w, motor) && w.ping(motor) in {ServoPong, Garbled} && !w.fails(DriveError(motor, []))
  }

  /** Which motors a scan reports. */
  predicate ScanTells(lastSeen: set<nat>, cache: Cache, order: seq<nat>, w: World, search: bool, motor: nat) {
    ReadingTells(cache, order, |order|, w, motor) ||
    (search && Uncut(cache, order, |order|, w) && !w.searchWaiting(0) && SearchTells(lastSeen, w, motor))
  }

  /** The motors among the first `k` that were seen. */
  function SeenAfter(order: seq<nat>, k: nat, reply: nat -> Reply): (seen: set<nat>)
    requires k <= |order|
    ensures forall m | m in seen :: m in order
  {
    if k == 0 then {}
    else SeenAfter(order, k - 1, reply) + (if reply(order[k - 1]) != NoAnswer then {order[k - 1]} else {})
  }

  lemma {:induction false} SeenIs(order: seq<nat>, k: nat, reply: nat -> Reply, m: nat)
    requires k <= |order|
    ensures m in SeenAfter(order, k, reply) <==> m in order[..k] && reply(m) != NoAnswer
  {
    if k == 0 {
    } else {
      SeenIs(order, k - 1, reply, m);
      assert order[..k] == order[..k - 1] + [order[k - 1]];
    }
  }

  lemma SeenAll(order: seq<nat>, k: nat, reply: nat -> Reply)
    requires k <= |order|
    ensures forall m: nat :: m in SeenAfter(order, k, reply) <==> m in order[..k] && reply(m) != NoAnswer
  {
    forall m: nat
      ensures m in SeenAfter(order, k, reply) <==> m in order[..k] && reply(m) != NoAnswer
    {
      SeenIs(order, k, reply, m);
    }
  }

  lemma OneMore(before: seq<Signal>, cache: Cache, order: seq<nat>, k: nat, w: World)
    requires k < |order|
    ensures var m, c := order[k], CacheAfter(cache, order, k, w.reply);
            CacheAfter(cache, order, k + 1, w.reply) == Read(c, m, w.reply(m)).cache &&
            SentAfter(before, cache, order, k + 1, w) == SentAfter(before, cache, order, k, w) + SignalsOf(c, m, w) &&
            SeenAfter(order, k + 1, w.reply) ==
            SeenAfter(order, k, w.reply) + (if w.reply(m) != NoAnswer then {m} else {})
  {
    var h := Answers(order, k + 1, w.reply);
    assert h[..|h| - 1] == Answers(order, k, w.reply);
  }

  lemma NoneYet(before: seq<Signal>, cache: Cache, order: seq<nat>, w: World)
    ensures CacheAfter(cache, order, 0, w.reply) == cache
    ensures SentAfter(before, cache, order, 0, w) == before && SeenAfter(order, 0, w.reply) == {}
  {
  }

  // What is reported

  /** The signals after those in `before` report the motors told by the first `k` reads. */
  ghost predicate ToldSoFar(before: seq<Signal>, sent: seq<Signal>, cache: Cache, order: seq<nat>, k: nat, w: World)
    requires k <= |order|
  {
    before <= sent &&
    forall m: nat :: Told(sent[|before|..], m) <==> ReadingTells(cache, order, k, w, m)
  }

  lemma ToldAlso(before: seq<Signal>, was: seq<Signal>, more: seq<Signal>, motor: nat)
    requires before <= was
    ensures before <= was + more
    ensures Told((was + more)[|before|..], motor) <==> Told(was[|before|..], motor) || Told(more, motor)
  {
    hide Tells;
    assert (was + more)[|before|..] == was[|before|..] + more;
    forall s
      ensures s in was[|before|..] + more <==> s in was[|before|..] || s in more
    {
    }
  }

  lemma ErrorTells(motor: nat, w: World, m: nat)
    ensures Told(ErrorOf(motor, w.reply(motor), w), m) <==>
            m == motor &&
            match w.reply(motor)
            case NoAnswer => !w.fails(DriveError(motor, []))
            case ServoError(data) => !w.fails(DriveError(motor, data))
            case _ => false
  {
    var errors := ErrorOf(motor, w.reply(motor), w);
    if errors != [] { assert errors[0] in errors && Tells(errors[0], motor); }
  }

  lemma ReadTells(cache: Cache, motor: nat, w: World, m: nat)
    ensures Told(if Passes(cache, motor, w) then SignalsOf(cache, motor, w) else ErrorOf(motor, w.reply(motor), w), m)
            <==> m == motor && Says(cache, motor, w)
  {
    ErrorTells(motor, w, m);
    var errors, image := ErrorOf(motor, w.reply(motor), w), Read(cache, motor, w.reply(motor)).image;
    SilentImage(cache, motor, w.reply(motor));
    hide ErrorOf, Read;
    if image.Some? {
      var state := [DriveState(motor, image.value)];
      assert state[0] in state && Tells(state[0], motor);
      ToldAlso([], errors, state, m);
    } else {
      assert SignalsOf(cache, motor, w) == errors;
    }
  }

  lemma SilentImage(cache: Cache, motor: nat, reply: Reply)
    ensures reply == NoAnswer ==> Read(cache, motor, reply).image == None
  {
  }

  /** One more motor is read. */
  lemma ToldNext(before: seq<Signal>, sent: seq<Signal>, cache: Cache, order: seq<nat>, k: nat, w: World)
    requires k < |order| && ToldSoFar(before, sent, cache, order, k, w) && Uncut(cache, order, k, w) && !w.waiting(k)
    ensures var c, motor := CacheAfter(cache, order, k, w.reply), order[k];
            var more := if Passes(c, motor, w) then SignalsOf(c, motor, w) else ErrorOf(motor, w.reply(motor), w);
            ToldSoFar(before, sent + more, cache, order, k + 1, w) &&
            (Uncut(cache, order, k + 1, w) <==> Passes(c, motor, w))
  {
    hide CacheAfter, Says, Passes, SignalsOf, ErrorOf;
    var c, motor := CacheAfter(cache, order, k, w.reply), order[k];
    var more := if Passes(c, motor, w) then SignalsOf(c, motor, w) else ErrorOf(motor, w.reply(motor), w);
    forall m: nat
      ensures Told((sent + more)[|before|..], m) <==> ReadingTells(cache, order, k + 1, w, m)
    {
      ToldAlso(before, sent, more, m);
      ReadTells(c, motor, w, m);
      ReadingNext(cache, order, k, w, m);
      hide Told, ReadingTells;
    }
  }

  lemma ReadingNext(cache: Cache, order: seq<nat>, k: nat, w: World, motor: nat)
    requires k < |order|
    ensures ReadingTells(cache, order, k + 1, w, motor) <==>
            ReadingTells(cache, order, k, w, motor) || (order[k] == motor && SaysAt(cache, order, k, w))
  {
    hide SaysAt;
  }

  /** Once the reading is cut, no later motor is reported. */
  lemma {:induction false} ToldAll(before: seq<Signal>, sent: seq<Signal>, cache: Cache, order: seq<nat>, k: nat,
                                   w: World)
    requires k <= |order| && ToldSoFar(before, sent, cache, order, k, w)
    requires k == |order| || w.waiting(k) || !Uncut(cache, order, k, w)
    ensures ToldSoFar(before, sent, cache, order, |order|, w)
    decreases |order| - k
  {
    if k == |order| {
    } else {
      forall m: nat
        ensures ReadingTells(cache, order, k + 1, w, m) <==> ReadingTells(cache, order, k, w, m)
      {
        ReadingNext(cache, order, k, w, m);
        hide ReadingTells;
      }
      assert !Uncut(cache, order, k + 1, w);
      hide Uncut, ReadingTells, Told;
      ToldAll(before, sent, cache, order, k + 1, w);
    }
  }

  lemma CutHere(cache: Cache, order: seq<nat>, k: nat, w: World)
    requires k < |order| && (w.waiting(k) || !Uncut(cache, order, k + 1, w))
    ensures !Uncut(cache, order, |order|, w)
  {
    hide Passes, CacheAfter;
  }

  lemma ToldNone(before: seq<Signal>, cache: Cache, order: seq<nat>, w: World)
    ensures ToldSoFar(before, before, cache, order, 0, w) && Uncut(cache, order, 0, w)
  {
  }

  /** The tracker while the motors in `rest` are still to be checked. */
  function NotedSoFar(s: Tracker, answered: set<nat>, now: int, rest: set<nat>): map<nat, int> {
    map m | m in (s.missing.Keys + (Missing(s, answered) - rest)) - (Evicted(s, answered, now) - rest) ::
      FirstMissed(s, m, now)
  }

  /** Where the grace check stands while the motors in `rest` are still to be checked. */
  ghost predicate Checked(s: Tracker, answered: set<nat>, now: int, was: Cache, rest: set<nat>,
                          current: set<nat>, missing: map<nat, int>, cache: Cache) {
    rest <= Missing(s, answered) &&
    current == answered + (Missing(s, answered) - rest - Evicted(s, answered, now)) &&
    missing == NotedSoFar(s, answered, now, rest) &&
    cache == was - (Evicted(s, answered, now) - rest)
  }

  lemma NotedMore(s: Tracker, answered: set<nat>, now: int, rest: set<nat>, motor: nat)
    requires rest <= Missing(s, answered) && motor in rest
    ensures var m := NotedSoFar(s, answered, now, rest);
            (if motor in m then m[motor] else now) == FirstMissed(s, motor, now) &&
            (motor in Evicted(s, answered, now) <==> now - FirstMissed(s, motor, now) >= GRACE) &&
            NotedSoFar(s, answered, now, rest - {motor}) ==
            if motor in Evicted(s, answered, now) then m[motor := FirstMissed(s, motor, now)] - {motor}
            else m[motor := FirstMissed(s, motor, now)]
  {
  }

  lemma CheckedMore(s: Tracker, answered: set<nat>, now: int, was: Cache, rest: set<nat>,
                    current: set<nat>, missing: map<nat, int>, cache: Cache, motor: nat)
    requires Checked(s, answered, now, was, rest, current, missing, cache) && motor in rest
    ensures var first := if motor in missing then missing[motor] else now;
            var noted := missing[motor := first];
            if now - first >= GRACE then
              motor in Evicted(s, answered, now) &&
              Checked(s, answered, now, was, rest - {motor}, current, noted - {motor}, cache - {motor})
            else Checked(s, answered, now, was, rest - {motor}, current + {motor}, noted, cache)
  {
    NotedMore(s, answered, now, rest, motor);
    hide NotedSoFar, Evicted, FirstMissed, Missing;
  }

  lemma CheckedAll(s: Tracker, answered: set<nat>, now: int, was: Cache)
    requires answered <= s.lastSeen
    ensures Checked(s, answered, now, was, Missing(s, answered), answered, s.missing, was)
    ensures forall current, missing, cache | Checked(s, answered, now, was, {}, current, missing, cache) ::
              current == Current(s, answered, now) && missing == Noted(s, answered, now) &&
              cache == was - Evicted(s, answered, now)
  {
    assert NotedSoFar(s, answered, now, Missing(s, answered)) == s.missing;
    assert NotedSoFar(s, answered, now, {}) == Noted(s, answered, now);
  }

  /** The cached EEPROM registers, if any, in front of what was read. */
  function Combine(cached: Option<Image>, data: Image): Image {
    if cached.Some? then cached.value + data else data
  }

  /** The disconnect that an id change sends. */
  function OldIdGone(c: Command): Signal
    requires ChangesId(c)
  {
    DriveDisconnect(c.write.value.motor % 256)
  }

  /** The search comes to this id. */
  predicate Asked(ignore: set<nat>, w: World, motor: nat) {
    1 <= motor <= MAX_MOTORS && motor !in ignore && forall k | 1 <= k <= motor :: !w.searchWaiting(k)
  }

  /** How a scan ended. */
  datatype End = Whole | CutShort | Dead

  class Worker {
    var lastSeen: set<nat>
    var missing: map<nat, int>
    var cache: Cache
    var sent: seq<Signal>

    constructor ()
      ensures Now() == START && cache == map[] && sent == []
    {
      lastSeen, missing, cache, sent := {}, map[], map[], [];
    }

    function Now(): Tracker
      reads this
    {
      Tracker(lastSeen, missing)
    }

    /** The reading loop: `done` motors were read, up to the first check at which a command
        waits or the first image that cannot be sent; of that motor only the error was. */
    method ReadMotors(order: seq<nat>, w: World) returns (end: End, current: set<nat>, ghost done: nat)
      modifies this`cache, this`sent
      ensures done <= |order| && (end == Whole ==> done == |order|) && (end == Dead ==> done > 0)
      ensures cache == CacheAfter(old(cache), order, done, w.reply)
      ensures end != Dead ==> current == SeenAfter(order, done, w.reply)
      ensures end != Dead ==> forall m: nat :: m in current <==> m in order[..done] && w.reply(m) != NoAnswer
      ensures end == Whole <==> Uncut(old(cache), order, |order|, w)
      ensures ToldSoFar(old(sent), sent, old(cache), order, |order|, w)
      ensures if end != Dead then sent == SentAfter(old(sent), old(cache), order, done, w)
              else sent == SentAfter(old(sent), old(cache), order, done - 1, w)
                           + ErrorOf(order[done - 1], w.reply(order[done - 1]), w)
      ensures end == CutShort ==> exists k: nat :: w.waiting(k)
      ensures end == Dead ==> exists s :: w.fails(s)
    {
      hide SignalsOf, ErrorOf, SeenAfter, SentAfter, CacheAfter, Read, ToldSoFar, Passes, Uncut;
      current, done := {}, 0;
      NoneYet(sent, cache, order, w);
      ToldNone(sent, cache, order, w);
      for k := 0 to |order|
        invariant done == k && current == SeenAfter(order, k, w.reply)
        invariant cache == CacheAfter(old(cache), order, k, w.reply)
        invariant sent == SentAfter(old(sent), old(cache), order, k, w)
        invariant ToldSoFar(old(sent), sent, old(cache), order, k, w) && Uncut(old(cache), order, k, w)
      {
        if w.waiting(k) {
          ToldAll(old(sent), sent, old(cache), order, k, w);
          CutHere(old(cache), order, k, w);
          SeenAll(order, k, w.reply);
          return CutShort, current, k;
        }
        var motor := order[k];
        OneMore(old(sent), old(cache), order, k, w);
        ToldNext(old(sent), sent, old(cache), order, k, w);
        done := k + 1;
        var alive, seen := ReadMotor(motor, w);
        if !alive {
          ToldAll(old(sent), sent, old(cache), order, k + 1, w);
          CutHere(old(cache), order, k, w);
          return Dead, current, k + 1;
        }
        if seen { current := current + {motor}; }
      }
      SeenAll(order, |order|, w.reply);
      end := Whole;
    }

    method ReadMotor(motor: nat, w: World) returns (alive: bool, seen: bool)
      modifies this`cache, this`sent
      ensures seen <==> w.reply(motor) != NoAnswer
      ensures cache == Read(old(cache), motor, w.reply(motor)).cache
      ensures alive <==> Passes(old(cache), motor, w)
      ensures !alive ==> sent == old(sent) + ErrorOf(motor, w.reply(motor), w) && exists s :: w.fails(s)
      ensures alive ==> sent == old(sent) + SignalsOf(old(cache), motor, w)
    {
      var reply := w.reply(motor);
      var cached := if motor in cache then Some(cache[motor]) else None;
      var image := None;
      match reply {
        case NoAnswer =>
          sent := sent + Sent(DriveError(motor, []), w);
          return true, false;
        case ServoError(data) =>
          sent := sent + Sent(DriveError(motor, data), w);
          if data == [] { return true, true; }
          if |data| >= FULL_SIZE {
            image := Some(data);
          } else if |data| >= RAM_SIZE {
            image := Some(if cached.Some? then Combine(cached, data) else []);
          } else {
            image := Some([]);
          }
        case Registers(all) =>
          var data := if cached.None? || |all| < EEPROM_SIZE then all else all[EEPROM_SIZE..];
          if data == [] { return true, true; }
          image := Some(Combine(cached, data));
          if cached.None? && |data| >= EEPROM_SIZE { cache := cache[motor := data[..EEPROM_SIZE]]; }
        case Data(data) =>
          if data == [] { return true, true; }
          image := Some(Combine(cached, data));
          if cached.None? && |data| >= EEPROM_SIZE { cache := cache[motor := data[..EEPROM_SIZE]]; }
      }
      if w.fails(DriveState(motor, image.value)) { return false, true; }
      sent := sent + [DriveState(motor, image.value)];
      return true, true;
    }

    /** The grace check on the motors that did not answer, then the clearing of the
        tracker for all those now seen. */
    method CheckGrace(answered: set<nat>, w: World) returns (alive: bool, current: set<nat>)
      requires answered <= lastSeen
      modifies this`missing, this`cache, this`sent
      ensures alive ==> current == Current(old(Now()), answered, w.now)
      ensures alive ==> missing == Noted(old(Now()), answered, w.now) - Current(old(Now()), answered, w.now)
      ensures alive ==> cache == old(cache) - Evicted(old(Now()), answered, w.now)
      ensures Evicted(old(Now()), answered, w.now) == {} ==> alive && sent == old(sent)
    {
      ghost var s := Now();
      CheckedAll(s, answered, w.now, cache);
      hide Checked, Evicted, Current, Noted;
      current := answered;
      var rest := lastSeen - answered;
      while rest != {}
        invariant Checked(s, answered, w.now, old(cache), rest, current, missing, cache)
        invariant Evicted(s, answered, w.now) == {} ==> sent == old(sent)
        decreases rest
      {
        var motor :| motor in rest;
        CheckedMore(s, answered, w.now, old(cache), rest, current, missing, cache, motor);
        var first := if motor in missing then missing[motor] else w.now;
        missing := missing[motor := first];
        if w.now - first >= GRACE {
          cache := cache - {motor};
          missing := missing - {motor};
          if w.fails(DriveDisconnect(motor)) { return false, current; }
          sent := sent + [DriveDisconnect(motor)];
        } else {
          current := current + {motor};
        }
        rest := rest - {motor};
      }
      missing := missing - current;
      alive := true;
    }

    /** The search pings the ids not seen, up to the first check at which a command waits:
        it finds all that answer, with or without a servo error, and fails exactly when it
        comes to an I/O error. */
    method Search(ignore: set<nat>, w: World) returns (found: Option<seq<nat>>)
      modifies this`sent
      ensures found.Some? ==>
                forall m: nat :: m in found.value <==> Asked(ignore, w, m) && w.ping(m) in {Pong, ServoPong}
      ensures found.None? <==> exists m: nat :: Asked(ignore, w, m) && w.ping(m) == IoFailure
      ensures Quiet(old(sent), sent)
      ensures forall m: nat :: Told(sent[|old(sent)|..], m) <==> SearchTells(ignore, w, m)
    {
      hide Quiet, Told;
      QuietNow(sent);
      NothingTold(sent);
      var ids: seq<nat> := [];
      for motor := 1 to MAX_MOTORS + 1
        invariant forall m | 1 <= m < motor :: !w.searchWaiting(m)
        invariant forall m: nat :: m in ids <==> m < motor && Asked(ignore, w, m) && w.ping(m) in {Pong, ServoPong}
        invariant forall m: nat | m < motor && Asked(ignore, w, m) :: w.ping(m) != IoFailure
        invariant Quiet(old(sent), sent) && old(sent) <= sent
        invariant forall m: nat :: Told(sent[|old(sent)|..], m) <==> m < motor && SearchTells(ignore, w, m)
      {
        if w.searchWaiting(motor) { break; }
        if motor !in ignore {
          assert Asked(ignore, w, motor);
          match w.ping(motor) {
            case Pong => ids := ids + [motor];
            case Silent =>
            case IoFailure => return None;
            case ServoPong =>
              OneError(old(sent), sent, motor, w);
              sent := sent + Sent(DriveError(motor, []), w);
              ids := ids + [motor];
            case Garbled =>
              OneError(old(sent), sent, motor, w);
              sent := sent + Sent(DriveError(motor, []), w);
          }
        }
      }
      return Some(ids);
    }

    /** scan_motors. As written it never evicts: starting from an empty tracker, however it
        ends, the tracker is empty again, no seen motor is dropped and no disconnect is
        sent; the cache is that of the answers read. */
    method ScanMotors(order: seq<nat>, w: World, search: bool)
      returns (alive: bool, ghost whole: bool, ghost scan: Scan, ghost done: nat)
      requires forall m :: m in order <==> m in lastSeen
      requires missing == map[]
      modifies this
      ensures done <= |order| && cache == CacheAfter(old(cache), order, done, w.reply)
      ensures whole ==> done == |order| && scan.answered == SeenAfter(order, done, w.reply) && scan.now == w.now
      ensures whole ==> forall m: nat :: m in scan.answered <==> m in old(lastSeen) && w.reply(m) != NoAnswer
      ensures whole ==> Now() == Step(true, old(Now()), scan)
      ensures forall m | m in scan.found :: Asked(old(lastSeen), w, m) && w.ping(m) in {Pong, ServoPong}
      ensures whole && search && (forall k :: !w.searchWaiting(k)) ==>
                forall m | Asked(old(lastSeen), w, m) && w.ping(m) in {Pong, ServoPong} :: m in scan.found
      ensures whole ==> SentAfter(old(sent), old(cache), order, |order|, w) <= sent
      ensures !whole ==> (exists k: nat :: w.waiting(k)) || (exists s :: w.fails(s)) ||
                         (search && (w.searchWaiting(0) || exists m: nat :: w.ping(m) == IoFailure))
      ensures missing == map[] && (if whole then old(lastSeen) <= lastSeen else lastSeen == old(lastSeen))
      ensures Quiet(old(sent), sent)
      ensures forall m: nat ::
                Told(sent[|old(sent)|..], m) <==> ScanTells(old(lastSeen), old(cache), order, w, search, m)
    {
      hide CacheAfter, SentAfter, SeenAfter, ErrorOf, Current, Noted, Evicted, Step, Told, Uncut, ReadingTells,
        SearchTells;
      whole, done, scan := false, 0, Scan({}, {}, w.now);
      ghost var s := Now();
      var end, current, n := ReadMotors(order, w);
      done := n;
      ReadsSendNone(old(sent), old(cache), order, done, w);
      if end == Dead { return false, false, scan, done; }
      if end == CutShort { return true, false, scan, done; }
      ghost var answered := current;
      WholeScan(s, Scan(answered, {}, w.now));
      var ok, now := CheckGrace(current, w);
      if !ok { return false, false, scan, done; }
      current := now;
      if !search {
        lastSeen := current;
        return true, true, Scan(answered, {}, w.now), done;
      }
      if w.searchWaiting(0) { return true, false, scan, done; }
      label searching:
      var found := Search(current, w);
      ToldTwice(old(sent), old@searching(sent), sent);
      if found.None? { return false, false, scan, done; }
      label adding:
      alive, current := AddFound(found.value, current, w);
      ToldTwice(old(sent), old@adding(sent), sent);
      if !alive { return false, false, scan, done; }
      ghost var more := current - s.lastSeen;
      WholeScan(s, Scan(answered, more, w.now));
      lastSeen := current;
      return true, true, Scan(answered, more, w.now), done;
    }

    /** The found motors are announced and seen, up to the first check at which a command
        waits. */
    method AddFound(found: seq<nat>, seen: set<nat>, w: World) returns (alive: bool, current: set<nat>)
      modifies this`sent
      ensures seen <= current && forall m | m in current :: m in seen || m in found
      ensures alive && (forall k: nat :: !w.searchWaiting(k)) ==> forall m | m in found :: m in current
      ensures !alive ==> exists s :: w.fails(s)
      ensures Quiet(old(sent), sent) && forall m: nat :: !Told(sent[|old(sent)|..], m)
    {
      hide Told;
      NothingTold(sent);
      current := seen;
      for k := 0 to |found|
        invariant seen <= current && forall m | m in current :: m in seen || m in found
        invariant forall j | 0 <= j < k :: found[j] in current
        invariant Quiet(old(sent), sent) && forall m: nat :: !Told(sent[|old(sent)|..], m)
      {
        var motor := found[k];
        if w.searchWaiting(MAX_MOTORS + 1 + k) { break; }
        current := current + {motor};
        if w.fails(DriveConnect(motor)) { return false, current; }
        OneConnect(old(sent), sent, motor);
        sent := sent + [DriveConnect(motor)];
      }
      return true, current;
    }

    /** The part of worker_loop that handles a command: it ends the worker when one of the
        two envelopes around it cannot be sent, or on an error that is neither the servo's
        nor a timeout. After an id change the old id is given up in the published state,
        but not in the set of seen motors. */
    method OnCommand(c: Command, result: Processing, w: World) returns (alive: bool)
      modifies this`cache, this`sent
      ensures alive <==> Survives(c, result, w)
      ensures cache == if w.fails(CommandSent(MotorId(c), c)) then old(cache)
                       else if alive then AfterCommand(old(cache), c) else Invalidate(old(cache), c)
      ensures sent == old(sent) + CommandSignals(c, result, w)
    {
      hide CommandError, Invalidate, MotorId, ChangesId;
      if w.fails(CommandSent(MotorId(c), c)) { return false; }
      sent := sent + [CommandSent(MotorId(c), c)];
      ForgetChanged(c);
      ReportFailure(c, result, w);
      if w.fails(CommandResult(MotorId(c), c, result)) { return false; }
      sent := sent + [CommandResult(MotorId(c), c, result)];
      if result.Broken? { return false; }
      if ChangesId(c) { ClearOldId(c, w); }
      return true;
    }

    method ClearOldId(c: Command, w: World)
      requires ChangesId(c)
      modifies this`cache, this`sent
      ensures cache == old(cache) - {c.write.value.motor % 256} && sent == old(sent) + Sent(OldIdGone(c), w)
    {
      var oldId := c.write.value.motor % 256;
      if !w.fails(DriveDisconnect(oldId)) {
        sent := sent + [DriveDisconnect(oldId)];
      }
      cache := cache - {oldId};
    }

    method ForgetChanged(c: Command)
      modifies this`cache
      ensures cache == Invalidate(old(cache), c)
    {
      if c.resetCalibration.Some? || c.freezeCalibration.Some? {
        cache := map[];
      } else if c.reset.Some? || c.regWrite.Some? {
        cache := cache - {MotorId(c) % 256};
      }
    }

    method ReportFailure(c: Command, result: Processing, w: World)
      modifies this`sent
      ensures sent == old(sent) + CommandError(c, result, w)
    {
      match result
      case Accepted =>
      case Rejected =>
      case Faulty(data) => sent := sent + Sent(DriveError(MotorId(c) % 65536, data), w);
      case _ => sent := sent + Sent(DriveError(MotorId(c) % 65536, []), w);
    }
  }

  predicate Survives(c: Command, result: Processing, w: World) {
    !w.fails(CommandSent(MotorId(c), c)) && !w.fails(CommandResult(MotorId(c), c, result)) && !result.Broken?
  }

  /** What a command sends: that it came, the error, the result, and the disconnect of the
      old id when it is an id change. */
  function CommandSignals(c: Command, result: Processing, w: World): seq<Signal> {
    if w.fails(CommandSent(MotorId(c), c)) then []
    else
      [CommandSent(MotorId(c), c)] + CommandError(c, result, w) + Sent(CommandResult(MotorId(c), c, result), w) +
      (if Survives(c, result, w) && ChangesId(c) then Sent(OldIdGone(c), w) else [])
  }

  function CommandError(c: Command, result: Processing, w: World): seq<Signal> {
    match result
    case Faulty(data) => Sent(DriveError(MotorId(c) % 65536, data), w)
    case TimedOut => Sent(DriveError(MotorId(c) % 65536, []), w)
    case Broken => Sent(DriveError(MotorId(c) % 65536, []), w)
    case _ => []
  }

  /** Signals have been added, none of them a disconnect. */
  predicate Quiet(before: seq<Signal>, after: seq<Signal>) {
    before <= after && forall i | |before| <= i < |after| :: !after[i].DriveDisconnect?
  }

  lemma QuietMore(a: seq<Signal>, b: seq<Signal>, more: seq<Signal>)
    requires Quiet(a, b) && forall i | 0 <= i < |more| :: !more[i].DriveDisconnect?
    ensures Quiet(a, b + more)
  {
  }

  lemma OneError(before: seq<Signal>, sent: seq<Signal>, motor: nat, w: World)
    requires Quiet(before, sent)
    ensures var now := sent + Sent(DriveError(motor, []), w);
            Quiet(before, now) && before <= now &&
            forall m: nat ::
              Told(now[|before|..], m) <==> Told(sent[|before|..], m) || (m == motor && !w.fails(DriveError(motor, [])))
  {
    var more := Sent(DriveError(motor, []), w);
    QuietMore(before, sent, more);
    if more != [] { assert more[0] in more && Tells(more[0], motor); }
    forall m: nat
      ensures Told((sent + more)[|before|..], m) <==>
              Told(sent[|before|..], m) || (m == motor && !w.fails(DriveError(motor, [])))
    {
      ToldAlso(before, sent, more, m);
    }
  }

  lemma NothingTold(sent: seq<Signal>)
    ensures forall m: nat :: !Told(sent[|sent|..], m)
  {
  }

  lemma OneConnect(before: seq<Signal>, sent: seq<Signal>, motor: nat)
    requires Quiet(before, sent)
    ensures var now := sent + [DriveConnect(motor)];
            Quiet(before, now) && forall m: nat :: Told(now[|before|..], m) <==> Told(sent[|before|..], m)
  {
    QuietMore(before, sent, [DriveConnect(motor)]);
    forall m: nat
      ensures Told((sent + [DriveConnect(motor)])[|before|..], m) <==> Told(sent[|before|..], m)
    {
      ToldAlso(before, sent, [DriveConnect(motor)], m);
    }
  }

  lemma ToldTwice(before: seq<Signal>, mid: seq<Signal>, after: seq<Signal>)
    requires Quiet(before, mid) && Quiet(mid, after)
    ensures Quiet(before, after)
    ensures forall m: nat :: Told(after[|before|..], m) <==> Told(mid[|before|..], m) || Told(after[|mid|..], m)
  {
    forall m: nat
      ensures Told(after[|before|..], m) <==> Told(mid[|before|..], m) || Told(after[|mid|..], m)
    {
      ToldAlso(before, mid, after[|mid|..], m);
      assert mid + after[|mid|..] == after;
    }
  }

  lemma SignalsQuiet(cache: Cache, motor: nat, w: World)
    ensures var errors := ErrorOf(motor, w.reply(motor), w);
            forall i | 0 <= i < |errors| :: !errors[i].DriveDisconnect?
    ensures forall i | 0 <= i < |SignalsOf(cache, motor, w)| :: !SignalsOf(cache, motor, w)[i].DriveDisconnect?
  {
    hide Read;
  }

  lemma {:induction false} ReadsSendNone(before: seq<Signal>, cache: Cache, order: seq<nat>, k: nat, w: World)
    requires k <= |order|
    ensures Quiet(before, SentAfter(before, cache, order, k, w))
    ensures k > 0 ==>
              Quiet(before, SentAfter(before, cache, order, k - 1, w) +
                            ErrorOf(order[k - 1], w.reply(order[k - 1]), w))
  {
    hide *;
    if k == 0 {
      NoneYet(before, cache, order, w);
      QuietNow(before);
    } else {
      var m, c := order[k - 1], CacheAfter(cache, order, k - 1, w.reply);
      var was := SentAfter(before, cache, order, k - 1, w);
      ReadsSendNone(before, cache, order, k - 1, w);
      OneMore(before, cache, order, k - 1, w);
      SignalsQuiet(c, m, w);
      QuietMore(before, was, SignalsOf(c, m, w));
      QuietMore(before, was, ErrorOf(m, w.reply(m), w));
    }
  }

  lemma QuietNow(a: seq<Signal>)
    ensures Quiet(a, a)
  {
  }

  lemma WholeScan(s: Tracker, scan: Scan)
    requires s.missing == map[]
    ensures Evicted(s, scan.answered, scan.now) == {} && Current(s, scan.answered, scan.now) == s.lastSeen
    ensures Noted(s, scan.answered, scan.now) - Current(s, scan.answered, scan.now) == map[]
    ensures Step(true, s, scan) == Tracker(s.lastSeen + scan.found, map[])
  {
    AsWrittenStep(s, scan);
  }
}
