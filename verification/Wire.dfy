/** Fields on the wire: tags, skipping, and the grammar of a message.

    `PySkip` is Python's `skip_data`, whose offsets are unbounded; its
    termination measure is the number of bytes left. `GoSkip` is Go's
    `SkipData`, whose offsets are 64-bit: a length of 2^63 or more turns
    negative and moves the offset backwards, so the Go walk is given a number of
    loop rounds (`fuel`) and may come out `Unfinished`. */
module Wire {
  import opened Bits
  import opened Options
  import opened Varint

  const VARINT := 0
  const FIXED64 := 1
  const BYTES := 2
  const START_GROUP := 3
  const END_GROUP := 4
  const FIXED32 := 5

  const MAX_NUMBER: int := 0x7FFF_FFFF

  datatype Tag = Tag(number: nat, wire: nat, size: nat)

  /** How a Go call ends: with a value, with an error, with an index panic, or
      not within the given number of rounds. */
  datatype Outcome<+T> = Done(value: T) | Failed | Panicked | Unfinished

  /** The bytes from an offset on; none past the end. */
  function Tail(buf: seq<Byte>, off: nat): seq<Byte> {
    if off <= |buf| then buf[off..] else []
  }

  function Left(buf: seq<Byte>, off: nat): nat {
    if off <= |buf| then |buf| - off else 0
  }

  // Tags

  function GoTag(buf: seq<Byte>, off: nat): Option<Tag> {
    match GoRead(Tail(buf, off))
    case None => None
    case Some(s) =>
      if s.value / 8 > MAX_NUMBER then None
      else Some(Tag(s.value / 8, s.value % 8, s.size))
  }

  /** Python also refuses the wire types 6 and 7, which have no name. */
  function PyTag(buf: seq<Byte>, off: nat): (r: Option<Tag>)
    ensures r.Some? ==> r.value.size >= 1 && off + r.value.size <= |buf| && r.value.wire <= FIXED32
  {
    match PyRead(Tail(buf, off))
    case None => None
    case Some(s) =>
      if s.value / 8 > MAX_NUMBER || s.value % 8 > FIXED32 then None
      else Some(Tag(s.value / 8, s.value % 8, s.size))
  }

  // Skipping

  /** skip_data: the offset after the data, or None when it raises. A result is
      always strictly further on, so every walk built on it terminates. */
  function PySkip(buf: seq<Byte>, off: nat, wire: nat): (r: Option<nat>)
    ensures r.Some? ==> r.value > off
    decreases Left(buf, off), 1
  {
    if wire == VARINT then
      match ScanSize(Tail(buf, off))
      case None => None
      case Some(n) => Some(off + n)
    else if wire == FIXED32 then Some(off + 4)
    else if wire == FIXED64 then Some(off + 8)
    else if wire == BYTES then
      match PyRead(Tail(buf, off))
      case None => None
      case Some(s) => Some(off + s.size + s.value)
    else if wire == START_GROUP then PySkipGroup(buf, off)
    else None
  }

  function PySkipGroup(buf: seq<Byte>, off: nat): (r: Option<nat>)
    ensures r.Some? ==> r.value > off
    decreases Left(buf, off), 0
  {
    match PyTag(buf, off)
    case None => None
    case Some(t) =>
      if t.wire == END_GROUP then Some(off + t.size)
      else
        match PySkip(buf, off + t.size, t.wire)
        case None => None
        case Some(next) => PySkipGroup(buf, next)
  }

  function GoSkip(buf: seq<Byte>, off: int64, wire: nat, fuel: nat): Outcome<int64>
    decreases fuel, 1
  {
    if wire == VARINT then
      if off < 0 then Panicked
      else
        match ScanSize(Tail(buf, off))
        case None => Failed
        case Some(n) => Done(ToInt64(off + n))
    else if wire == FIXED32 then Done(ToInt64(off + 4))
    else if wire == FIXED64 then Done(ToInt64(off + 8))
    else if wire == BYTES then
      if off < 0 then Panicked
      else
        match GoRead(Tail(buf, off))
        case None => Failed
        case Some(s) => Done(ToInt64(ToInt64(off + s.size) + ToInt64(s.value)))
    else if wire == START_GROUP then GoSkipGroup(buf, off, fuel)
    else Failed
  }

  function GoSkipGroup(buf: seq<Byte>, off: int64, fuel: nat): Outcome<int64>
    decreases fuel, 0
  {
    if fuel == 0 then Unfinished
    else if off < 0 then Panicked
    else
      match GoTag(buf, off)
      case None => Failed
      case Some(t) =>
        var cur := ToInt64(off + t.size);
        if t.wire == END_GROUP then Done(cur)
        else
          match GoSkip(buf, cur, t.wire, fuel - 1)
          case Done(next) => GoSkipGroup(buf, next, fuel - 1)
          case Failed => Failed
          case Panicked => Panicked
          case Unfinished => Unfinished
  }

  // The two implementations

  lemma TagsAgree(buf: seq<Byte>, off: nat)
    ensures PyTag(buf, off).Some? ==> GoTag(buf, off) == PyTag(buf, off)
    ensures PyTag(buf, off).None? && GoTag(buf, off).Some? ==> GoTag(buf, off).value.wire > FIXED32
  {
    ReadersDiffer(Tail(buf, off));
  }

  /** Every length met while skipping keeps the offset inside a signed 64-bit
      integer. */
  predicate LengthsFit(buf: seq<Byte>, off: nat, wire: nat)
    decreases Left(buf, off), 1
  {
    if wire == BYTES then
      var r := PyRead(Tail(buf, off));
      r.Some? ==> off + r.value.size + r.value.value < TWO63
    else wire == START_GROUP ==> GroupLengthsFit(buf, off)
  }

  predicate GroupLengthsFit(buf: seq<Byte>, off: nat)
    decreases Left(buf, off), 0
  {
    var t := PyTag(buf, off);
    t.Some? && t.value.wire != END_GROUP ==>
      var cur := off + t.value.size;
      LengthsFit(buf, cur, t.value.wire) &&
      var next := PySkip(buf, cur, t.value.wire);
      next.Some? ==> GroupLengthsFit(buf, next.value)
  }

  function AsOutcome(r: Option<nat>): Outcome<nat> {
    if r.Some? then Done(r.value) else Failed
  }

  /** When the lengths fit, Go skips as Python does: same offset or an error on
      both sides, no panic, and within one round a byte. */
  lemma {:induction false} GoSkipsAsPython(buf: seq<Byte>, off: nat, wire: nat, fuel: nat)
    requires |buf| + 8 < TWO63 && off <= |buf|
    requires LengthsFit(buf, off, wire)
    requires fuel > Left(buf, off)
    ensures GoSkip(buf, off, wire, fuel) == AsOutcome(PySkip(buf, off, wire))
    decreases Left(buf, off), 1
  {
    hide GoRead, PyRead, ScanSize, GoSkipGroup, PySkipGroup, GroupLengthsFit;
    if wire == START_GROUP {
      GoSkipsGroupAsPython(buf, off, fuel);
    } else if wire == BYTES {
      hide ToInt64;
      ReadersDiffer(Tail(buf, off));
      var r := PyRead(Tail(buf, off));
      if r.Some? { Int64Length(off + r.value.size, r.value.value); }
    } else {
      ShortStep(buf, off);
    }
  }

  /** Offsets a little past the buffer are still 64-bit ones. */
  lemma ShortStep(buf: seq<Byte>, off: nat)
    requires |buf| + 8 < TWO63 && off <= |buf|
    ensures ToInt64(off + 4) == off + 4 && ToInt64(off + 8) == off + 8
    ensures var n := ScanSize(Tail(buf, off)); n.Some? ==> ToInt64(off + n.value) == off + n.value
  {
  }

  lemma {:induction false} GoSkipsGroupAsPython(buf: seq<Byte>, off: nat, fuel: nat)
    requires |buf| + 8 < TWO63 && off < TWO63
    requires GroupLengthsFit(buf, off)
    requires fuel > Left(buf, off)
    ensures GoSkipGroup(buf, off, fuel) == AsOutcome(PySkipGroup(buf, off))
    decreases Left(buf, off), 0
  {
    hide GoTag, PyTag, GoSkip, PySkip, LengthsFit;
    TagsAgree(buf, off);
    GoRefuses(buf, off);
    var t := PyTag(buf, off);
    if t.Some? && t.value.wire != END_GROUP {
      var cur := off + t.value.size;
      GoSkipsAsPython(buf, cur, t.value.wire, fuel - 1);
      var next := PySkip(buf, cur, t.value.wire);
      if next.Some? {
        SkipFits(buf, cur, t.value.wire);
        GoSkipsGroupAsPython(buf, next.value, fuel - 1);
      }
    }
  }

  /** A wire type without a name is refused when its data is skipped. */
  lemma GoRefuses(buf: seq<Byte>, off: nat)
    ensures PyTag(buf, off).None? && GoTag(buf, off).Some? ==>
              forall cur: int64, fuel: nat :: GoSkip(buf, cur, GoTag(buf, off).value.wire, fuel) == Failed
    ensures |buf| < TWO63 && PyTag(buf, off).Some? ==>
              ToInt64(off + PyTag(buf, off).value.size) == off + PyTag(buf, off).value.size
  {
    TagsAgree(buf, off);
    hide GoTag, PyTag, GoSkip;
    if PyTag(buf, off).None? && GoTag(buf, off).Some? {
      forall cur: int64, fuel: nat
        ensures GoSkip(buf, cur, GoTag(buf, off).value.wire, fuel) == Failed
      {
        NoSuchWire(buf, cur, GoTag(buf, off).value.wire, fuel);
      }
    }
  }

  lemma NoSuchWire(buf: seq<Byte>, off: int64, wire: nat, fuel: nat)
    requires wire > FIXED32
    ensures GoSkip(buf, off, wire, fuel) == Failed
  {
  }

  /** An offset reached by skipping is itself a 64-bit one when the lengths fit. */
  lemma {:induction false} SkipFits(buf: seq<Byte>, off: nat, wire: nat)
    requires |buf| + 8 < TWO63 && off <= |buf| && LengthsFit(buf, off, wire)
    requires PySkip(buf, off, wire).Some?
    ensures PySkip(buf, off, wire).value < TWO63
    decreases Left(buf, off), 1
  {
    if wire == START_GROUP { GroupEndsInside(buf, off); }
  }

  /** A group that is skipped ends inside the buffer: its end tag was read. */
  lemma {:induction false} GroupEndsInside(buf: seq<Byte>, off: nat)
    ensures PySkipGroup(buf, off).Some? ==> PySkipGroup(buf, off).value <= |buf|
    decreases Left(buf, off)
  {
    hide PyTag, PySkip;
    if PySkipGroup(buf, off).Some? {
      GoRefuses(buf, off);
      var t := PyTag(buf, off).value;
      if t.wire != END_GROUP {
        GroupEndsInside(buf, PySkip(buf, off + t.size, t.wire).value);
      }
    }
  }

  /** Exactly when a length-delimited skip in Go moves forward. The second case
      is a length whose 64-bit pattern is a negative number smaller in size than
      the length prefix itself. */
  lemma GoBytesProgress(buf: seq<Byte>, off: nat, fuel: nat)
    requires |buf| < TWO63 && off < |buf|
    requires GoRead(Tail(buf, off)).Some?
    ensures var s := GoRead(Tail(buf, off)).value;
            var r := GoSkip(buf, off, BYTES, fuel);
            r.Done? && (r.value > off <==> off + s.size + s.value < TWO63 || s.value > TWO64 - s.size)
    ensures GoSkip(buf, off, BYTES, fuel) == AsOutcome(PySkip(buf, off, BYTES)) <==>
            LengthsFit(buf, off, BYTES)
  {
    hide GoRead, PyRead, ToInt64;
    ReadersDiffer(Tail(buf, off));
    var s := GoRead(Tail(buf, off)).value;
    Int64Length(off + s.size, s.value);
  }

  /** The arithmetic of `offset + sizeSize + int(size)`. */
  lemma Int64Length(start: nat, length: nat)
    requires start < TWO63 && length < TWO64
    ensures ToInt64(start) == start
    ensures var r := ToInt64(start + ToInt64(length));
            (start + length < TWO63 ==> r == start + length) &&
            (TWO63 <= length ==> r == start + length - TWO64) &&
            (length < TWO63 <= start + length ==> r < 0)
  {
  }

  // The grammar

  /** One field as it stands on the wire, with the bytes of its varints: they
      need not be minimal. A group may hold any fields, to any depth. */
  datatype Field =
    | VarintField(tag: seq<Byte>, val: seq<Byte>)
    | Fixed64Field(tag: seq<Byte>, bits: seq<Byte>)
    | BytesField(tag: seq<Byte>, len: seq<Byte>, data: seq<Byte>)
    | GroupField(tag: seq<Byte>, body: Fields, end: seq<Byte>)
    | Fixed32Field(tag: seq<Byte>, bits: seq<Byte>)
  {
    function WireType(): nat {
      match this
      case VarintField(_, _) => VARINT
      case Fixed64Field(_, _) => FIXED64
      case BytesField(_, _, _) => BYTES
      case GroupField(_, _, _) => START_GROUP
      case Fixed32Field(_, _) => FIXED32
    }

    function Number(): nat { Value(tag) / 8 }
  }

  datatype Fields = Nil | Cons(head: Field, tail: Fields)
  {
    function Concat(other: Fields): Fields {
      match this
      case Nil => other
      case Cons(f, rest) => Cons(f, rest.Concat(other))
    }
  }

  predicate IsTag(w: seq<Byte>, wire: nat) {
    IsVarint64(w) && Value(w) / 8 <= MAX_NUMBER && Value(w) % 8 == wire
  }

  /** A value varint: what the size scan takes, so ten bytes of any content after
      nine continuation bytes are one. */
  predicate IsScanned(w: seq<Byte>) {
    ScanSize(w) == Some(|w|)
  }

  /** The number of a group's end tag is not compared with that of its start. */
  predicate WellFormed(f: Field) {
    IsTag(f.tag, f.WireType()) &&
    match f
    case VarintField(_, val) => IsScanned(val)
    case Fixed64Field(_, bits) => |bits| == 8
    case BytesField(_, len, data) => IsVarint64(len) && Value(len) == |data|
    case GroupField(_, body, end) => AllWellFormed(body) && IsTag(end, END_GROUP)
    case Fixed32Field(_, bits) => |bits| == 4
  }

  predicate AllWellFormed(fs: Fields) {
    match fs
    case Nil => true
    case Cons(f, rest) => WellFormed(f) && AllWellFormed(rest)
  }

  /** What follows the tag. */
  function Payload(f: Field): seq<Byte> {
    match f
    case VarintField(_, val) => val
    case Fixed64Field(_, bits) => bits
    case BytesField(_, len, data) => len + data
    case GroupField(_, body, end) => Message(body) + end
    case Fixed32Field(_, bits) => bits
  }

  function Message(fs: Fields): seq<Byte> {
    match fs
    case Nil => []
    case Cons(f, rest) => f.tag + (Payload(f) + Message(rest))
  }

  lemma {:induction false} MessageConcat(fs: Fields, gs: Fields)
    ensures Message(fs.Concat(gs)) == Message(fs) + Message(gs)
    ensures AllWellFormed(fs.Concat(gs)) <==> AllWellFormed(fs) && AllWellFormed(gs)
  {
    if fs.Nil? {
    } else {
      MessageConcat(fs.tail, gs);
    }
  }

  /** `part` stands in `buf` at `off`. */
  predicate At(buf: seq<Byte>, off: nat, part: seq<Byte>) {
    off + |part| <= |buf| && buf[off..off + |part|] == part
  }

  lemma AtParts(buf: seq<Byte>, off: nat, a: seq<Byte>, b: seq<Byte>)
    ensures At(buf, off, a + b) <==> At(buf, off, a) && At(buf, off + |a|, b)
  {
    if off + |a| + |b| <= |buf| {
      var whole := buf[off..off + |a + b|];
      assert whole == buf[off..off + |a|] + buf[off + |a|..off + |a| + |b|];
      assert whole[..|a|] == buf[off..off + |a|];
    }
  }

  lemma ReadAt(buf: seq<Byte>, off: nat, w: seq<Byte>)
    requires At(buf, off, w) && IsVarint64(w)
    ensures GoRead(Tail(buf, off)) == PyRead(Tail(buf, off)) == Some(Sized(Value(w), |w|))
    ensures ScanSize(Tail(buf, off)) == Some(|w|)
  {
    assert Tail(buf, off) == w + buf[off + |w|..];
    ReadVarint64(w, buf[off + |w|..]);
  }

  lemma TagAt(buf: seq<Byte>, off: nat, w: seq<Byte>, wire: nat)
    requires At(buf, off, w) && IsTag(w, wire) && wire <= FIXED32
    ensures GoTag(buf, off) == PyTag(buf, off) == Some(Tag(Value(w) / 8, wire, |w|))
  {
    ReadAt(buf, off, w);
  }

  lemma ScanAt(buf: seq<Byte>, off: nat, w: seq<Byte>)
    ensures At(buf, off, w) && IsScanned(w) <==>
            |w| > 0 && off + |w| <= |buf| && ScanSize(Tail(buf, off)) == Some(|w|) && w == buf[off..off + |w|]
  {
    if |w| > 0 && off + |w| <= |buf| && w == buf[off..off + |w|] {
      var b := Tail(buf, off);
      assert forall i :: 0 <= i < |w| ==> b[i] == w[i];
      var k := Span(b);
      if k < |w| { SpanUnique(w, k); } else { SpanUnique(w, |w|); }
    }
  }

  lemma TagOf(f: Field)
    requires WellFormed(f)
    ensures IsTag(f.tag, f.WireType()) && |f.tag| >= 1 && f.WireType() <= FIXED32
  {
  }

  lemma AtNil(buf: seq<Byte>, off: nat, after: seq<Byte>)
    requires At(buf, off, Message(Nil) + after)
    ensures At(buf, off, after) && |Message(Nil)| == 0
    ensures off + |Message(Nil) + after| == |buf| ==> buf[off..] == after
  {
    assert Message(Nil) + after == after;
  }

  /** Skipping lands exactly past the payload, for a group tree of any depth. */
  lemma {:induction false} SkipPayload(buf: seq<Byte>, off: nat, f: Field)
    requires WellFormed(f) && At(buf, off, Payload(f))
    ensures PySkip(buf, off, f.WireType()) == Some(off + |Payload(f)|)
    ensures |buf| < TWO63 ==> LengthsFit(buf, off, f.WireType())
    decreases f
  {
    hide GoRead, PyRead, ScanSize, Value, Span, At, Tail;
    AtInside(buf, off, Payload(f));
    match f
    case VarintField(_, val) => ScanAt(buf, off, val);
    case Fixed64Field(_, bits) =>
    case BytesField(_, len, data) =>
      AtParts(buf, off, len, data);
      ReadAt(buf, off, len);
    case GroupField(_, body, end) => SkipBody(buf, off, body, end);
    case Fixed32Field(_, bits) =>
  }

  lemma {:induction false} SkipBody(buf: seq<Byte>, off: nat, fs: Fields, end: seq<Byte>)
    requires AllWellFormed(fs) && IsTag(end, END_GROUP)
    requires At(buf, off, Message(fs) + end)
    ensures PySkipGroup(buf, off) == Some(off + |Message(fs)| + |end|)
    ensures |buf| < TWO63 ==> GroupLengthsFit(buf, off)
    decreases fs
  {
    hide *;
    match fs
    case Nil =>
      AtNil(buf, off, end);
      EndSkipped(buf, off, end);
    case Cons(f, rest) =>
      BothWellFormed(f, rest);
      HeadField(buf, off, f, rest, end);
      SkipPayload(buf, off + |f.tag|, f);
      HeadSkipped(buf, off, f);
      SkipBody(buf, off + |f.tag| + |Payload(f)|, rest, end);
  }

  lemma BothWellFormed(f: Field, rest: Fields)
    requires AllWellFormed(Cons(f, rest))
    ensures WellFormed(f) && AllWellFormed(rest)
  {
  }

  /** A field that stands in a group is one round of the group loop. */
  lemma HeadSkipped(buf: seq<Byte>, off: nat, f: Field)
    requires WellFormed(f) && At(buf, off, f.tag)
    requires PySkip(buf, off + |f.tag|, f.WireType()) == Some(off + |f.tag| + |Payload(f)|)
    ensures var next := off + |f.tag| + |Payload(f)|;
            PySkipGroup(buf, off) == PySkipGroup(buf, next) &&
            (GroupLengthsFit(buf, off) <==> LengthsFit(buf, off + |f.tag|, f.WireType()) && GroupLengthsFit(buf, next))
  {
    hide *;
    TagOf(f);
    NotAnEnd(f);
    TagAt(buf, off, f.tag, f.WireType());
    GroupStep(buf, off, off + |f.tag| + |Payload(f)|);
  }

  lemma NotAnEnd(f: Field)
    ensures f.WireType() != END_GROUP
  {
  }

  lemma EndSkipped(buf: seq<Byte>, off: nat, end: seq<Byte>)
    requires At(buf, off, end) && IsTag(end, END_GROUP)
    ensures PySkipGroup(buf, off) == Some(off + |end|) && GroupLengthsFit(buf, off)
  {
    hide At, IsTag, PyTag, GoTag, PySkipGroup, GroupLengthsFit, PySkip, LengthsFit;
    TagAt(buf, off, end, END_GROUP);
    GroupEnd(buf, off);
  }

  lemma GroupEnd(buf: seq<Byte>, off: nat)
    requires PyTag(buf, off).Some? && PyTag(buf, off).value.wire == END_GROUP
    ensures PySkipGroup(buf, off) == Some(off + PyTag(buf, off).value.size)
    ensures GroupLengthsFit(buf, off)
  {
  }

  lemma GroupStep(buf: seq<Byte>, off: nat, next: nat)
    requires PyTag(buf, off).Some? && PyTag(buf, off).value.wire != END_GROUP
    requires var t := PyTag(buf, off).value; PySkip(buf, off + t.size, t.wire) == Some(next)
    ensures PySkipGroup(buf, off) == PySkipGroup(buf, next)
    ensures var t := PyTag(buf, off).value;
            GroupLengthsFit(buf, off) <==> LengthsFit(buf, off + t.size, t.wire) && GroupLengthsFit(buf, next)
  {
    hide PyTag, PySkip, LengthsFit;
  }

  lemma AtInside(buf: seq<Byte>, off: nat, part: seq<Byte>)
    requires At(buf, off, part)
    ensures off + |part| <= |buf|
  {
  }

  /** The parts of a message that stands in a buffer. */
  lemma HeadField(buf: seq<Byte>, off: nat, f: Field, rest: Fields, after: seq<Byte>)
    requires At(buf, off, Message(Cons(f, rest)) + after)
    ensures At(buf, off, f.tag)
    ensures At(buf, off + |f.tag|, Payload(f))
    ensures At(buf, off + |f.tag| + |Payload(f)|, Message(rest) + after)
    ensures |Message(Cons(f, rest))| == |f.tag| + |Payload(f)| + |Message(rest)|
    ensures off + |f.tag| + |Payload(f)| <= |buf|
  {
    AtInside(buf, off, Message(Cons(f, rest)) + after);
    hide At;
    var more := Message(rest) + after;
    assert Message(Cons(f, rest)) + after == f.tag + (Payload(f) + more);
    AtParts(buf, off, f.tag, Payload(f) + more);
    AtParts(buf, off + |f.tag|, Payload(f), more);
  }

  /** Conversely, whatever is skipped inside the buffer is the payload of a
      well-formed field. */
  lemma {:induction false} ParsePayload(buf: seq<Byte>, off: nat, tag: seq<Byte>, wire: nat) returns (f: Field)
    requires |buf| < TWO63 && IsTag(tag, wire)
    requires PySkip(buf, off, wire).Some? && PySkip(buf, off, wire).value <= |buf|
    ensures WellFormed(f) && f.tag == tag && f.WireType() == wire
    ensures Payload(f) == buf[off..PySkip(buf, off, wire).value]
    decreases Left(buf, off), 1
  {
    hide GoRead, PyRead, ScanSize, Value, Span;
    var next := PySkip(buf, off, wire).value;
    var all := buf[off..next];
    if wire == VARINT {
      ScanAt(buf, off, all);
      f := VarintField(tag, all);
    } else if wire == FIXED32 {
      f := Fixed32Field(tag, all);
    } else if wire == FIXED64 {
      f := Fixed64Field(tag, all);
    } else if wire == BYTES {
      LengthVarint(buf, off);
      var data := off + PyRead(Tail(buf, off)).value.size;
      f := BytesField(tag, buf[off..data], buf[data..next]);
    } else {
      var body, end := ParseBody(buf, off);
      f := GroupField(tag, body, end);
    }
  }

  lemma LengthVarint(buf: seq<Byte>, off: nat)
    requires PyRead(Tail(buf, off)).Some?
    ensures var s := PyRead(Tail(buf, off)).value;
            off + s.size <= |buf| && IsVarint(buf[off..off + s.size]) && Value(buf[off..off + s.size]) == s.value &&
            (s.value < TWO64 ==> IsVarint64(buf[off..off + s.size]))
  {
    var b := Tail(buf, off);
    var s := PyRead(b).value;
    var w := buf[off..off + s.size];
    assert w == b[..s.size];
    SpanUnique(w, s.size - 1);
    if s.size == 10 { TenBytes(w); }
  }

  lemma PyTagIsTag(buf: seq<Byte>, off: nat)
    requires PyTag(buf, off).Some?
    ensures var t := PyTag(buf, off).value; IsTag(buf[off..off + t.size], t.wire)
  {
    LengthVarint(buf, off);
  }

  lemma Slices(buf: seq<Byte>, i: nat, j: nat, k: nat)
    requires i <= j <= k
    ensures forall l | k <= l <= |buf| :: buf[i..l] == buf[i..j] + (buf[j..k] + buf[k..l])
  {
  }

  lemma {:induction false} ParseBody(buf: seq<Byte>, off: nat) returns (fs: Fields, end: seq<Byte>)
    requires |buf| < TWO63 && PySkipGroup(buf, off).Some?
    ensures PySkipGroup(buf, off).value <= |buf|
    ensures AllWellFormed(fs) && IsTag(end, END_GROUP)
    ensures Message(fs) + end == buf[off..PySkipGroup(buf, off).value]
    decreases Left(buf, off), 0
  {
    hide PySkip, PyTag, PySkipGroup, IsTag, WellFormed, AllWellFormed, Message, Payload;
    GroupOpens(buf, off);
    PyTagIsTag(buf, off);
    var t := PyTag(buf, off).value;
    var cur := off + t.size;
    var w := buf[off..cur];
    if t.wire == END_GROUP {
      fs, end := Nil, w;
      NoFields(end);
    } else {
      var next := PySkip(buf, cur, t.wire).value;
      var rest;
      rest, end := ParseBody(buf, next);
      var f := ParsePayload(buf, cur, w, t.wire);
      fs := Cons(f, rest);
      OneField(f, rest, end);
      Slices(buf, off, cur, next);
    }
  }

  lemma GroupOpens(buf: seq<Byte>, off: nat)
    requires PySkipGroup(buf, off).Some?
    ensures PyTag(buf, off).Some?
    ensures var t := PyTag(buf, off).value;
            if t.wire == END_GROUP then PySkipGroup(buf, off).value == off + t.size <= |buf|
            else
              var next := PySkip(buf, off + t.size, t.wire);
              next.Some? && PySkipGroup(buf, next.value) == PySkipGroup(buf, off)
  {
    hide PySkip;
  }

  lemma NoFields(end: seq<Byte>)
    ensures AllWellFormed(Nil) && Message(Nil) + end == end
  {
  }

  lemma OneField(f: Field, rest: Fields, end: seq<Byte>)
    ensures Message(Cons(f, rest)) + end == f.tag + (Payload(f) + (Message(rest) + end))
    ensures AllWellFormed(Cons(f, rest)) <==> WellFormed(f) && AllWellFormed(rest)
  {
    hide Payload, WellFormed;
  }
}
