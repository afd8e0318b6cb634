/** A generated Go message with one int32 field, number 1 (unittest_import.pb2.go):
    `Unmarshal` only records where the field stands, and the getter decodes it on
    first use. The reference is an eager left-to-right decoder over the fields. */
module LazyMessage {
  import opened Bits
  import opened Options
  import opened Varint
  import opened Wire
  import opened GoReader
  import opened GoWriter

  const WIRE_D := 1

  /** The loop of Unmarshal: how it ends, and the offset recorded last. */
  function GoUnmarshal(buf: seq<Byte>, off: int64, offsetD: int64, fuel: nat): (Outcome<()>, int64)
    decreases fuel
  {
    if fuel == 0 then (Unfinished, offsetD)
    else if off >= |buf| then (Done(()), offsetD)
    else if off < 0 then (Panicked, offsetD)
    else
      match GoTag(buf, off)
      case None => (Failed, offsetD)
      case Some(t) =>
        var cur := ToInt64(off + t.size);
        var offsetD' := if t.number == WIRE_D then cur else offsetD;
        match GoSkip(buf, cur, t.wire, fuel - 1)
        case Done(next) => GoUnmarshal(buf, next, offsetD', fuel - 1)
        case Failed => (Failed, offsetD')
        case Panicked => (Panicked, offsetD')
        case Unfinished => (Unfinished, offsetD')
  }

  /** What the getter decodes; no field leaves the offset at 0. */
  function DecodeD(buf: seq<Byte>, offsetD: int64): int32 {
    if offsetD > 0 then Reader(buf).ReadInt32(offsetD) else 0
  }

  class ImportMessageReader {
    var buf: seq<Byte>
    var dataD: int32
    var offsetD: int64
    var parsedD: bool

    constructor ()
      ensures buf == [] && dataD == 0 && offsetD == 0 && !parsedD
    {
      buf, dataD, offsetD, parsedD := [], 0, 0, false;
    }

    method Unmarshal(data: seq<Byte>, fuel: nat) returns (r: Outcome<()>)
      modifies this`buf, this`offsetD
      ensures buf == data
      ensures (r, offsetD) == GoUnmarshal(data, 0, old(offsetD), fuel)
    {
      hide GoTag, GoSkip, ToInt64;
      buf := data;
      var reader := Reader(data);
      var offset: int64, rounds: nat := 0, fuel;
      while rounds > 0 && reader.HasNext(offset, 0)
        invariant buf == data
        invariant GoUnmarshal(data, offset, offsetD, rounds) == GoUnmarshal(data, 0, old(offsetD), fuel)
        decreases rounds
      {
        if offset < 0 { return Panicked; }
        var tag := reader.ReadTagAt(offset);
        if tag == None { return Failed; }
        offset := ToInt64(offset + tag.value.size);
        if tag.value.number == WIRE_D {
          offsetD := offset;
        }
        var next := reader.SkipData(offset, tag.value.wire, rounds - 1);
        match next {
          case Done(o) => offset := o;
          case Failed => return Failed;
          case Panicked => return Panicked;
          case Unfinished => return Unfinished;
        }
        rounds := rounds - 1;
      }
      return if rounds == 0 then Unfinished else Done(());
    }

    /** The first call decodes and caches; later calls, also after another
        Unmarshal, return the cached value. */
    method GetD() returns (d: int32)
      modifies this`dataD, this`parsedD
      ensures d == if old(parsedD) then old(dataD) else DecodeD(buf, offsetD)
      ensures parsedD && dataD == d
    {
      if parsedD { return dataD; }
      var entry: int32 := 0;
      if offsetD > 0 {
        entry := Reader(buf).ReadInt32(offsetD);
      }
      dataD := entry;
      parsedD := true;
      return entry;
    }
  }

  // The eager reference

  /** The int32 of a value varint; 0 for ten bytes that the decoder refuses. */
  function ValueD(val: seq<Byte>): int32 {
    match GoRead(val)
    case Some(s) => ToInt32(ToUint64(s.value))
    case None => 0
  }

  function EagerD(fs: Fields, d: int32): int32 {
    match fs
    case Nil => d
    case Cons(f, rest) =>
      EagerD(rest, if f.VarintField? && f.Number() == WIRE_D then ValueD(f.val) else d)
  }

  /** Field 1 stands only as a varint. Inside groups anything may stand. */
  predicate DIsVarint(fs: Fields) {
    match fs
    case Nil => true
    case Cons(f, rest) => (f.Number() == WIRE_D ==> f.VarintField?) && DIsVarint(rest)
  }

  lemma ReadValue(buf: seq<Byte>, off: nat, val: seq<Byte>)
    requires At(buf, off, val) && IsScanned(val)
    ensures Reader(buf).ReadInt32(off) == ValueD(val)
  {
    var b := Tail(buf, off);
    assert b == val + buf[off + |val|..];
    var k := Span(val);
    if k < |val| {
      SpanUnique(b, k);
      assert b[..k + 1] == val[..k + 1];
    } else {
      assert forall i :: 0 <= i < 10 ==> b[i] == val[i];
    }
  }

  lemma FieldSkipped(buf: seq<Byte>, off: nat, f: Field, fuel: nat)
    requires |buf| + 8 < TWO63 && fuel >= |buf| - off > 0 && off + |f.tag| + |Payload(f)| <= |buf|
    requires WellFormed(f) && At(buf, off, f.tag) && At(buf, off + |f.tag|, Payload(f))
    ensures GoTag(buf, off) == Some(Tag(f.Number(), f.WireType(), |f.tag|)) && |f.tag| >= 1
    ensures GoSkip(buf, off + |f.tag|, f.WireType(), fuel) == Done(off + |f.tag| + |Payload(f)|)
  {
    hide At, GoTag, GoSkip, PySkip, LengthsFit, IsTag, WellFormed, Payload, Value;
    TagOf(f);
    TagAt(buf, off, f.tag, f.WireType());
    SkipPayload(buf, off + |f.tag|, f);
    GoSkipsAsPython(buf, off + |f.tag|, f.WireType(), fuel);
  }

  /** One round of the loop over a field that stands at the offset. */
  lemma UnmarshalStep(buf: seq<Byte>, off: nat, f: Field, offsetD: int64, fuel: nat)
    requires |buf| + 8 < TWO63 && fuel > |buf| - off > 0 && off + |f.tag| + |Payload(f)| <= |buf|
    requires WellFormed(f) && At(buf, off, f.tag) && At(buf, off + |f.tag|, Payload(f))
    ensures GoUnmarshal(buf, off, offsetD, fuel) ==
            GoUnmarshal(buf, off + |f.tag| + |Payload(f)|,
                        if f.Number() == WIRE_D then off + |f.tag| else offsetD, fuel - 1)
    ensures f.VarintField? ==> DecodeD(buf, off + |f.tag|) == ValueD(f.val)
  {
    hide At, GoTag, GoSkip, DecodeD, WellFormed, Payload, GoUnmarshal, ValueD, Field.Number;
    FieldSkipped(buf, off, f, fuel - 1);
    UnmarshalRound(buf, off, offsetD, off + |f.tag| + |Payload(f)|, fuel);
    if f.VarintField? { ReadField(buf, off + |f.tag|, f); }
  }

  lemma UnmarshalRound(buf: seq<Byte>, off: nat, offsetD: int64, next: nat, fuel: nat)
    requires fuel > 0 && off < |buf| < TWO63 && next <= |buf|
    requires GoTag(buf, off).Some?
    requires var t := GoTag(buf, off).value;
             off + t.size <= |buf| && GoSkip(buf, off + t.size, t.wire, fuel - 1) == Done(next)
    ensures var t := GoTag(buf, off).value;
            GoUnmarshal(buf, off, offsetD, fuel) ==
            GoUnmarshal(buf, next, if t.number == WIRE_D then off + t.size else offsetD, fuel - 1)
  {
    hide GoTag, GoSkip;
  }

  lemma ReadField(buf: seq<Byte>, off: nat, f: Field)
    requires WellFormed(f) && f.VarintField? && At(buf, off, Payload(f))
    ensures off > 0 && off < TWO63 ==> DecodeD(buf, off) == ValueD(f.val)
  {
    hide Reader.ReadInt32, ValueD;
    ReadValue(buf, off, f.val);
  }

  lemma UnmarshalEnd(buf: seq<Byte>, off: nat, offsetD: int64, fuel: nat)
    requires fuel > 0 && off + |Message(Nil) + []| == |buf| < TWO63
    ensures GoUnmarshal(buf, off, offsetD, fuel) == (Done(()), offsetD)
  {
    hide GoTag, GoSkip;
  }

  /** Lazy reading equals eager decoding, for every concatenation of well-formed
      fields, from any recorded offset on. */
  lemma {:induction false} UnmarshalFields(buf: seq<Byte>, off: nat, fs: Fields, offsetD: int64, fuel: nat)
    requires |buf| + 8 < TWO63 && fuel > |buf| - off >= 0
    requires AllWellFormed(fs) && DIsVarint(fs)
    requires At(buf, off, Message(fs) + []) && off + |Message(fs) + []| == |buf|
    ensures var (r, o) := GoUnmarshal(buf, off, offsetD, fuel);
            r == Done(()) && DecodeD(buf, o) == EagerD(fs, DecodeD(buf, offsetD))
    decreases fs
  {
    hide At, Message, Payload, GoUnmarshal, DecodeD, ValueD, WellFormed;
    match fs
    case Nil => UnmarshalEnd(buf, off, offsetD, fuel);
    case Cons(f, rest) =>
      HeadField(buf, off, f, rest, []);
      TagOf(f);
      UnmarshalStep(buf, off, f, offsetD, fuel);
      UnmarshalFields(buf, off + |f.tag| + |Payload(f)|, rest,
                      if f.Number() == WIRE_D then off + |f.tag| else offsetD, fuel - 1);
  }

  lemma UnmarshalMessage(fs: Fields, fuel: nat)
    requires |Message(fs)| + 8 < TWO63 && fuel > |Message(fs)|
    requires AllWellFormed(fs) && DIsVarint(fs)
    ensures var (r, o) := GoUnmarshal(Message(fs), 0, 0, fuel);
            r == Done(()) && DecodeD(Message(fs), o) == EagerD(fs, 0)
  {
    hide GoUnmarshal, Message;
    assert Message(fs) + [] == Message(fs);
    UnmarshalFields(Message(fs), 0, fs, 0, fuel);
  }

  /** Concatenated messages merge: the last one that sets the field wins. */
  lemma {:induction false} EagerConcat(fs: Fields, gs: Fields, d: int32)
    ensures EagerD(fs.Concat(gs), d) == EagerD(gs, EagerD(fs, d))
    ensures DIsVarint(fs.Concat(gs)) <==> DIsVarint(fs) && DIsVarint(gs)
  {
    match fs
    case Nil =>
    case Cons(f, rest) =>
      EagerConcat(rest, gs, if f.VarintField? && f.Number() == WIRE_D then ValueD(f.val) else d);
  }

  predicate SetsD(fs: Fields) {
    fs.Cons? && (fs.head.Number() == WIRE_D || SetsD(fs.tail))
  }

  lemma LastWins(fs: Fields, gs: Fields)
    requires DIsVarint(gs)
    ensures EagerD(fs.Concat(gs), 0) == if SetsD(gs) then EagerD(gs, 0) else EagerD(fs, 0)
  {
    EagerConcat(fs, gs, 0);
    StartMatters(gs, EagerD(fs, 0), 0);
  }

  lemma {:induction false} StartMatters(fs: Fields, d: int32, e: int32)
    requires DIsVarint(fs)
    ensures SetsD(fs) ==> EagerD(fs, d) == EagerD(fs, e)
    ensures !SetsD(fs) ==> EagerD(fs, d) == d
  {
    match fs
    case Nil =>
    case Cons(f, rest) =>
      if f.Number() == WIRE_D {
        StartMatters(rest, ValueD(f.val), ValueD(f.val));
      } else {
        StartMatters(rest, d, e);
      }
  }

  /** Only the fields with number 1. */
  function Known(fs: Fields): Fields {
    match fs
    case Nil => Nil
    case Cons(f, rest) => if f.Number() == WIRE_D then Cons(f, Known(rest)) else Known(rest)
  }

  /** Unknown fields never matter. */
  lemma {:induction false} UnknownIgnored(fs: Fields, d: int32)
    requires DIsVarint(fs)
    ensures EagerD(fs, d) == EagerD(Known(fs), d)
  {
    match fs
    case Nil =>
    case Cons(f, rest) => UnknownIgnored(rest, if f.Number() == WIRE_D then ValueD(f.val) else d);
  }

  // Which inputs Unmarshal accepts

  /** Every length met on the way keeps the offset inside a signed 64-bit integer. */
  predicate TopLengthsFit(buf: seq<Byte>, off: nat)
    decreases Left(buf, off)
  {
    var t := PyTag(buf, off);
    t.Some? ==>
      var cur := off + t.value.size;
      LengthsFit(buf, cur, t.value.wire) &&
      var next := PySkip(buf, cur, t.value.wire);
      next.Some? ==> TopLengthsFit(buf, next.value)
  }

  predicate Accepted(buf: seq<Byte>, off: nat)
    decreases Left(buf, off)
  {
    off >= |buf| ||
    var t := PyTag(buf, off);
    t.Some? &&
    var next := PySkip(buf, off + t.value.size, t.value.wire);
    next.Some? && Accepted(buf, next.value)
  }

  lemma {:induction false} UnmarshalFinishes(buf: seq<Byte>, off: nat, offsetD: int64, fuel: nat)
    requires |buf| + 8 < TWO63 && off < TWO63 && fuel > Left(buf, off)
    requires TopLengthsFit(buf, off)
    ensures GoUnmarshal(buf, off, offsetD, fuel).0 == if Accepted(buf, off) then Done(()) else Failed
    decreases Left(buf, off)
  {
    hide GoTag, PyTag, PySkip, GoSkip, LengthsFit;
    if off < |buf| {
      TagsAgree(buf, off);
      GoRefuses(buf, off);
      var t := PyTag(buf, off);
      if t.Some? {
        var cur := off + t.value.size;
        GoSkipsAsPython(buf, cur, t.value.wire, fuel - 1);
        var next := PySkip(buf, cur, t.value.wire);
        if next.Some? {
          SkipFits(buf, cur, t.value.wire);
          UnmarshalFinishes(buf, next.value, if t.value.number == WIRE_D then cur else offsetD, fuel - 1);
        }
      }
    }
  }

  /** Without the condition the loop need not finish: a length of 2^64 - 11 is the
      int -11, which takes the offset back to the start of the field. */
  lemma {:induction false} LengthPastInt64(fuel: nat)
    ensures GoUnmarshal([0x12] + Encode(TWO64 - 11), 0, 0, fuel) == (Unfinished, 0)
    decreases fuel
  {
    hide GoTag, GoSkip;
    if fuel == 0 {
    } else {
      BackToStart(fuel - 1);
      LengthPastInt64(fuel - 1);
    }
  }

  lemma BackToStart(fuel: nat)
    ensures var buf := [0x12] + Encode(TWO64 - 11);
            GoTag(buf, 0) == Some(Tag(2, BYTES, 1)) && GoSkip(buf, 1, BYTES, fuel) == Done(0)
  {
    hide Encode, Value, GoRead, PyRead;
    var w := Encode(TWO64 - 11);
    var buf := [0x12] + w;
    EncodeFits(TWO64 - 11);
    EncodeIsVarint(TWO64 - 11);
    assert Pow128(9) == TWO63;
    EncodeLength(TWO64 - 11, 9);
    AtMostTen(w);
    ReadAt(buf, 1, w);
    SmallTag();
    TagAt(buf, 0, [0x12], BYTES);
    Int64Length(11, TWO64 - 11);
  }

  lemma SmallTag()
    ensures IsTag([0x12], BYTES) && Value([0x12]) / 8 == 2
  {
    assert [0x12][1..] == [];
    assert Value([0x12]) == 0x12;
  }

  /** The start of a last field whose announced data is not all there. */
  predicate CutShort(cut: seq<Byte>) {
    cut == [] ||
    exists n | 1 <= n <= |cut| :: CutAfterTag(cut[..n], cut[n..])
  }

  predicate CutAfterTag(tag: seq<Byte>, data: seq<Byte>) {
    (IsTag(tag, FIXED32) && |data| < 4) || (IsTag(tag, FIXED64) && |data| < 8) ||
    (IsTag(tag, BYTES) && PyRead(data).Some? && |data| < PyRead(data).value.size + PyRead(data).value.value)
  }

  /** Unmarshal accepts exactly the messages of well-formed fields, of which the
      last may be cut short inside its fixed-width or length-delimited data. */
  lemma AcceptedExactly(buf: seq<Byte>)
    requires |buf| < TWO63
    ensures Accepted(buf, 0) <==>
            exists fs, cut :: AllWellFormed(fs) && CutShort(cut) && buf == Message(fs) + cut
  {
    if Accepted(buf, 0) {
      var fs, cut := ParseMessage(buf, 0);
      assert buf == buf[0..];
    }
    forall fs, cut | AllWellFormed(fs) && CutShort(cut) && buf == Message(fs) + cut
      ensures Accepted(buf, 0)
    {
      MessageAccepted(buf, 0, fs, cut);
    }
  }

  lemma {:induction false} ParseMessage(buf: seq<Byte>, off: nat) returns (fs: Fields, cut: seq<Byte>)
    requires |buf| < TWO63 && off <= |buf| && Accepted(buf, off)
    ensures AllWellFormed(fs) && CutShort(cut) && buf[off..] == Message(fs) + cut
    decreases Left(buf, off)
  {
    hide PyTag, PySkip, IsTag, Payload, WellFormed;
    if off == |buf| {
      fs, cut := Nil, [];
    } else {
      PyTagIsTag(buf, off);
      TagInside(buf, off);
      var t := PyTag(buf, off).value;
      var cur := off + t.size;
      var next := PySkip(buf, cur, t.wire).value;
      if next > |buf| {
        fs, cut := Nil, buf[off..];
        CutField(buf, cur, buf[off..cur], t.wire);
        assert cut[..t.size] == buf[off..cur] && cut[t.size..] == buf[cur..];
      } else {
        var rest;
        rest, cut := ParseMessage(buf, next);
        var f := ParsePayload(buf, cur, buf[off..cur], t.wire);
        fs := Cons(f, rest);
        assert buf[off..] == buf[off..cur] + (buf[cur..next] + buf[next..]);
      }
    }
  }

  lemma TagInside(buf: seq<Byte>, off: nat)
    requires PyTag(buf, off).Some?
    ensures off + PyTag(buf, off).value.size <= |buf|
  {
  }

  lemma CutField(buf: seq<Byte>, cur: nat, tag: seq<Byte>, wire: nat)
    requires cur <= |buf| && IsTag(tag, wire)
    requires PySkip(buf, cur, wire).Some? && PySkip(buf, cur, wire).value > |buf|
    ensures CutAfterTag(tag, buf[cur..])
  {
    if wire == START_GROUP { GroupEndsInside(buf, cur); }
  }

  lemma {:induction false} MessageAccepted(buf: seq<Byte>, off: nat, fs: Fields, cut: seq<Byte>)
    requires |buf| < TWO63 && AllWellFormed(fs) && CutShort(cut)
    requires At(buf, off, Message(fs) + cut) && off + |Message(fs) + cut| == |buf|
    ensures Accepted(buf, off)
    decreases fs
  {
    hide PyTag, PySkip, CutShort, At, Message, Payload, WellFormed, Accepted;
    match fs
    case Nil =>
      AtNil(buf, off, cut);
      CutAccepted(buf, off);
    case Cons(f, rest) =>
      HeadField(buf, off, f, rest, cut);
      MessageAccepted(buf, off + |f.tag| + |Payload(f)|, rest, cut);
      HeadAccepted(buf, off, f);
  }

  lemma HeadAccepted(buf: seq<Byte>, off: nat, f: Field)
    requires |buf| < TWO63 && WellFormed(f) && At(buf, off, f.tag) && At(buf, off + |f.tag|, Payload(f))
    requires Accepted(buf, off + |f.tag| + |Payload(f)|)
    ensures Accepted(buf, off)
  {
    hide PyTag, PySkip, At, Payload, WellFormed, Accepted, IsTag;
    TagOf(f);
    TagAt(buf, off, f.tag, f.WireType());
    SkipPayload(buf, off + |f.tag|, f);
    AcceptedStep(buf, off, off + |f.tag| + |Payload(f)|);
  }

  lemma AcceptedStep(buf: seq<Byte>, off: nat, next: nat)
    requires PyTag(buf, off).Some?
    requires var t := PyTag(buf, off).value; PySkip(buf, off + t.size, t.wire) == Some(next)
    requires Accepted(buf, next)
    ensures Accepted(buf, off)
  {
    hide PyTag, PySkip;
  }

  lemma CutAccepted(buf: seq<Byte>, off: nat)
    requires off <= |buf| && CutShort(buf[off..])
    ensures Accepted(buf, off)
  {
    var cut := buf[off..];
    if cut != [] {
      hide Accepted, CutAfterTag;
      var n :| 1 <= n <= |cut| && CutAfterTag(cut[..n], cut[n..]);
      assert cut[n..] == Tail(buf, off + n) && cut[..n] == buf[off..off + n];
      CutSkipped(buf, off, cut[..n], cut[n..]);
    } else {
      assert off == |buf|;
    }
  }

  lemma CutSkipped(buf: seq<Byte>, off: nat, tag: seq<Byte>, data: seq<Byte>)
    requires At(buf, off, tag) && off + |tag| <= |buf| && data == Tail(buf, off + |tag|) && CutAfterTag(tag, data)
    ensures Accepted(buf, off)
  {
    hide CutAfterTag, IsTag, PyTag, PySkip, CutData, At, Accepted, Tail;
    var wire := CutWire(tag, data);
    TagAt(buf, off, tag, wire);
    SkipPast(buf, off + |tag|, wire);
    var next := PySkip(buf, off + |tag|, wire);
    PastEnd(buf, next.value);
    AcceptedStep(buf, off, next.value);
  }

  ghost predicate CutData(wire: nat, data: seq<Byte>) {
    (wire == FIXED32 && |data| < 4) || (wire == FIXED64 && |data| < 8) ||
    (wire == BYTES && PyRead(data).Some? && |data| < PyRead(data).value.size + PyRead(data).value.value)
  }

  lemma CutWire(tag: seq<Byte>, data: seq<Byte>) returns (wire: nat)
    requires CutAfterTag(tag, data)
    ensures IsTag(tag, wire) && wire <= FIXED32 && CutData(wire, data)
  {
    hide PyRead, IsTag;
    wire := if IsTag(tag, FIXED32) && |data| < 4 then FIXED32
            else if IsTag(tag, FIXED64) && |data| < 8 then FIXED64 else BYTES;
  }

  lemma SkipPast(buf: seq<Byte>, off: nat, wire: nat)
    requires off <= |buf| && CutData(wire, Tail(buf, off))
    ensures PySkip(buf, off, wire).Some? && PySkip(buf, off, wire).value > |buf|
  {
    hide PyRead;
  }

  lemma PastEnd(buf: seq<Byte>, off: nat)
    requires off >= |buf|
    ensures Accepted(buf, off)
  {
  }

  // The round trip

  /** Marshal of a message: nothing for the default value. */
  function ItemsOf(d: int32): seq<Item> {
    if d == 0 then [] else [Item(WIRE_D, Int32(d))]
  }

  /** A marshalled message is read back, and its length is the computed size. */
  method RoundTrip(d: int32) returns (back: int32)
    ensures back == d
  {
    hide Encode, Message, ItemsBytes, GoUnmarshal, DecodeD, EagerD, WellFormed;
    var b := Marshal(ItemsOf(d));
    var m := new ImportMessageReader();
    var r := m.Unmarshal(b, |b| + 1);
    var fs := if d == 0 then Nil else Cons(VarintField(Encode(8), Encode(ToUint64(d))), Nil);
    MarshalledFields(d, fs);
    UnmarshalMessage(fs, |b| + 1);
    assert r == Done(());
    back := m.GetD();
  }

  lemma MarshalledFields(d: int32, fs: Fields)
    requires fs == if d == 0 then Nil else Cons(VarintField(Encode(8), Encode(ToUint64(d))), Nil)
    ensures AllWellFormed(fs) && DIsVarint(fs) && EagerD(fs, 0) == d
    ensures Message(fs) == ItemsBytes(ItemsOf(d)) && |Message(fs)| <= 20
  {
    hide Encode, GoRead, IsTag, IsScanned, ItemsBytes, ValueD, Value;
    if d == 0 {
      NoItems();
    } else {
      TagD();
      ValueOfD(d);
      OneItem(d);
    }
  }

  lemma TagD()
    ensures IsTag(Encode(8), VARINT) && Value(Encode(8)) / 8 == WIRE_D && |Encode(8)| <= 10
  {
    EncodeFits(8);
    EncodeIsVarint(8);
  }

  lemma ValueOfD(d: int32)
    ensures var val := Encode(ToUint64(d)); IsScanned(val) && ValueD(val) == d && |val| <= 10
  {
    hide Encode, GoRead, IsScanned, ToInt32, ToUint64;
    var v := ToUint64(d);
    Convert32(d);
    Written(v);
    AtMostTen(Encode(v));
    SameWord(v);
  }

  lemma SameWord(v: uint64)
    ensures ToUint64(v) == v
  {
  }

  lemma Written(v: uint64)
    ensures var val := Encode(v); IsVarint64(val) && IsScanned(val) && GoRead(val) == Some(Sized(v, |val|))
  {
    hide *;
    var val := Encode(v);
    EncodeFits(v);
    EncodeIsVarint(v);
    ReadVarint64(val, []);
    assert val + [] == val;
    Scanned(val);
  }

  lemma Scanned(w: seq<Byte>)
    requires ScanSize(w) == Some(|w|)
    ensures IsScanned(w)
  {
  }

  lemma AtMostTen(w: Varint64)
    ensures |w| <= 10
  {
  }

  lemma NoItems()
    ensures ItemsBytes([]) == []
  {
  }

  lemma OneItem(d: int32)
    requires d != 0
    ensures ItemsBytes(ItemsOf(d)) == Encode(8) + (Encode(ToUint64(d)) + [])
  {
    hide Encode;
    assert ItemsOf(d)[1..] == [];
  }
}
