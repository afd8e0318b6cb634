/** Go and Python on one wire: both write the same bytes for a list of typed values, and
    both read the values back from them. */
module Interop {
  import opened Bits
  import opened Options
  import opened Varint
  import opened Wire
  import opened ZigZag
  import opened GoWriter
  import opened GoRoundTrip
  import opened PyTyped
  import opened PySizes
  import W = PyWriter

  // What Python writes

  function PyValueOf(s: Scalar): W.PyValue {
    match s
    case Int32(i) => W.PyInt(i)
    case Int64(l) => W.PyInt(l)
    case Uint32(u) => W.PyUint(u)
    case Uint64(w) => W.PyUint(w)
    case SInt32(i) => W.PySint(i)
    case SInt64(l) => W.PySint(l)
    case Bool(b) => W.PyBool(b)
    case Fixed32(u) => W.PyFixed32(u)
    case Fixed64(w) => W.PyFixed64(w)
    case SFixed32(i) => W.PySFixed32(i)
    case SFixed64(l) => W.PySFixed64(l)
    case Bytes(data) => W.PyBytes(data)
  }

  /** The call that generated code makes for a set field, with the tag bytes that the
      generator has written out. */
  function CallOf(item: Item): W.Call {
    W.Tagged(TagBytes(item.number, WireOf(item.value)), PyValueOf(item.value))
  }

  function CallsOf(items: seq<Item>): (calls: seq<W.Call>)
    ensures |calls| == |items|
  {
    if items == [] then [] else [CallOf(items[0])] + CallsOf(items[1..])
  }

  /** The chunks of a value are those of its bytes: no exception, and nothing lost to a
      mask. */
  lemma ValueWritten(s: W.Stream, v: Scalar)
    requires s.ok
    ensures W.EmitAll(s, W.ValueChunks(PyValueOf(v))) == W.Stream(s.bytes + ScalarBytes(v), true)
  {
    hide And, Xor, PyZig, Encode, LittleEndian, ToUint64, ToUint32, ToInt32, Zig, W.EmitAll;
    W.UnrollEmit(s, W.ValueChunks(PyValueOf(v)));
    match v
    case Int32(i) => Pattern64(i);
    case Int64(l) => Pattern64(l);
    case Uint32(u) =>
    case Uint64(w) =>
    case SInt32(i) => PyZigZag(i);
    case SInt64(l) => PyZigZag(l);
    case Bool(b) => OneByte(if b then 1 else 0);
    case Fixed32(u) => Packed(u);
    case Fixed64(w) => Packed(w);
    case SFixed32(i) => Packed(i);
    case SFixed64(l) => Packed(l);
    case Bytes(data) => assert s.bytes + Encode(|data|) + data == s.bytes + (Encode(|data|) + data);
  }

  lemma Pattern64(i: int)
    ensures And(i, W.MASK64) == ToUint64(i) >= 0
  {
    hide And;
    Mask64(i);
  }

  /** The pattern that is packed, of signed and unsigned values. */
  lemma Packed(i: int)
    ensures 0 <= i < TWO32 ==> i % TWO32 == i
    ensures 0 <= i < TWO64 ==> i % TWO64 == i
    ensures i % (TWO31 - -TWO31) == ToUint32(i) && i % (TWO63 - -TWO63) == ToUint64(i)
    ensures i % (TWO32 - 0) == ToUint32(i) && i % (TWO64 - 0) == ToUint64(i)
  {
  }

  /** What a call takes: a natural number as unsigned, and a fixed-width value of its type;
      signed values are masked or mapped, whatever their size. */
  predicate InRange(v: W.PyValue) {
    match v
    case PyUint(i) => i >= 0
    case PyFixed32(i) => 0 <= i <= 0xFFFF_FFFF
    case PyFixed64(i) => 0 <= i <= 0xFFFF_FFFF_FFFF_FFFF
    case PySFixed32(i) => -0x8000_0000 <= i <= 0x7FFF_FFFF
    case PySFixed64(i) => -0x8000_0000_0000_0000 <= i <= 0x7FFF_FFFF_FFFF_FFFF
    case _ => true
  }

  lemma ValueRaises(s: W.Stream, v: W.PyValue)
    requires s.ok
    ensures W.EmitAll(s, W.ValueChunks(v)).ok <==> InRange(v)
  {
    hide And, PyZig, Encode, LittleEndian, W.EmitAll;
    W.UnrollEmit(s, W.ValueChunks(v));
    if v.PyInt? { Pattern64(v.i); }
    if v.PySint? { PyZigIs(v.i); }
  }

  /** A call raises on the streaming writer exactly when its value is out of range, whatever
      was called before. */
  lemma RaisesExactly(s: W.Stream, c: W.Call)
    ensures W.EmitCall(s, c).ok <==> (c.Tagged? || c.WithoutTag? ==> InRange(c.value))
  {
    hide And, Or, PyZig, Encode, LittleEndian, W.EmitAll, W.ValueChunks, InRange;
    var start := s.(ok := true);
    if c.Tagged? {
      var chunks := W.ValueChunks(c.value);
      assert ([W.Raw(c.tag)] + chunks)[1..] == chunks;
      W.UnrollEmit(start, [W.Raw(c.tag)] + chunks);
      ValueRaises(start.(bytes := s.bytes + c.tag), c.value);
    } else if c.WithoutTag? {
      ValueRaises(start, c.value);
    } else {
      if c.BytesTag? { OrThree(c.number, 2); }
      W.UnrollEmit(start, W.CallChunks(c));
    }
  }

  lemma ItemWritten(s: W.Stream, item: Item)
    ensures W.EmitCall(s, CallOf(item)) == W.Stream(s.bytes + ItemBytes(item), true)
  {
    hide TagBytes, ScalarBytes, W.ValueChunks, PyValueOf, WireOf, W.EmitAll;
    var tag := TagBytes(item.number, WireOf(item.value));
    var chunks := W.ValueChunks(PyValueOf(item.value));
    var start := s.(ok := true);
    assert ([W.Raw(tag)] + chunks)[1..] == chunks;
    W.UnrollEmit(start, [W.Raw(tag)] + chunks);
    ValueWritten(W.Stream(s.bytes + tag, true), item.value);
    assert s.bytes + tag + ScalarBytes(item.value) == s.bytes + (tag + ScalarBytes(item.value));
  }

  /** The streaming writer of Python emits what Go marshals. */
  lemma {:induction false} StreamWritten(s: W.Stream, items: seq<Item>)
    requires s.ok
    ensures W.EmitCalls(s, CallsOf(items)) == W.Stream(s.bytes + ItemsBytes(items), true)
    decreases |items|
  {
    hide CallOf, CallsOf, ItemBytes, ItemsBytes, W.EmitCall, W.EmitCalls;
    if items == [] {
      NothingWritten(s);
    } else {
      ItemWritten(s, items[0]);
      var next := W.EmitCall(s, CallOf(items[0]));
      StreamWritten(next, items[1..]);
      FirstWritten(s, items);
    }
  }

  lemma NothingWritten(s: W.Stream)
    ensures W.EmitCalls(s, CallsOf([])) == s && s.bytes + ItemsBytes([]) == s.bytes
  {
  }

  lemma FirstWritten(s: W.Stream, items: seq<Item>)
    requires items != []
    ensures W.EmitCalls(s, CallsOf(items)) == W.EmitCalls(W.EmitCall(s, CallOf(items[0])), CallsOf(items[1..]))
    ensures s.bytes + ItemsBytes(items) == s.bytes + ItemBytes(items[0]) + ItemsBytes(items[1..])
  {
    hide CallOf, ItemBytes, W.EmitCall;
    assert CallsOf(items)[1..] == CallsOf(items[1..]);
  }

  lemma {:induction false} NoMark(s: W.Stream, calls: seq<W.Call>)
    requires forall c | c in calls :: !c.ResetCall?
    ensures W.MarkCalls(s, calls, 0) == 0
    decreases |calls|
  {
    hide W.EmitCall, W.CallChunks, W.Mark;
    if calls == [] {
    } else {
      assert calls[0] in calls;
      NoResets(calls[0]);
      NoMarkIn(s.(ok := true), W.CallChunks(calls[0]));
      NoMark(W.EmitCall(s, calls[0]), calls[1..]);
    }
  }

  lemma NoResets(c: W.Call)
    requires !c.ResetCall?
    ensures forall chunk | chunk in W.CallChunks(c) :: !chunk.Reset?
  {
    hide And, Or, Xor, PyZig, LittleEndian;
  }

  lemma {:induction false} NoMarkIn(s: W.Stream, cs: seq<W.Chunk>)
    requires forall c | c in cs :: !c.Reset?
    ensures W.Mark(s, cs, 0) == 0
    decreases |cs|
  {
    hide W.Emit;
    if cs == [] {
    } else {
      assert cs[0] in cs;
      NoMarkIn(W.Emit(s, cs[0]), cs[1..]);
    }
  }

  lemma {:induction false} CallsAreTagged(items: seq<Item>)
    ensures forall c | c in CallsOf(items) :: c.Tagged?
  {
    if items == [] {
    } else {
      CallsAreTagged(items[1..]);
    }
  }

  /** And so does the one that fills a bytearray, given room. */
  lemma BufferWritten(buf: seq<Byte>, items: seq<Item>)
    requires |ItemsBytes(items)| <= |buf|
    ensures var w := W.PutCalls(W.Buffer(buf, 0, true), CallsOf(items));
            w.ok && w.pos <= |w.buf| && w.buf[..w.pos] == ItemsBytes(items)
  {
    hide W.PutCalls, W.EmitCalls, ItemsBytes, W.MarkCalls;
    StreamWritten(W.Stream([], true), items);
    CallsAreTagged(items);
    NoMark(W.Stream([], true), CallsOf(items));
    W.SameOutput(buf, CallsOf(items));
    assert [] + ItemsBytes(items) == ItemsBytes(items);
  }

  // What Python reads

  /** Walking a message in Python: the tag, the value as its kind says, the next field. */
  function PyWalk(buf: seq<Byte>, off: nat, kinds: seq<Kind>): Option<seq<(nat, PyData)>>
    decreases |kinds|
  {
    if kinds == [] then
      if off == |buf| then Some([]) else None
    else
      match PyTag(buf, off)
      case None => None
      case Some(t) =>
        var v, next := PyReadAs(buf, off + t.size, kinds[0]), PySkip(buf, off + t.size, t.wire);
        if t.wire != KindWire(kinds[0]) || v.None? || next.None? then None
        else
          match PyWalk(buf, next.value, kinds[1..])
          case None => None
          case Some(rest) => Some([(t.number, v.value)] + rest)
  }

  function PyItems(items: seq<Item>): seq<(nat, PyData)>
    requires Readable(items)
  {
    if items == [] then [] else [(items[0].number, ToPy(items[0].value))] + PyItems(items[1..])
  }

  /** Every typed value is read back in Python from the bytes either writer put down. */
  lemma PyReadBack(buf: seq<Byte>, off: nat, s: Scalar)
    requires At(buf, off, ScalarBytes(s)) && |buf| < TWO63
    ensures PyReadAs(buf, off, KindOf(s)) == Some(ToPy(s))
  {
    hide At, ScalarBytes, PyReadAs, ReadAs, GoRead;
    ReadScalar(buf, off, s);
    if WireOf(s) == VARINT {
      VarintAt(buf, off, s);
      VarintReadsAgree(buf, off, KindOf(s));
    } else if s.Bytes? {
      BytesWritten(s);
      BytesAt(buf, off, s.data);
      BytesReadsAgree(buf, off);
    } else {
      FixedReadsAgree(buf, off, KindOf(s));
    }
  }

  lemma VarintAt(buf: seq<Byte>, off: nat, s: Scalar)
    requires At(buf, off, ScalarBytes(s)) && WireOf(s) == VARINT
    ensures GoRead(Tail(buf, off)).Some?
    ensures !(KindOf(s) == KSInt32 && Oversized(GoRead(Tail(buf, off)).value.value))
  {
    hide At, Encode, GoRead, Tail, ToUint64, Zig, PyZag, PyZig;
    match s
    case Int32(i) => ReadVarIntOf(buf, off, ToUint64(i));
    case Int64(l) => ReadVarIntOf(buf, off, ToUint64(l));
    case Uint32(u) => ReadVarIntOf(buf, off, u);
    case Uint64(w) => ReadVarIntOf(buf, off, w);
    case SInt32(i) =>
      ZigWord(i);
      PyZigZag(i);
      ReadVarIntOf(buf, off, Zig(i));
    case SInt64(l) =>
      ZigWord(l);
      ReadVarIntOf(buf, off, Zig(l));
    case Bool(b) =>
      OneByte(if b then 1 else 0);
      ReadVarIntOf(buf, off, if b then 1 else 0);
    case _ =>
  }

  lemma ZigWord(v: int64)
    ensures 0 <= Zig(v) < TWO64
  {
  }

  lemma BytesAt(buf: seq<Byte>, off: nat, data: GoBytes)
    requires At(buf, off, Encode(|data|) + data)
    ensures GoRead(Tail(buf, off)) == Some(Sized(|data|, |Encode(|data|)|))
    ensures off + |Encode(|data|)| + |data| <= |buf|
  {
    hide At, Encode, GoRead, Tail;
    DataAt(buf, off, Encode(|data|), data);
    ReadVarIntOf(buf, off, |data|);
  }

  lemma PySkipBack(buf: seq<Byte>, off: nat, s: Scalar)
    requires At(buf, off, ScalarBytes(s)) && |buf| < TWO63
    ensures PySkip(buf, off, WireOf(s)) == Some(off + |ScalarBytes(s)|)
  {
    hide At, ScalarBytes, GoRead, PyRead, ScanSize, ToInt64, Encode, LittleEndian;
    SkipScalar(buf, off, s);
    AtInside(buf, off, ScalarBytes(s));
    if s.Bytes? {
      BytesWritten(s);
      BytesAt(buf, off, s.data);
      ReadersDiffer(Tail(buf, off));
    } else if WireOf(s) == VARINT {
      SkippedVarint(buf, off, off + |ScalarBytes(s)|);
    } else {
      FixedLength(s);
    }
  }

  lemma BytesWritten(s: Scalar)
    requires s.Bytes?
    ensures ScalarBytes(s) == Encode(|s.data|) + s.data
  {
  }

  lemma SkippedVarint(buf: seq<Byte>, off: nat, next: nat)
    requires |buf| < TWO63 && off <= |buf| && GoSkip(buf, off, VARINT, 0) == Done(next)
    ensures PySkip(buf, off, VARINT) == Some(next)
  {
  }

  lemma FixedLength(s: Scalar)
    ensures WireOf(s) == FIXED32 ==> |ScalarBytes(s)| == 4
    ensures WireOf(s) == FIXED64 ==> |ScalarBytes(s)| == 8
  {
  }

  lemma TagBack(buf: seq<Byte>, off: nat, number: int32, s: Scalar)
    requires At(buf, off, TagBytes(number, WireOf(s))) && number >= 0
    ensures PyTag(buf, off) == Some(Tag(number, WireOf(s), |TagBytes(number, WireOf(s))|))
  {
    hide At, TagBytes, PyTag, GoTag;
    ReadTag(buf, off, number, WireOf(s));
    TagsAgree(buf, off);
  }

  /** The walk of Python over written items gives their numbers and values back. */
  lemma {:induction false} PyWalkBack(buf: seq<Byte>, off: nat, items: seq<Item>)
    requires Readable(items)
    requires |buf| < TWO63 && At(buf, off, ItemsBytes(items)) && off + |ItemsBytes(items)| == |buf|
    ensures PyWalk(buf, off, KindsOf(items)) == Some(PyItems(items))
    decreases |items|
  {
    hide At, ItemsBytes, PyReadAs, PyTag, PySkip, TagBytes, ScalarBytes, KindsOf, ToPy, PyWalk, WireOf;
    if items == [] {
      PyWalkEnd(buf);
    } else {
      ItemParts(buf, off, items);
      KindsHead(items);
      var item := items[0];
      var size := |TagBytes(item.number, WireOf(item.value))|;
      var next := off + size + |ScalarBytes(item.value)|;
      TagBack(buf, off, item.number, item.value);
      PyReadBack(buf, off + size, item.value);
      PySkipBack(buf, off + size, item.value);
      PyWalkBack(buf, next, items[1..]);
      PyWalkStep(buf, off, KindsOf(items), Tag(item.number, WireOf(item.value), size), ToPy(item.value), next);
    }
  }

  lemma PyWalkEnd(buf: seq<Byte>)
    ensures PyWalk(buf, |buf|, KindsOf([])) == Some([]) && ItemsBytes([]) == []
  {
  }

  lemma PyWalkStep(buf: seq<Byte>, off: nat, kinds: seq<Kind>, t: Tag, v: PyData, next: nat)
    requires kinds != [] && PyTag(buf, off) == Some(t) && PyReadAs(buf, off + t.size, kinds[0]) == Some(v)
    requires t.wire == KindWire(kinds[0]) && PySkip(buf, off + t.size, t.wire) == Some(next)
    requires PyWalk(buf, next, kinds[1..]).Some?
    ensures PyWalk(buf, off, kinds) == Some([(t.number, v)] + PyWalk(buf, next, kinds[1..]).value)
  {
    hide PyTag, PyReadAs, PySkip;
  }

  /** Every pair of writer and reader, for every list of typed values with field numbers
      that are not negative: both Python writers put down the bytes that Go marshals
      (`GoWriter.Marshal`), and from them Go and Python read the same numbers and
      values back. */
  lemma EveryPair(items: seq<Item>, buf: seq<Byte>)
    requires Readable(items) && |ItemsBytes(items)| <= |buf| && |ItemsBytes(items)| < TWO63
    ensures var bytes, w := ItemsBytes(items), W.PutCalls(W.Buffer(buf, 0, true), CallsOf(items));
            W.EmitCalls(W.Stream([], true), CallsOf(items)) == W.Stream(bytes, true) &&
            w.ok && w.pos <= |w.buf| && w.buf[..w.pos] == bytes &&
            Walk(bytes, 0, KindsOf(items)) == Some(items) &&
            PyWalk(bytes, 0, KindsOf(items)) == Some(PyItems(items))
  {
    hide ItemsBytes, Walk, PyWalk, KindsOf, PyItems, W.PutCalls, W.EmitCalls;
    var bytes := ItemsBytes(items);
    StreamWritten(W.Stream([], true), items);
    assert [] + bytes == bytes;
    BufferWritten(buf, items);
    WalkBack(bytes, 0, items);
    PyWalkBack(bytes, 0, items);
  }
}
