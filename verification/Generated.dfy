/** What generated Python code writes for a message (shared/gremlin_py/codegen/gen/fields):
    `calc_protobuf_size` adds the sizes up, then `encode_to` writes the fields, announcing
    the size of every nested message, packed list and map entry before its bytes. */
module Generated {
  import opened Bits
  import opened Options
  import opened Varint
  import opened Wire
  import opened ZigZag
  import opened GoWriter
  import opened GoRoundTrip
  import opened PyTyped
  import opened Interop
  import P = PySizes
  import W = PyWriter

  /** A field that is set. */
  datatype Field =
    | Single(item: Item)                           // a scalar other than its default, or bytes
    | Message(number: int32, body: seq<Field>)     // left out when its size is 0
    | Element(number: int32, body: seq<Field>)     // one message of a repeated field
    | Null(number: int32)                          // a None in a repeated field
    | Enums(number: int32, codes: seq<int32>)      // a repeated enum field
    | Scalars(number: int32, values: seq<Scalar>)  // a repeated scalar field of several values

  // The meaning

  /** A length-delimited field. */
  function Delimited(number: int32, data: seq<Byte>): seq<Byte> {
    TagBytes(number, BYTES) + (Encode(|data|) + data)
  }

  function Packed(values: seq<Scalar>): seq<Byte> {
    if values == [] then [] else ScalarBytes(values[0]) + Packed(values[1..])
  }

  function Ints(values: seq<int32>): seq<Scalar> {
    if values == [] then [] else [Int32(values[0])] + Ints(values[1..])
  }

  function FieldBytes(f: Field): seq<Byte>
    decreases f
  {
    match f
    case Single(item) => ItemBytes(item)
    case Message(n, body) => if Content(body) == [] then [] else Delimited(n, Content(body))
    case Element(n, body) => Delimited(n, Content(body))
    case Null(n) => Delimited(n, [])
    case Enums(n, values) =>
      if values == [] then [] else if |values| == 1 then ItemBytes(Item(n, Int32(values[0])))
      else Delimited(n, Packed(Ints(values)))
    case Scalars(n, values) => Delimited(n, Packed(values))
  }

  function Content(fields: seq<Field>): seq<Byte>
    decreases fields
  {
    if fields == [] then [] else FieldBytes(fields[0]) + Content(fields[1..])
  }

  // The sizes

  /** The size functions of the types. */
  function ValueSize(s: Scalar): nat {
    match s
    case Int32(i) => P.SizeVarInt(P.SizeIntArg(i))
    case Int64(l) => P.SizeVarInt(P.SizeIntArg(l))
    case Uint32(u) => P.SizeVarInt(u)
    case Uint64(w) => P.SizeVarInt(w)
    case SInt32(i) => SignedSize(i)
    case SInt64(l) => SignedSize(l)
    case Bool(_) => 1
    case Fixed32(_) => 4
    case Fixed64(_) => 8
    case SFixed32(_) => 4
    case SFixed64(_) => 8
    case Bytes(data) => P.SizeVarInt(|data|) + |data|
  }

  /** size_signed_varint */
  function SignedSize(v: int): nat {
    P.SizeSignedIs(v);
    P.SizeVarInt(PySizeZig(v))
  }

  /** size_field_tag */
  function TagSize(number: nat, wire: nat): nat
    requires wire < 8
  {
    OrThree(number, wire);
    P.SizeVarInt(Or(number * 8, wire))
  }

  function PackedSize(values: seq<Scalar>): nat {
    if values == [] then 0 else ValueSize(values[0]) + PackedSize(values[1..])
  }

  function FieldSize(f: Field): nat
    requires Numbered(f)
    decreases f
  {
    match f
    case Single(item) => TagSize(item.number, WireOf(item.value)) + ValueSize(item.value)
    case Message(n, body) =>
      var size := Size(body);
      if size > 0 then TagSize(n, BYTES) + P.SizeVarInt(size) + size else 0
    case Element(n, body) =>
      var size := Size(body);
      TagSize(n, BYTES) + P.SizeVarInt(size) + size
    case Null(n) => TagSize(n, BYTES) + 1
    case Enums(n, values) =>
      if values == [] then 0
      else if |values| == 1 then TagSize(n, VARINT) + ValueSize(Int32(values[0]))
      else
        var size := PackedSize(Ints(values));
        TagSize(n, BYTES) + P.SizeVarInt(size) + size
    case Scalars(n, values) =>
      var size := PackedSize(values);
      TagSize(n, BYTES) + P.SizeVarInt(size) + size
  }

  /** calc_protobuf_size */
  function Size(fields: seq<Field>): nat
    requires AllNumbered(fields)
    decreases fields
  {
    if fields == [] then 0 else FieldSize(fields[0]) + Size(fields[1..])
  }

  /** A field number is not negative, in the field and in those inside it. */
  predicate Numbered(f: Field)
    decreases f
  {
    match f
    case Single(item) => item.number >= 0
    case Message(n, body) => n >= 0 && AllNumbered(body)
    case Element(n, body) => n >= 0 && AllNumbered(body)
    case Null(n) => n >= 0
    case Enums(n, _) => n >= 0
    case Scalars(n, _) => n >= 0
  }

  predicate AllNumbered(fields: seq<Field>)
    decreases fields
  {
    fields == [] || (Numbered(fields[0]) && AllNumbered(fields[1..]))
  }

  // The calls

  function Untagged(values: seq<Scalar>): seq<W.Call> {
    if values == [] then [] else [W.WithoutTag(PyValueOf(values[0]))] + Untagged(values[1..])
  }

  /** append_bytes_size_with_tag with the tag bytes that the generator has written out */
  function Announced(number: int32, size: nat): W.Call { W.BytesSizeWithTag(TagBytes(number, BYTES), size) }

  function FieldCalls(f: Field): seq<W.Call>
    requires Numbered(f)
    decreases f
  {
    match f
    case Single(item) => [CallOf(item)]
    case Message(n, body) => if Size(body) > 0 then [Announced(n, Size(body))] + Calls(body) else []
    case Element(n, body) => [Announced(n, Size(body))] + Calls(body)
    case Null(n) => [Announced(n, 0)]
    case Enums(n, values) =>
      if values == [] then []
      else if |values| == 1 then [CallOf(Item(n, Int32(values[0])))]
      else [Announced(n, PackedSize(Ints(values)))] + Untagged(Ints(values))
    case Scalars(n, values) => [W.BytesTag(n, PackedSize(values))] + Untagged(values)
  }

  /** encode_to */
  function Calls(fields: seq<Field>): seq<W.Call>
    requires AllNumbered(fields)
    decreases fields
  {
    if fields == [] then [] else FieldCalls(fields[0]) + Calls(fields[1..])
  }

  // The sizes are right

  lemma TagSizeIs(number: int32, wire: nat)
    requires number >= 0 && wire < 8
    ensures TagSize(number, wire) == |TagBytes(number, wire)|
    ensures Or(number * 8, wire) == number * 8 + wire && Encode(Or(number * 8, wire)) == TagBytes(number, wire)
  {
    hide P.SizeVarInt, Encode, Or;
    OrThree(number, wire);
    P.SizeVarIntIs(Or(number * 8, wire));
    Natural(number * 8);
  }

  lemma Natural(n: nat)
    requires n < TWO63
    ensures ToUint64(n) == n
  {
  }

  lemma ValueSizeIs(s: Scalar)
    ensures ValueSize(s) == |ScalarBytes(s)|
  {
    hide P.SizeVarInt, Encode, And, Zig, PyZig, PySizeZig;
    match s
    case Int32(i) => IntSize(i);
    case Int64(l) => IntSize(l);
    case Uint32(u) => P.SizeVarIntIs(u);
    case Uint64(w) => P.SizeVarIntIs(w);
    case SInt32(i) => P.SizeSignedIs(i);
    case SInt64(l) => P.SizeSignedIs(l);
    case Bytes(data) => P.SizeVarIntIs(|data|);
    case _ =>
  }

  lemma IntSize(i: int)
    requires -TWO63 <= i < TWO63
    ensures P.SizeIntArg(i) >= 0 && P.SizeVarInt(P.SizeIntArg(i)) == |Encode(ToUint64(i))|
  {
    hide P.SizeVarInt, Encode, And;
    P.SizeIntIs(i);
    Pattern64(i);
  }

  lemma {:induction false} PackedSizeIs(values: seq<Scalar>)
    ensures PackedSize(values) == |Packed(values)|
  {
    if values == [] {
    } else {
      hide ValueSize, ScalarBytes;
      ValueSizeIs(values[0]);
      PackedSizeIs(values[1..]);
    }
  }

  lemma DelimitedSize(number: int32, data: seq<Byte>)
    requires number >= 0
    ensures TagSize(number, BYTES) + P.SizeVarInt(|data|) + |data| == |Delimited(number, data)|
    ensures P.SizeVarInt(0) == 1
  {
    hide P.SizeVarInt, Encode, TagBytes, TagSize;
    TagSizeIs(number, BYTES);
    P.SizeVarIntIs(|data|);
    P.SizeVarIntIs(0);
    OneByte(0);
  }

  lemma ItemSize(item: Item)
    requires item.number >= 0
    ensures TagSize(item.number, WireOf(item.value)) + ValueSize(item.value) == |ItemBytes(item)|
  {
    hide TagSize, TagBytes, ValueSize, ScalarBytes;
    TagSizeIs(item.number, WireOf(item.value));
    ValueSizeIs(item.value);
  }

  lemma {:induction false} FieldSizeIs(f: Field)
    requires Numbered(f)
    ensures FieldSize(f) == |FieldBytes(f)|
    decreases f
  {
    hide P.SizeVarInt, TagSize, ValueSize, ItemBytes, Delimited, Content, Size, Packed, PackedSize, Ints, AllNumbered;
    match f
    case Single(item) => ItemSize(item);
    case Message(n, body) =>
      SizeIs(body);
      DelimitedSize(n, Content(body));
    case Element(n, body) =>
      SizeIs(body);
      DelimitedSize(n, Content(body));
    case Null(n) => DelimitedSize(n, []);
    case Enums(n, values) =>
      if |values| == 1 { ItemSize(Item(n, Int32(values[0]))); }
      PackedSizeIs(Ints(values));
      DelimitedSize(n, Packed(Ints(values)));
    case Scalars(n, values) =>
      PackedSizeIs(values);
      DelimitedSize(n, Packed(values));
  }

  /** The size that is announced is the size of what is written, at any depth. */
  lemma {:induction false} SizeIs(fields: seq<Field>)
    requires AllNumbered(fields)
    ensures Size(fields) == |Content(fields)|
    decreases fields
  {
    if fields == [] {
    } else {
      hide FieldSize, FieldBytes, Numbered;
      FieldSizeIs(fields[0]);
      SizeIs(fields[1..]);
    }
  }

  // The calls write the bytes

  lemma {:induction false} EmitBoth(s: W.Stream, a: seq<W.Call>, b: seq<W.Call>)
    ensures W.EmitCalls(s, a + b) == W.EmitCalls(W.EmitCalls(s, a), b)
    decreases |a|
  {
    hide W.EmitCall;
    if a == [] {
      assert a + b == b;
    } else {
      assert (a + b)[1..] == a[1..] + b;
      EmitBoth(W.EmitCall(s, a[0]), a[1..], b);
    }
  }

  lemma EmitOne(s: W.Stream, c: W.Call)
    ensures W.EmitCalls(s, [c]) == W.EmitCall(s, c)
  {
    hide W.EmitCall;
    assert [c][1..] == [];
  }

  /** Calls that write these bytes, from any stream on. */
  ghost predicate Writes(calls: seq<W.Call>, data: seq<Byte>) {
    forall s: W.Stream | s.ok :: W.EmitCalls(s, calls) == W.Stream(s.bytes + data, true)
  }

  lemma Written(calls: seq<W.Call>, data: seq<Byte>, s: W.Stream)
    requires Writes(calls, data) && s.ok
    ensures W.EmitCalls(s, calls) == W.Stream(s.bytes + data, true)
  {
  }

  lemma WritesIf(calls: seq<W.Call>, data: seq<Byte>)
    requires forall s: W.Stream | s.ok :: W.EmitCalls(s, calls) == W.Stream(s.bytes + data, true)
    ensures Writes(calls, data)
  {
  }

  lemma WritesNothing()
    ensures Writes([], [])
  {
  }

  lemma WritesOne(c: W.Call, data: seq<Byte>)
    requires forall s: W.Stream | s.ok :: W.EmitCall(s, c) == W.Stream(s.bytes + data, true)
    ensures Writes([c], data)
  {
    hide W.EmitCall, W.EmitCalls;
    forall s: W.Stream | s.ok
      ensures W.EmitCalls(s, [c]) == W.Stream(s.bytes + data, true)
    {
      EmitOne(s, c);
    }
  }

  lemma WritesBoth(a: seq<W.Call>, x: seq<Byte>, b: seq<W.Call>, y: seq<Byte>)
    requires Writes(a, x) && Writes(b, y)
    ensures Writes(a + b, x + y)
  {
    hide W.EmitCalls, Writes;
    forall s: W.Stream | s.ok
      ensures W.EmitCalls(s, a + b) == W.Stream(s.bytes + (x + y), true)
    {
      EmitBoth(s, a, b);
      Written(a, x, s);
      Written(b, y, W.Stream(s.bytes + x, true));
      assert s.bytes + x + y == s.bytes + (x + y);
    }
    WritesIf(a + b, x + y);
  }

  lemma WritesItem(item: Item)
    ensures Writes([CallOf(item)], ItemBytes(item))
  {
    hide CallOf, ItemBytes, Writes, W.EmitCall;
    forall s: W.Stream | s.ok
      ensures W.EmitCall(s, CallOf(item)) == W.Stream(s.bytes + ItemBytes(item), true)
    {
      ItemWritten(s, item);
    }
    WritesOne(CallOf(item), ItemBytes(item));
  }

  lemma WritesUntagged(v: Scalar)
    ensures Writes([W.WithoutTag(PyValueOf(v))], ScalarBytes(v))
  {
    hide PyValueOf, ScalarBytes, Writes, W.EmitAll, W.ValueChunks;
    var c := W.WithoutTag(PyValueOf(v));
    forall s: W.Stream | s.ok
      ensures W.EmitCall(s, c) == W.Stream(s.bytes + ScalarBytes(v), true)
    {
      ValueWritten(s, v);
    }
    hide W.EmitCall;
    WritesOne(c, ScalarBytes(v));
  }

  /** Both ways to announce a length put down the tag of a length-delimited field and the
      length. */
  lemma WritesLength(number: int32, size: nat)
    ensures Writes([Announced(number, size)], TagBytes(number, BYTES) + Encode(size))
    ensures number >= 0 ==> Writes([W.BytesTag(number, size)], TagBytes(number, BYTES) + Encode(size))
  {
    hide TagBytes, Encode, Writes, W.EmitCall, Or;
    var tag := TagBytes(number, BYTES);
    forall s: W.Stream | s.ok
      ensures W.EmitCall(s, Announced(number, size)) == W.Stream(s.bytes + (tag + Encode(size)), true)
      ensures number >= 0 ==> W.EmitCall(s, W.BytesTag(number, size)) == W.Stream(s.bytes + (tag + Encode(size)), true)
    {
      LengthPut(s, number, size);
    }
    WritesOne(Announced(number, size), tag + Encode(size));
    if number >= 0 { WritesOne(W.BytesTag(number, size), tag + Encode(size)); }
  }

  lemma LengthPut(s: W.Stream, number: int32, size: nat)
    requires s.ok
    ensures var data := TagBytes(number, BYTES) + Encode(size);
            W.EmitCall(s, Announced(number, size)) == W.Stream(s.bytes + data, true) &&
            (number >= 0 ==> W.EmitCall(s, W.BytesTag(number, size)) == W.Stream(s.bytes + data, true))
  {
    hide TagBytes, Encode, Or, W.EmitAll, TagSize;
    W.UnrollEmit(s, W.CallChunks(Announced(number, size)));
    if number >= 0 {
      TagSizeIs(number, BYTES);
      W.UnrollEmit(s, W.CallChunks(W.BytesTag(number, size)));
    }
    assert s.bytes + TagBytes(number, BYTES) + Encode(size) == s.bytes + (TagBytes(number, BYTES) + Encode(size));
  }

  /** A length announced either way, and then any calls that write so many bytes, put down
      the field that holds those bytes. */
  lemma DelimitedWritten(number: int32, calls: seq<W.Call>, data: seq<Byte>)
    requires Writes(calls, data)
    ensures Writes([Announced(number, |data|)] + calls, Delimited(number, data))
    ensures number >= 0 ==> Writes([W.BytesTag(number, |data|)] + calls, Delimited(number, data))
  {
    hide TagBytes, Encode, Writes, Announced;
    WritesLength(number, |data|);
    var head := TagBytes(number, BYTES) + Encode(|data|);
    assert head + data == TagBytes(number, BYTES) + (Encode(|data|) + data);
    WritesBoth([Announced(number, |data|)], head, calls, data);
    if number >= 0 { WritesBoth([W.BytesTag(number, |data|)], head, calls, data); }
  }

  lemma RawWritten(data: seq<Byte>)
    ensures Writes([W.RawBytes(data)], data)
  {
    hide Writes, W.EmitCall;
    forall s: W.Stream | s.ok
      ensures W.EmitCall(s, W.RawBytes(data)) == W.Stream(s.bytes + data, true)
    {
      RawPut(s, data);
    }
    WritesOne(W.RawBytes(data), data);
  }

  lemma RawPut(s: W.Stream, data: seq<Byte>)
    requires s.ok
    ensures W.EmitCall(s, W.RawBytes(data)) == W.Stream(s.bytes + data, true)
  {
    W.UnrollEmit(s, [W.Raw(data)]);
  }

  lemma {:induction false} PackedWritten(values: seq<Scalar>)
    ensures Writes(Untagged(values), Packed(values))
  {
    hide Writes, ScalarBytes, PyValueOf;
    if values == [] {
      WritesNothing();
    } else {
      WritesUntagged(values[0]);
      PackedWritten(values[1..]);
      var rest := values[1..];
      WritesBoth([W.WithoutTag(PyValueOf(values[0]))], ScalarBytes(values[0]), Untagged(rest), Packed(rest));
    }
  }

  lemma {:induction false} FieldWritten(f: Field)
    requires Numbered(f)
    ensures Writes(FieldCalls(f), FieldBytes(f))
    decreases f
  {
    hide Writes, CallOf, ItemBytes, Delimited, Content, Size, Calls, Packed, PackedSize, Ints, Untagged, Announced;
    hide AllNumbered, TagSize;
    match f
    case Single(item) => WritesItem(item);
    case Message(n, body) =>
      SizeIs(body);
      ContentWritten(body);
      DelimitedWritten(n, Calls(body), Content(body));
      WritesNothing();
    case Element(n, body) =>
      SizeIs(body);
      ContentWritten(body);
      DelimitedWritten(n, Calls(body), Content(body));
    case Null(n) =>
      WritesNothing();
      DelimitedWritten(n, [], []);
      assert [Announced(n, 0)] + [] == [Announced(n, 0)];
    case Enums(n, values) =>
      WritesNothing();
      if |values| == 1 { WritesItem(Item(n, Int32(values[0]))); }
      PackedSizeIs(Ints(values));
      PackedWritten(Ints(values));
      DelimitedWritten(n, Untagged(Ints(values)), Packed(Ints(values)));
    case Scalars(n, values) =>
      PackedSizeIs(values);
      PackedWritten(values);
      DelimitedWritten(n, Untagged(values), Packed(values));
  }

  /** The calls of a message write its bytes, nested to any depth. */
  lemma {:induction false} ContentWritten(fields: seq<Field>)
    requires AllNumbered(fields)
    ensures Writes(Calls(fields), Content(fields))
    decreases fields
  {
    hide Writes, Numbered, FieldCalls, FieldBytes;
    if fields == [] {
      WritesNothing();
    } else {
      FieldWritten(fields[0]);
      ContentWritten(fields[1..]);
      WritesBoth(FieldCalls(fields[0]), FieldBytes(fields[0]), Calls(fields[1..]), Content(fields[1..]));
    }
  }

  lemma {:induction false} NoResetPlain(values: seq<Scalar>)
    ensures forall c | c in Untagged(values) :: !c.ResetCall?
  {
    if values == [] {
    } else {
      NoResetPlain(values[1..]);
    }
  }

  lemma {:induction false} NoResetField(f: Field)
    requires Numbered(f)
    ensures forall c | c in FieldCalls(f) :: !c.ResetCall?
    decreases f
  {
    hide Size, PackedSize, Ints, PyValueOf, TagBytes;
    match f
    case Message(n, body) => NoResetCalls(body);
    case Element(n, body) => NoResetCalls(body);
    case Enums(n, codes) => NoResetPlain(Ints(codes));
    case Scalars(n, values) => NoResetPlain(values);
    case _ =>
  }

  lemma {:induction false} NoResetCalls(fields: seq<Field>)
    requires AllNumbered(fields)
    ensures forall c | c in Calls(fields) :: !c.ResetCall?
    decreases fields
  {
    hide FieldCalls, Numbered;
    if fields == [] {
    } else {
      NoResetField(fields[0]);
      NoResetCalls(fields[1..]);
    }
  }

  /** What both writers hold after calls without a reset. */
  lemma EitherWriter(calls: seq<W.Call>, data: seq<Byte>, buf: seq<Byte>)
    requires Writes(calls, data) && |data| <= |buf| && forall c | c in calls :: !c.ResetCall?
    ensures W.EmitCalls(W.Stream([], true), calls) == W.Stream(data, true)
    ensures var w := W.PutCalls(W.Buffer(buf, 0, true), calls);
            w.ok && w.pos <= |w.buf| == |buf| && w.buf[..w.pos] == data
  {
    hide W.EmitCalls, W.PutCalls, Writes, W.MarkCalls;
    Written(calls, data, W.Stream([], true));
    assert [] + data == data;
    NoMark(W.Stream([], true), calls);
    W.SameOutput(buf, calls);
  }

  /** A message of generated code, nested to any depth: `calc_protobuf_size` is the number of
      its bytes, and `encode_to` puts exactly these bytes down in either writer. */
  lemma MessageWritten(fields: seq<Field>, buf: seq<Byte>)
    requires AllNumbered(fields) && Size(fields) <= |buf|
    ensures |Content(fields)| == Size(fields)
    ensures W.EmitCalls(W.Stream([], true), Calls(fields)) == W.Stream(Content(fields), true)
    ensures var w := W.PutCalls(W.Buffer(buf, 0, true), Calls(fields));
            w.ok && w.pos <= |w.buf| && w.buf[..w.pos] == Content(fields) &&
            (|buf| == Size(fields) ==> w.buf == Content(fields))
  {
    hide *;
    SizeIs(fields);
    ContentWritten(fields);
    NoResetCalls(fields);
    EitherWriter(Calls(fields), Content(fields), buf);
  }

  // Reading

  lemma DelimitedIs(number: int32, data: GoBytes)
    ensures Delimited(number, data) == ItemBytes(Item(number, Bytes(data)))
  {
  }

  /** The fields of a message as its readers meet them: a nested message, or a packed list,
      is the bytes of what is in it. */
  function Items(fields: seq<Field>): seq<Item>
    requires |Content(fields)| < TWO63
    decreases fields
  {
    if fields == [] then []
    else FieldItems(fields[0]) + Items(fields[1..])
  }

  function FieldItems(f: Field): seq<Item>
    requires |FieldBytes(f)| < TWO63
  {
    match f
    case Single(item) => [item]
    case Message(n, body) => if Content(body) == [] then [] else [Item(n, Bytes(Content(body)))]
    case Element(n, body) => [Item(n, Bytes(Content(body)))]
    case Null(n) => [Item(n, Bytes([]))]
    case Enums(n, codes) =>
      if codes == [] then [] else if |codes| == 1 then [Item(n, Int32(codes[0]))]
      else [Item(n, Bytes(Packed(Ints(codes))))]
    case Scalars(n, values) => [Item(n, Bytes(Packed(values)))]
  }

  lemma OneItem(item: Item)
    ensures ItemsBytes([item]) == ItemBytes(item) && (item.number >= 0 ==> Readable([item]))
  {
    hide ItemBytes;
    assert [item][1..] == [];
  }

  lemma FieldRead(f: Field)
    requires Numbered(f) && |FieldBytes(f)| < TWO63
    ensures ItemsBytes(FieldItems(f)) == FieldBytes(f) && Readable(FieldItems(f))
  {
    hide ItemsBytes, ItemBytes, Delimited, Content, Packed, Ints, AllNumbered;
    if FieldItems(f) == [] {
      NoItems();
    } else {
      OneItem(FieldItems(f)[0]);
      var v := FieldItems(f)[0].value;
      if v.Bytes? { DelimitedIs(FieldItems(f)[0].number, v.data); }
    }
  }

  lemma NoItems()
    ensures ItemsBytes([]) == []
  {
  }

  lemma {:induction false} BothItems(a: seq<Item>, b: seq<Item>)
    ensures ItemsBytes(a + b) == ItemsBytes(a) + ItemsBytes(b)
    ensures Readable(a) && Readable(b) ==> Readable(a + b)
  {
    hide ItemBytes;
    if a == [] {
      assert a + b == b;
    } else {
      assert (a + b)[1..] == a[1..] + b;
      BothItems(a[1..], b);
    }
  }

  lemma {:induction false} ItemsOf(fields: seq<Field>)
    requires AllNumbered(fields) && |Content(fields)| < TWO63
    ensures ItemsBytes(Items(fields)) == Content(fields) && Readable(Items(fields))
    decreases fields
  {
    hide ItemsBytes, FieldItems, FieldBytes, Readable, Numbered;
    if fields == [] {
      NoItems();
      ReadableNone();
    } else {
      FieldRead(fields[0]);
      ItemsOf(fields[1..]);
      BothItems(FieldItems(fields[0]), Items(fields[1..]));
    }
  }

  lemma ReadableNone()
    ensures Readable([])
  {
  }

  /** Both languages read a message of generated code back field by field; for a nested
      message they are handed the bytes of its body, of which the same holds. */
  lemma MessageRead(fields: seq<Field>)
    requires AllNumbered(fields) && Size(fields) < TWO63
    ensures |Content(fields)| < TWO63
    ensures var bytes, items := Content(fields), Items(fields);
            Walk(bytes, 0, KindsOf(items)) == Some(items) &&
            Readable(items) && PyWalk(bytes, 0, KindsOf(items)) == Some(PyItems(items))
  {
    hide *;
    SizeIs(fields);
    ItemsOf(fields);
    var items := Items(fields);
    AtStart(Content(fields));
    WalkBack(Content(fields), 0, items);
    PyWalkBack(Content(fields), 0, items);
  }

  lemma AtStart(bytes: seq<Byte>)
    ensures At(bytes, 0, bytes)
  {
  }
}
