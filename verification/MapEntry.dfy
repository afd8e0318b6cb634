/** What generated Python code writes for a map field
    (shared/gremlin_py/codegen/gen/fields/map.py). */
module MapEntry {
  import opened Bits
  import opened Options
  import opened Varint
  import opened Wire
  import opened ZigZag
  import opened GoWriter
  import opened GoRoundTrip
  import opened PyTyped
  import opened Interop
  import opened Generated
  import P = PySizes
  import W = PyWriter

  /** The value of a map entry. */
  datatype MapValue = Plain(value: Scalar) | Nested(body: seq<Generated.Field>)

  function ValuePart(v: MapValue): seq<Byte> {
    match v
    case Plain(value) => ItemBytes(Item(2, value))
    case Nested(body) => Delimited(2, Content(body))
  }

  /** A map entry is a message with the key in field 1 and the value in field 2. */
  function EntryBytes(key: Scalar, v: MapValue): seq<Byte> { ItemBytes(Item(1, key)) + ValuePart(v) }

  /** A length-delimited field that announces `size` bytes. */
  function Announcing(number: int32, size: nat, data: seq<Byte>): seq<Byte> {
    TagBytes(number, BYTES) + (Encode(size) + data)
  }

  /** An entry of a map field of this number, with keys and values of number types or
      messages. */
  predicate Entry(number: int32, key: Scalar, v: MapValue) {
    number > 0 && !key.Bytes? && match v case Plain(value) => !value.Bytes? case Nested(body) => AllNumbered(body)
  }

  /** The size that is announced for an entry: for the tags of the key and of the value it
      counts the tag of the map field itself. */
  function EntrySize(number: int32, key: Scalar, v: MapValue): nat
    requires Entry(number, key, v)
  {
    var tags := TagSize(number, VARINT) + TagSize(number, VARINT);
    match v
    case Plain(value) => ValueSize(key) + ValueSize(value) + tags
    case Nested(body) => ValueSize(key) + Size(body) + tags + P.SizeVarInt(Size(body))
  }

  function EntryCalls(number: int32, key: Scalar, v: MapValue): seq<W.Call>
    requires Entry(number, key, v)
  {
    [W.BytesTag(number, EntrySize(number, key, v)), CallOf(Item(1, key))] +
    match v
    case Plain(value) => [CallOf(Item(2, value))]
    case Nested(body) => [W.BytesTag(2, Size(body))] + Calls(body)
  }

  lemma SmallTag(number: int32, wire: nat)
    requires number >= 0 && wire < 8
    ensures TagSize(number, wire) >= 1 && (TagSize(number, wire) == 1 <==> number <= 15)
  {
    hide TagSize, Or;
    TagSizeIs(number, wire);
    OneOrMore(Or(number * 8, wire));
  }

  lemma OneOrMore(v: nat)
    ensures |Encode(v)| >= 1 && (|Encode(v)| == 1 <==> v < 128)
  {
  }

  lemma ValueItem(number: int32, value: Scalar)
    requires 1 <= number <= 2
    ensures |ItemBytes(Item(number, value))| == 1 + ValueSize(value)
  {
    hide TagSize, ValueSize, ItemBytes;
    ItemSize(Item(number, value));
    SmallTag(number, WireOf(value));
  }

  lemma NestedPart(body: seq<Generated.Field>)
    requires AllNumbered(body)
    ensures |Delimited(2, Content(body))| == 1 + P.SizeVarInt(Size(body)) + Size(body)
    ensures Writes([W.BytesTag(2, Size(body))] + Calls(body), Delimited(2, Content(body)))
  {
    hide TagSize, P.SizeVarInt, Delimited, Content, Size, Calls, Writes, AllNumbered;
    SizeIs(body);
    DelimitedSize(2, Content(body));
    SmallTag(2, BYTES);
    ContentWritten(body);
    DelimitedWritten(2, Calls(body), Content(body));
  }

  /** An entry announces two bytes more than it has for every byte by which the tag of the
      map field is longer than one. */
  lemma EntryAnnounces(number: int32, key: Scalar, v: MapValue)
    requires Entry(number, key, v)
    ensures EntrySize(number, key, v) == |EntryBytes(key, v)| + 2 * (TagSize(number, VARINT) - 1)
  {
    hide TagSize, ValueSize, ItemBytes, P.SizeVarInt, Delimited, Content, Size, AllNumbered;
    ValueItem(1, key);
    match v
    case Plain(value) => ValueItem(2, value);
    case Nested(body) => NestedPart(body);
  }

  lemma EntryWritten(number: int32, key: Scalar, v: MapValue)
    requires Entry(number, key, v)
    ensures Writes(EntryCalls(number, key, v), Announcing(number, EntrySize(number, key, v), EntryBytes(key, v)))
  {
    hide TagBytes, Encode, EntrySize, ItemBytes, Writes, CallOf, Delimited, Content, Size, Calls, AllNumbered;
    var size := EntrySize(number, key, v);
    var head, first := TagBytes(number, BYTES) + Encode(size), ItemBytes(Item(1, key));
    WritesLength(number, size);
    WritesItem(Item(1, key));
    WritesBoth([W.BytesTag(number, size)], head, [CallOf(Item(1, key))], first);
    var calls := [W.BytesTag(number, size), CallOf(Item(1, key))];
    assert calls == [W.BytesTag(number, size)] + [CallOf(Item(1, key))];
    match v
    case Plain(value) =>
      WritesItem(Item(2, value));
      WritesBoth(calls, head + first, [CallOf(Item(2, value))], ValuePart(v));
      assert head + first + ValuePart(v) == Announcing(number, size, EntryBytes(key, v));
    case Nested(body) =>
      NestedPart(body);
      WritesBoth(calls, head + first, [W.BytesTag(2, Size(body))] + Calls(body), ValuePart(v));
      assert head + first + ValuePart(v) == Announcing(number, size, EntryBytes(key, v));
  }

  lemma WritesOnce(calls: seq<W.Call>, a: seq<Byte>, b: seq<Byte>)
    requires Writes(calls, a) && Writes(calls, b)
    ensures a == b
  {
    hide Writes, W.EmitCalls;
    Written(calls, a, W.Stream([], true));
    Written(calls, b, W.Stream([], true));
    assert [] + a == a && [] + b == b;
  }

  lemma AnnouncedApart(number: int32, x: nat, y: nat, data: seq<Byte>)
    requires Announcing(number, x, data) == Announcing(number, y, data)
    ensures x == y
  {
    hide TagBytes, Encode, Value, IsVarint;
    var tag := TagBytes(number, BYTES);
    assert Announcing(number, x, data)[|tag|..] == Encode(x) + data;
    assert Announcing(number, y, data)[|tag|..] == Encode(y) + data;
    assert (Encode(x) + data)[..|Encode(x)|] == Encode(x);
    assert (Encode(y) + data)[..|Encode(y)|] == Encode(y);
    EncodeIsVarint(x);
    EncodeIsVarint(y);
  }

  /** A map entry is written as a field that holds the entry exactly when the number of the
      map field is at most 15. */
  lemma EntryExactly(number: int32, key: Scalar, v: MapValue)
    requires Entry(number, key, v)
    ensures Writes(EntryCalls(number, key, v), Delimited(number, EntryBytes(key, v))) <==> number <= 15
  {
    SmallTag(number, VARINT);
    hide *;
    EntryAnnounces(number, key, v);
    EntryWritten(number, key, v);
    var size, data := EntrySize(number, key, v), EntryBytes(key, v);
    DelimitedAnnounces(number, data);
    if number > 15 && Writes(EntryCalls(number, key, v), Delimited(number, data)) {
      WritesOnce(EntryCalls(number, key, v), Announcing(number, size, data), Delimited(number, data));
      AnnouncedApart(number, size, |data|, data);
    }
  }

  lemma DelimitedAnnounces(number: int32, data: seq<Byte>)
    ensures Delimited(number, data) == Announcing(number, |data|, data)
  {
  }

  /** Beyond, a reader takes the first bytes of what follows the entry for a part of it. */
  lemma EntryOverruns(number: int32, key: Scalar, v: MapValue, rest: seq<Byte>)
    requires Entry(number, key, v) && number > 15
    ensures var extra := 2 * (TagSize(number, VARINT) - 1);
            extra >= 2 &&
            (|rest| >= extra ==>
               Announcing(number, EntrySize(number, key, v), EntryBytes(key, v)) + rest ==
               Delimited(number, EntryBytes(key, v) + rest[..extra]) + rest[extra..])
  {
    hide TagBytes, Encode, EntrySize, EntryBytes, Entry, TagSize;
    EntryAnnounces(number, key, v);
    SmallTag(number, VARINT);
    var extra := 2 * (TagSize(number, VARINT) - 1);
    if |rest| >= extra {
      assert rest == rest[..extra] + rest[extra..];
    }
  }

  /** The entry itself is read back in both languages as its key and its value. */
  lemma EntryRead(key: Scalar, v: MapValue)
    requires Entry(1, key, v) && |EntryBytes(key, v)| < TWO63
    ensures v.Nested? ==> |Content(v.body)| < TWO63
    ensures var bytes := EntryBytes(key, v);
            var items := [Item(1, key), Item(2, if v.Plain? then v.value else Bytes(Content(v.body)))];
            Walk(bytes, 0, KindsOf(items)) == Some(items) && Readable(items) &&
            PyWalk(bytes, 0, KindsOf(items)) == Some(PyItems(items))
  {
    hide ItemBytes, Walk, PyWalk, KindsOf, PyItems, Content, AllNumbered, TagBytes, Encode;
    assert v.Nested? ==> |Content(v.body)| <= |EntryBytes(key, v)|;
    var items := [Item(1, key), Item(2, if v.Plain? then v.value else Bytes(Content(v.body)))];
    if v.Nested? { DelimitedIs(2, Content(v.body)); }
    TwoItems(items);
    hide ItemsBytes, EntryBytes;
    AtStart(EntryBytes(key, v));
    WalkBack(EntryBytes(key, v), 0, items);
    PyWalkBack(EntryBytes(key, v), 0, items);
  }

  lemma TwoItems(items: seq<Item>)
    requires |items| == 2 && items[0].number >= 0 && items[1].number >= 0
    ensures ItemsBytes(items) == ItemBytes(items[0]) + ItemBytes(items[1]) && Readable(items)
  {
    hide ItemBytes, ItemsBytes;
    OneItem(items[0]);
    OneItem(items[1]);
    assert items == [items[0]] + [items[1]];
    BothItems([items[0]], [items[1]]);
  }
}
