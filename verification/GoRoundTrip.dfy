/** Reading back what the Go writer wrote: tags, typed values and offsets. */
module GoRoundTrip {
  import opened Bits
  import opened Options
  import opened Varint
  import opened Wire
  import opened ZigZag
  import opened GoReader
  import opened GoWriter

  /** Which typed read a field declaration calls for. */
  datatype Kind =
    | KInt32 | KInt64 | KUint32 | KUint64 | KSInt32 | KSInt64 | KBool
    | KFixed32 | KFixed64 | KSFixed32 | KSFixed64 | KBytes

  function KindOf(s: Scalar): Kind {
    match s
    case Int32(_) => KInt32
    case Int64(_) => KInt64
    case Uint32(_) => KUint32
    case Uint64(_) => KUint64
    case SInt32(_) => KSInt32
    case SInt64(_) => KSInt64
    case Bool(_) => KBool
    case Fixed32(_) => KFixed32
    case Fixed64(_) => KFixed64
    case SFixed32(_) => KSFixed32
    case SFixed64(_) => KSFixed64
    case Bytes(_) => KBytes
  }

  function KindsOf(items: seq<Item>): seq<Kind> {
    if items == [] then [] else [KindOf(items[0].value)] + KindsOf(items[1..])
  }

  function KindWire(k: Kind): nat {
    match k
    case KFixed32 => FIXED32
    case KSFixed32 => FIXED32
    case KFixed64 => FIXED64
    case KSFixed64 => FIXED64
    case KBytes => BYTES
    case _ => VARINT
  }

  /** The typed read at an offset; None where Go would panic. */
  function ReadAs(buf: seq<Byte>, off: nat, k: Kind): Option<Scalar> {
    var r := Reader(buf);
    match k
    case KInt32 => Some(Int32(r.ReadInt32(off)))
    case KInt64 => Some(Int64(r.ReadInt64(off)))
    case KUint32 => Some(Uint32(r.ReadUint32(off)))
    case KUint64 => Some(Uint64(r.ReadVarInt(off)))
    case KSInt32 => Some(SInt32(r.ReadSInt32(off)))
    case KSInt64 => Some(SInt64(ToInt64(r.ReadSInt64(off))))
    case KBool => Some(Bool(r.ReadBool(off)))
    case KFixed32 => if off + 4 <= |buf| then Some(Fixed32(ToUint32(r.ReadFixed32(off)))) else None
    case KFixed64 => if off + 8 <= |buf| then Some(Fixed64(ToUint64(r.ReadFixed64(off)))) else None
    case KSFixed32 => if off + 4 <= |buf| then Some(SFixed32(r.ReadSFixed32(off))) else None
    case KSFixed64 => if off + 8 <= |buf| then Some(SFixed64(r.ReadSFixed64(off))) else None
    case KBytes =>
      match GoRead(Tail(buf, off))
      case None => None
      case Some(s) =>
        if off + s.size + s.value <= |buf| < TWO63 then Some(Bytes(r.ReadBytes(off))) else None
  }

  /** Walking a message: read the tag, read the value as its kind says, skip to the
      next field. */
  function Walk(buf: seq<Byte>, off: nat, kinds: seq<Kind>): Option<seq<Item>>
    decreases |kinds|
  {
    if kinds == [] then
      if off == |buf| then Some([]) else None
    else
      match GoTag(buf, off)
      case None => None
      case Some(t) =>
        var v := ReadAs(buf, off + t.size, kinds[0]);
        var next := if off + t.size < TWO63 then GoSkip(buf, off + t.size, t.wire, 0) else Failed;
        if t.wire != KindWire(kinds[0]) || v.None? || !next.Done? || next.value < 0 then None
        else
          match Walk(buf, next.value, kinds[1..])
          case None => None
          case Some(rest) => Some([Item(ToInt32(t.number), v.value)] + rest)
  }

  // Fixed-width values

  function FromLittleEndian(b: seq<Byte>): nat {
    if b == [] then 0 else b[0] + 256 * FromLittleEndian(b[1..])
  }

  lemma {:induction false} LittleEndianInverse(x: nat, n: nat)
    requires x < Pow2(8 * n)
    ensures FromLittleEndian(LittleEndian(x, n)) == x
    decreases n
  {
    hide Pow2;
    if n > 0 {
      EightBits();
      Pow2Add(8, 8 * (n - 1));
      var p := Pow2(8 * (n - 1));
      DivLess(x, 256, p);
      LittleEndianInverse(x / 256, n - 1);
      assert LittleEndian(x, n)[1..] == LittleEndian(x / 256, n - 1);
    } else {
      NoBits();
    }
  }

  lemma NoBits()
    ensures Pow2(0) == 1
  {
  }

  lemma {:induction false} LittleEndianSnoc(b: seq<Byte>, y: Byte)
    ensures FromLittleEndian(b + [y]) == FromLittleEndian(b) + Pow2(8 * |b|) * y
    decreases |b|
  {
    hide Pow2;
    EightBits();
    NoBits();
    if b == [] {
      assert [y][1..] == [];
      assert [] + [y] == [y];
    } else {
      LittleEndianSnoc(b[1..], y);
      assert (b + [y])[1..] == b[1..] + [y];
      Pow2Add(8, 8 * (|b| - 1));
      var p := Pow2(8 * (|b| - 1));
      assert 256 * (p * y) == (256 * p) * y;
    }
  }

  /** One more byte or-ed in above the ones read so far. */
  lemma OrByte(a: nat, b: Byte, k: nat)
    requires a < Pow2(k) && k <= 56
    ensures Or(a, Shl64(b, k)) == a + Pow2(k) * b < Pow2(k + 8)
  {
    hide Pow2, Or;
    EightBits();
    WordSizes();
    Pow2Add(k, 8);
    Pow2Add(k + 8, 56 - k);
    var p := Pow2(k);
    MulUp(p * 256, Pow2(56 - k));
    MulBound(b, 255, p);
    OrShifted(a, b, k);
  }

  lemma MulUp(a: nat, b: nat)
    requires b >= 1
    ensures a <= a * b
  {
  }

  /** The first `n` bytes or-ed together, as the fixed-width reads write it out. */
  function OrBytes(b: seq<Byte>, n: nat): int
    requires 1 <= n <= |b|
  {
    if n == 1 then b[0] else Or(OrBytes(b, n - 1), Shl64(b[n - 1], 8 * (n - 1)))
  }

  lemma {:induction false} OrBytesIs(b: seq<Byte>, n: nat)
    requires 1 <= n <= |b| && n <= 8
    ensures OrBytes(b, n) == FromLittleEndian(b[..n])
    ensures 0 <= OrBytes(b, n) < Pow2(8 * n)
    decreases n
  {
    hide Pow2, Or, Shl64;
    EightBits();
    assert b[..n] == b[..n - 1] + [b[n - 1]];
    LittleEndianSnoc(b[..n - 1], b[n - 1]);
    if n > 1 {
      OrBytesIs(b, n - 1);
      OrByte(OrBytes(b, n - 1), b[n - 1], 8 * (n - 1));
    } else {
      NoBits();
    }
  }

  lemma ReadFixed32Is(buf: seq<Byte>, off: nat)
    requires off + 4 <= |buf|
    ensures Reader(buf).ReadFixed32(off) == FromLittleEndian(buf[off..off + 4])
  {
    hide Or, Shl64, FromLittleEndian;
    var b := buf[off..off + 4];
    OrBytesIs(b, 4);
    assert b[..4] == b;
    assert OrBytes(b, 2) == Or(b[0], Shl64(b[1], 8));
    assert OrBytes(b, 3) == Or(OrBytes(b, 2), Shl64(b[2], 16));
  }

  lemma ReadFixed64Is(buf: seq<Byte>, off: nat)
    requires off + 8 <= |buf|
    ensures Reader(buf).ReadFixed64(off) == FromLittleEndian(buf[off..off + 8])
  {
    hide Or, Shl64, FromLittleEndian;
    var b := buf[off..off + 8];
    OrBytesIs(b, 8);
    assert b[..8] == b;
    assert OrBytes(b, 2) == Or(b[0], Shl64(b[1], 8));
    assert OrBytes(b, 3) == Or(OrBytes(b, 2), Shl64(b[2], 16));
    assert OrBytes(b, 4) == Or(OrBytes(b, 3), Shl64(b[3], 24));
    assert OrBytes(b, 5) == Or(OrBytes(b, 4), Shl64(b[4], 32));
    assert OrBytes(b, 6) == Or(OrBytes(b, 5), Shl64(b[5], 40));
    assert OrBytes(b, 7) == Or(OrBytes(b, 6), Shl64(b[6], 48));
  }

  // One value

  lemma ReadVarIntOf(buf: seq<Byte>, off: nat, v: uint64)
    requires At(buf, off, Encode(v))
    ensures GoRead(Tail(buf, off)) == Some(Sized(v, |Encode(v)|))
    ensures ScanSize(Tail(buf, off)) == Some(|Encode(v)|)
    ensures Reader(buf).ReadVarInt(off) == v
  {
    hide At, IsVarint64, GoRead, PyRead, ScanSize, Value, Encode;
    EncodeFits(v);
    EncodeIsVarint(v);
    ReadAt(buf, off, Encode(v));
  }

  lemma Conversions()
    ensures forall i: int32 :: ToInt32(ToUint32(i)) == i && ToInt32(ToUint64(i)) == i && ToInt32(i) == i
    ensures forall l: int64 :: ToInt64(ToUint64(l)) == l && ToInt64(l) == l
    ensures forall u: uint32 :: ToUint32(u) == u
    ensures forall w: uint64 :: ToUint64(w) == w
  {
    forall i: int32
      ensures ToInt32(ToUint32(i)) == i && ToInt32(ToUint64(i)) == i && ToInt32(i) == i
    {
      Convert32(i);
    }
    forall l: int64
      ensures ToInt64(ToUint64(l)) == l && ToInt64(l) == l
    {
      Convert64(l);
    }
    hide ToInt32, ToInt64;
  }

  lemma FixedInverse(w: uint64)
    ensures FromLittleEndian(LittleEndian(w, 8)) == w
    ensures w < TWO32 ==> FromLittleEndian(LittleEndian(w, 4)) == w
  {
    WordSizes();
    LittleEndianInverse(w, 8);
    if w < TWO32 { LittleEndianInverse(w, 4); }
  }

  lemma ReadFixedOf(buf: seq<Byte>, off: nat, w: uint64)
    ensures At(buf, off, LittleEndian(w, 8)) ==> Reader(buf).ReadFixed64(off) == w
    ensures At(buf, off, LittleEndian(w, 4)) && w < TWO32 ==> Reader(buf).ReadFixed32(off) == w
  {
    FixedInverse(w);
    if At(buf, off, LittleEndian(w, 8)) { ReadFixed64Is(buf, off); }
    if At(buf, off, LittleEndian(w, 4)) { ReadFixed32Is(buf, off); }
  }

  lemma ReadVarIntScalar(buf: seq<Byte>, off: nat, s: Scalar)
    requires At(buf, off, ScalarBytes(s)) && WireOf(s) == VARINT
    ensures ReadAs(buf, off, KindOf(s)) == Some(s)
  {
    hide Encode, GoRead, GoZag, GoZig, Value, ToInt32, ToUint32, ToInt64, ToUint64,
         Reader.ReadVarInt, Reader.ReadFixed32, Reader.ReadFixed64, At, LittleEndian;
    Conversions();
    match s
    case Int32(i) => ReadVarIntOf(buf, off, ToUint64(i));
    case Int64(l) => ReadVarIntOf(buf, off, ToUint64(l));
    case Uint32(u) => ReadVarIntOf(buf, off, u);
    case Uint64(w) => ReadVarIntOf(buf, off, w);
    case SInt32(i) => GoZigIs(i); GoZigZag(i); ReadVarIntOf(buf, off, Zig(i));
    case SInt64(l) => GoZigIs(l); GoZigZag(l); ReadVarIntOf(buf, off, Zig(l));
    case Bool(b) =>
      OneByte(if b then 1 else 0);
      ReadVarIntOf(buf, off, if b then 1 else 0);
    case _ =>
  }

  lemma ReadFixedScalar(buf: seq<Byte>, off: nat, s: Scalar)
    requires At(buf, off, ScalarBytes(s)) && (WireOf(s) == FIXED32 || WireOf(s) == FIXED64)
    ensures ReadAs(buf, off, KindOf(s)) == Some(s)
  {
    hide Encode, GoRead, LittleEndian, ToInt32, ToUint32, ToInt64, ToUint64,
         Reader.ReadVarInt, Reader.ReadFixed32, Reader.ReadFixed64;
    Conversions();
    match s
    case Fixed32(u) => ReadFixedOf(buf, off, u);
    case Fixed64(w) => ReadFixedOf(buf, off, w);
    case SFixed32(i) => ReadFixedOf(buf, off, ToUint32(i));
    case SFixed64(l) => ReadFixedOf(buf, off, ToUint64(l));
    case _ =>
  }

  lemma SkipVarInt(buf: seq<Byte>, off: nat, v: uint64)
    requires At(buf, off, Encode(v)) && |buf| < TWO63
    ensures GoSkip(buf, off, VARINT, 0) == Done(off + |Encode(v)|)
  {
    AtInside(buf, off, Encode(v));
    hide At, Encode, GoRead, Tail, Reader.ReadVarInt, ScanSize, ToInt64;
    ReadVarIntOf(buf, off, v);
    Int64Length(off + |Encode(v)|, 0);
  }

  lemma SkipBytes(buf: seq<Byte>, off: nat, data: GoBytes)
    requires At(buf, off, Encode(|data|) + data) && |buf| < TWO63
    ensures GoSkip(buf, off, BYTES, 0) == Done(off + |Encode(|data|)| + |data|)
  {
    hide At, Tail, Encode, GoRead, GoSkip, Reader.ReadVarInt, ScanSize;
    DataAt(buf, off, Encode(|data|), data);
    ReadVarIntOf(buf, off, |data|);
    GoSkipBytes(buf, off, Sized(|data|, |Encode(|data|)|));
  }

  lemma GoSkipBytes(buf: seq<Byte>, off: nat, s: Sized)
    requires GoRead(Tail(buf, off)) == Some(s) && off + s.size + s.value < TWO63
    ensures GoSkip(buf, off, BYTES, 0) == Done(off + s.size + s.value)
  {
    hide Tail, GoRead, ToInt64, ScanSize;
    Int64Length(off + s.size, s.value);
  }

  lemma ReadBytesBack(buf: seq<Byte>, off: nat, data: GoBytes)
    requires At(buf, off, Encode(|data|) + data) && |buf| < TWO63
    ensures ReadAs(buf, off, KBytes) == Some(Bytes(data))
  {
    hide At, Encode, GoRead, ReadAs, Tail, Reader.ReadVarInt, ScanSize;
    DataAt(buf, off, Encode(|data|), data);
    ReadVarIntOf(buf, off, |data|);
    ReadAsBytes(buf, off, Sized(|data|, |Encode(|data|)|));
  }

  lemma ReadAsBytes(buf: seq<Byte>, off: nat, s: Sized)
    requires GoRead(Tail(buf, off)) == Some(s) && off + s.size + s.value <= |buf| < TWO63
    ensures ReadAs(buf, off, KBytes) == Some(Bytes(buf[off + s.size..off + s.size + s.value]))
  {
    hide GoRead, Tail;
  }

  lemma DataAt(buf: seq<Byte>, off: nat, len: seq<Byte>, data: seq<Byte>)
    requires At(buf, off, len + data)
    ensures At(buf, off, len)
    ensures off + |len| + |data| <= |buf| && buf[off + |len|..off + |len| + |data|] == data
  {
    AtParts(buf, off, len, data);
  }

  /** Every typed value is read back from the bytes its append wrote. */
  lemma ReadScalar(buf: seq<Byte>, off: nat, s: Scalar)
    requires At(buf, off, ScalarBytes(s)) && |buf| < TWO63
    ensures ReadAs(buf, off, KindOf(s)) == Some(s)
  {
    if WireOf(s) == VARINT {
      ReadVarIntScalar(buf, off, s);
    } else if s.Bytes? {
      ReadBytesBack(buf, off, s.data);
    } else {
      ReadFixedScalar(buf, off, s);
    }
  }

  lemma SkipScalar(buf: seq<Byte>, off: nat, s: Scalar)
    requires At(buf, off, ScalarBytes(s)) && |buf| < TWO63
    ensures GoSkip(buf, off, WireOf(s), 0) == Done(off + |ScalarBytes(s)|)
  {
    hide Encode, LittleEndian, GoRead, ScanSize;
    match s
    case Int32(i) => SkipVarInt(buf, off, ToUint64(i));
    case Int64(l) => SkipVarInt(buf, off, ToUint64(l));
    case Uint32(u) => SkipVarInt(buf, off, u);
    case Uint64(w) => SkipVarInt(buf, off, w);
    case SInt32(i) => SkipVarInt(buf, off, Zig(i));
    case SInt64(l) => SkipVarInt(buf, off, Zig(l));
    case Bool(b) =>
      OneByte(if b then 1 else 0);
      SkipVarInt(buf, off, if b then 1 else 0);
    case Bytes(data) => SkipBytes(buf, off, data);
    case _ =>
  }

  /** A field number is read back exactly when it is not negative: a negative one
      is written, and refused by the reader. */
  lemma ReadTag(buf: seq<Byte>, off: nat, number: int32, wire: nat)
    requires At(buf, off, TagBytes(number, wire)) && wire < 8
    ensures number >= 0 ==> GoTag(buf, off) == Some(Tag(number, wire, |TagBytes(number, wire)|))
    ensures number < 0 ==> GoTag(buf, off) == None
  {
    hide Encode, GoRead, ToUint64, Value;
    TagNumber(number);
    ReadVarIntOf(buf, off, ToUint64(8 * number) + wire);
  }

  lemma TagNumber(number: int32)
    ensures var n := ToUint64(8 * number);
            n % 8 == 0 && n + 7 < TWO64 && (if number >= 0 then n / 8 == number else n / 8 > MAX_NUMBER)
  {
    ShiftNumber(number);
  }

  // Lists

  /** Field numbers the reader takes. */
  predicate Readable(items: seq<Item>) {
    items == [] || (items[0].number >= 0 && Readable(items[1..]))
  }

  /** Walking the written bytes gives back the same numbers, kinds and values. */
  lemma {:induction false} WalkBack(buf: seq<Byte>, off: nat, items: seq<Item>)
    requires Readable(items)
    requires |buf| < TWO63 && At(buf, off, ItemsBytes(items)) && off + |ItemsBytes(items)| == |buf|
    ensures Walk(buf, off, KindsOf(items)) == Some(items)
    decreases |items|
  {
    hide At, ItemsBytes, ReadAs, GoTag, GoSkip, TagBytes, ScalarBytes, Walk, KindsOf;
    if items == [] {
      WalkEnd(buf);
    } else {
      ItemParts(buf, off, items);
      KindsHead(items);
      var item := items[0];
      var size := |TagBytes(item.number, WireOf(item.value))|;
      var next := off + size + |ScalarBytes(item.value)|;
      ReadTag(buf, off, item.number, WireOf(item.value));
      ReadScalar(buf, off + size, item.value);
      SkipScalar(buf, off + size, item.value);
      WalkBack(buf, next, items[1..]);
      WalkStep(buf, off, KindsOf(items), Tag(item.number, WireOf(item.value), size), item.value, next);
      assert items == [item] + items[1..];
    }
  }

  lemma WalkEnd(buf: seq<Byte>)
    ensures Walk(buf, |buf|, KindsOf([])) == Some([])
    ensures ItemsBytes([]) == []
  {
  }

  lemma KindsHead(items: seq<Item>)
    requires items != []
    ensures var ks := KindsOf(items);
            ks != [] && ks[0] == KindOf(items[0].value) && ks[1..] == KindsOf(items[1..])
    ensures KindWire(KindOf(items[0].value)) == WireOf(items[0].value)
  {
  }

  lemma WalkStep(buf: seq<Byte>, off: nat, kinds: seq<Kind>, t: Tag, v: Scalar, next: nat)
    requires kinds != [] && off + t.size < TWO63
    requires GoTag(buf, off) == Some(t) && ReadAs(buf, off + t.size, kinds[0]) == Some(v)
    requires t.wire == KindWire(kinds[0]) && GoSkip(buf, off + t.size, t.wire, 0) == Done(next)
    requires Walk(buf, next, kinds[1..]).Some?
    ensures Walk(buf, off, kinds) == Some([Item(ToInt32(t.number), v)] + Walk(buf, next, kinds[1..]).value)
  {
    hide GoTag, ReadAs, GoSkip;
  }

  lemma ItemParts(buf: seq<Byte>, off: nat, items: seq<Item>)
    requires items != [] && At(buf, off, ItemsBytes(items))
    ensures var tag, data := TagBytes(items[0].number, WireOf(items[0].value)), ScalarBytes(items[0].value);
            At(buf, off, tag) && At(buf, off + |tag|, data) &&
            At(buf, off + |tag| + |data|, ItemsBytes(items[1..])) &&
            |ItemsBytes(items)| == |tag| + |data| + |ItemsBytes(items[1..])| &&
            off + |tag| + |data| <= |buf|
  {
    hide TagBytes, ScalarBytes, At;
    var tag, data := TagBytes(items[0].number, WireOf(items[0].value)), ScalarBytes(items[0].value);
    var rest := ItemsBytes(items[1..]);
    assert ItemsBytes(items) == tag + (data + rest);
    AtThree(buf, off, tag, data, rest);
  }

  lemma AtThree(buf: seq<Byte>, off: nat, a: seq<Byte>, b: seq<Byte>, c: seq<Byte>)
    requires At(buf, off, a + (b + c))
    ensures At(buf, off, a) && At(buf, off + |a|, b) && At(buf, off + |a| + |b|, c)
    ensures off + |a| + |b| <= |buf|
  {
    AtInside(buf, off, a + (b + c));
    hide At;
    AtParts(buf, off, a, b + c);
    AtParts(buf, off + |a|, b, c);
  }

  /** The round trip of a message: marshalled into exactly the bytes its sizes add
      up to, and walked back to itself. */
  method MarshalAndWalk(items: seq<Item>) returns (b: seq<Byte>, back: Option<seq<Item>>)
    requires Readable(items)
    requires ContentSize(items) < TWO63
    ensures |b| == ContentSize(items)
    ensures back == Some(items)
  {
    b := Marshal(items);
    ContentSizeIs(items);
    WalkBack(b, 0, items);
    back := Walk(b, 0, KindsOf(items));
  }
}
