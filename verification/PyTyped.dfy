/** What Python reads as typed values (shared/gremlin_py/gremlin/reader.py), the tags its
    generator writes out (shared/gremlin_py/codegen/gen/fields/sizes.py), and the typed
    reads of Go beside them. */
module PyTyped {
  import opened Bits
  import opened Options
  import opened Varint
  import opened Wire
  import opened ZigZag
  import opened GoReader
  import opened GoWriter
  import opened GoRoundTrip

  datatype PyData = PyNumber(i: int) | PyFlag(b: bool) | PyBlob(data: seq<Byte>)

  function ToPy(s: Scalar): PyData {
    match s
    case Int32(i) => PyNumber(i)
    case Int64(l) => PyNumber(l)
    case Uint32(u) => PyNumber(u)
    case Uint64(w) => PyNumber(w)
    case SInt32(i) => PyNumber(i)
    case SInt64(l) => PyNumber(l)
    case Bool(b) => PyFlag(b)
    case Fixed32(u) => PyNumber(u)
    case Fixed64(w) => PyNumber(w)
    case SFixed32(i) => PyNumber(i)
    case SFixed64(l) => PyNumber(l)
    case Bytes(data) => PyBlob(data)
  }

  // Typed reads

  /** What a typed read makes of a varint. Packing more than 64 bits raises; the signed
      32-bit read keeps whatever the zigzag decoding gives. */
  function OfVarint(v: nat, k: Kind): Option<PyData> {
    match k
    case KInt32 => Some(PyNumber(ToInt32(And(v, TWO32 - 1))))
    case KInt64 => if v < TWO64 then Some(PyNumber(ToInt64(v))) else None
    case KUint32 => Some(PyNumber(And(v, TWO32 - 1)))
    case KUint64 => Some(PyNumber(v))
    case KSInt32 => Some(PyNumber(PyZag(v)))
    case KSInt64 => Some(PyNumber(PyZag(v)))
    case KBool => Some(PyFlag(v != 0))
    case _ => None
  }

  /** struct.unpack of the next `n` bytes, or None when they are not all there. */
  function Unpack(buf: seq<Byte>, off: nat, n: nat): (r: Option<nat>)
    ensures r.Some? <==> off + n <= |buf|
  {
    if off + n <= |buf| then Some(FromLittleEndian(buf[off..off + n])) else None
  }

  /** A memory view's slice is clamped to the buffer. */
  function Clamped(buf: seq<Byte>, from: nat, to: nat): seq<Byte>
    requires from <= to
  {
    if from >= |buf| then [] else if to > |buf| then buf[from..] else buf[from..to]
  }

  /** The typed read at an offset; None where Python raises. */
  function PyReadAs(buf: seq<Byte>, off: nat, k: Kind): Option<PyData> {
    if KindWire(k) == VARINT then
      match PyRead(Tail(buf, off))
      case None => None
      case Some(s) => OfVarint(s.value, k)
    else if k == KBytes then
      match PyRead(Tail(buf, off))
      case None => None
      case Some(s) => Some(PyBlob(Clamped(buf, off + s.size, off + s.size + s.value)))
    else
      match Unpack(buf, off, if KindWire(k) == FIXED32 then 4 else 8)
      case None => None
      case Some(v) => Some(PyNumber(if k == KSFixed32 then ToInt32(v) else if k == KSFixed64 then ToInt64(v) else v))
  }

  function Both(s: Option<Scalar>): Option<PyData> {
    if s.Some? then Some(ToPy(s.value)) else None
  }

  /** Zigzag decoding leaves the signed 32-bit integers. */
  predicate Oversized(v: nat) { !(-TWO31 <= PyZag(v) < TWO31) }

  lemma OfVarintIs(v: uint64, k: Kind)
    requires KindWire(k) == VARINT
    ensures OfVarint(v, k) == Some(
              match k
              case KInt32 => PyNumber(ToInt32(v))
              case KInt64 => PyNumber(ToInt64(v))
              case KUint32 => PyNumber(ToUint32(v))
              case KUint64 => PyNumber(v)
              case KBool => PyFlag(v != 0)
              case _ => PyNumber(PyZag(v)))
  {
    hide And, PyZag;
    Mask32(v);
    LowWord(v);
  }

  lemma Mask32(v: int)
    ensures And(v, TWO32 - 1) == ToUint32(v)
  {
    hide And, Pow2;
    WordSizes();
    AndMask(v, 32);
  }

  lemma LowWord(v: int)
    ensures ToInt32(ToUint32(v)) == ToInt32(v)
  {
    var q := v / TWO32;
    assert ToUint32(v) + TWO31 == v + TWO31 - q * TWO32;
    ModUnique(v + TWO31, TWO32, q + (ToUint32(v) + TWO31) / TWO32, (ToUint32(v) + TWO31) % TWO32);
  }

  lemma SameZag(v: uint64)
    ensures GoZag(v) == PyZag(v) && -TWO63 <= PyZag(v) < TWO63
  {
    hide GoZag, PyZag;
    GoZagIs(v);
    PyZagIs(v);
  }

  lemma SmallInt(i: int)
    ensures ToInt32(i) == i <==> -TWO31 <= i < TWO31
    ensures -TWO63 <= i < TWO63 ==> ToInt64(i) == i
  {
  }

  /** Where Go's decoder accepts the varint, the typed reads of Go and Python give the same
      value, but for a signed 32-bit one whose decoding needs more bits: Go cuts it off
      and Python does not. */
  lemma VarintReadsAgree(buf: seq<Byte>, off: nat, k: Kind)
    requires KindWire(k) == VARINT && GoRead(Tail(buf, off)).Some?
    ensures GoRead(Tail(buf, off)).value.value < TWO64
    ensures PyReadAs(buf, off, k) == Both(ReadAs(buf, off, k)) <==>
            !(k == KSInt32 && Oversized(GoRead(Tail(buf, off)).value.value))
  {
    hide GoRead, PyRead, OfVarint, GoZag, PyZag, ToInt32, ToInt64, ToUint32;
    ReadersDiffer(Tail(buf, off));
    var v := GoRead(Tail(buf, off)).value.value;
    OfVarintIs(v, k);
    SameZag(v);
    SmallInt(PyZag(v));
    Conversions();
  }

  /** Elsewhere Go reads a zero, and Python raises or finds a number of more than 64
      bits. */
  lemma VarintReadsApart(buf: seq<Byte>, off: nat, k: Kind)
    requires KindWire(k) == VARINT && GoRead(Tail(buf, off)).None?
    ensures ReadAs(buf, off, k).Some? &&
            Both(ReadAs(buf, off, k)) == Some(if k == KBool then PyFlag(false) else PyNumber(0))
    ensures PyReadAs(buf, off, k).Some? ==> PyRead(Tail(buf, off)).value.value >= TWO64
    ensures PyReadAs(buf, off, k) == Both(ReadAs(buf, off, k)) <==>
            (k == KInt32 || k == KUint32) && PyRead(Tail(buf, off)).Some? &&
            PyRead(Tail(buf, off)).value.value % TWO32 == 0
  {
    hide GoRead, PyRead, OfVarint, GoZag;
    ReadersDiffer(Tail(buf, off));
    GoZagIs(0);
    var r := PyRead(Tail(buf, off));
    if r.Some? { ZeroOfVarint(r.value.value, k); }
  }

  lemma ZeroOfVarint(v: nat, k: Kind)
    requires v >= TWO64 && KindWire(k) == VARINT
    ensures OfVarint(v, k) == Some(if k == KBool then PyFlag(false) else PyNumber(0)) <==>
            (k == KInt32 || k == KUint32) && v % TWO32 == 0
  {
    hide And, PyZag;
    Mask32(v);
    LowWord(v);
    PyZagIs(v);
    SmallInt(ToUint32(v));
    ZeroWord(v);
  }

  lemma ZeroWord(v: int)
    ensures ToInt32(v) == 0 <==> v % TWO32 == 0
    ensures ToUint32(v) == 0 <==> v % TWO32 == 0
  {
    var q, r := v / TWO32, v % TWO32;
    if r < TWO31 { ModUnique(v + TWO31, TWO32, q, r + TWO31); } else { ModUnique(v + TWO31, TWO32, q + 1, r - TWO31); }
  }

  /** Fixed-width reads agree on every buffer: Go panics where Python raises. */
  lemma FixedReadsAgree(buf: seq<Byte>, off: nat, k: Kind)
    requires KindWire(k) == FIXED32 || KindWire(k) == FIXED64
    ensures PyReadAs(buf, off, k) == Both(ReadAs(buf, off, k))
  {
    hide FromLittleEndian, Reader.ReadFixed32, Reader.ReadFixed64, ToInt32, ToInt64, ToUint32, ToUint64;
    var n := if KindWire(k) == FIXED32 then 4 else 8;
    if off + n <= |buf| {
      LittleBound(buf[off..off + n]);
      if n == 4 { ReadFixed32Is(buf, off); } else { ReadFixed64Is(buf, off); }
      InWord(FromLittleEndian(buf[off..off + n]));
    }
  }

  lemma InWord(v: int)
    ensures 0 <= v < TWO32 ==> ToUint32(v) == v
    ensures 0 <= v < TWO64 ==> ToUint64(v) == v
  {
  }

  lemma {:induction false} LittleBound(b: seq<Byte>)
    requires |b| <= 8
    ensures |b| <= 4 ==> FromLittleEndian(b) < TWO32
    ensures FromLittleEndian(b) < TWO64
    ensures |b| <= 3 ==> FromLittleEndian(b) < 0x100_0000
    ensures |b| <= 2 ==> FromLittleEndian(b) < 0x1_0000
    ensures |b| <= 1 ==> FromLittleEndian(b) < 0x100
    ensures |b| <= 7 ==> FromLittleEndian(b) < 0x100_0000_0000_0000
    ensures |b| <= 6 ==> FromLittleEndian(b) < 0x1_0000_0000_0000
    ensures |b| <= 5 ==> FromLittleEndian(b) < 0x100_0000_0000
  {
    if b == [] {
    } else {
      LittleBound(b[1..]);
    }
  }

  lemma AllThere(buf: seq<Byte>, from: nat, to: nat)
    requires from <= to <= |buf|
    ensures Clamped(buf, from, to) == buf[from..to]
  {
  }

  /** Length-delimited reads agree where the data is all there. */
  lemma BytesReadsAgree(buf: seq<Byte>, off: nat)
    requires |buf| < TWO63 && GoRead(Tail(buf, off)).Some?
    requires var s := GoRead(Tail(buf, off)).value; off + s.size + s.value <= |buf|
    ensures PyReadAs(buf, off, KBytes) == Both(ReadAs(buf, off, KBytes))
  {
    hide GoRead, PyRead, Tail, Clamped;
    ReadersDiffer(Tail(buf, off));
    var s := GoRead(Tail(buf, off)).value;
    AllThere(buf, off + s.size, off + s.size + s.value);
    assert Clamped(buf, off + s.size, off + s.size + s.value) == buf[off + s.size..off + s.size + s.value];
  }

  // Tags

  lemma Shifts(v: nat)
    ensures v / 0x80 / 128 == v / 0x4000 && v / 0x4000 / 128 == v / 0x20_0000
    ensures v / 0x20_0000 / 128 == v / 0x1000_0000
  {
  }

  lemma SevenLow(v: nat)
    ensures And(v, 0x7F) == v % 128 && LowSeven(v) == Or(And(v, 0x7F), 0x80)
  {
    assert Pow2(7) == 128;
    AndMask(v, 7);
  }

  /** `(field_number << 3) | wire_type`, as a 64-bit pattern when it is negative. */
  function TagValue(number: int32, wire: nat): int {
    var value := Or(number * 8, wire);
    if value < 0 then value + TWO64 else value
  }

  lemma TagValueIs(number: int32, wire: nat)
    requires wire < 8
    ensures TagValue(number, wire) == ToUint64(8 * number) + wire
    ensures TagValue(number, wire) >= 0 && Encode(TagValue(number, wire)) == TagBytes(number, wire)
  {
    hide Or, Encode;
    OrThree(number, wire);
    Pattern(8 * number, wire);
  }

  lemma Pattern(n: int, wire: nat)
    requires -TWO63 <= n < TWO63 && n % 8 == 0 && wire < 8
    ensures ToUint64(n) + wire == if n + wire < 0 then n + wire + TWO64 else n + wire
  {
  }

  lemma Ranges(v: nat)
    ensures v < 0x4000 <==> v / 0x80 < 128
    ensures v < 0x20_0000 <==> v / 0x4000 < 128
    ensures v < 0x1000_0000 <==> v / 0x20_0000 < 128
    ensures v < 0x8_0000_0000 <==> v / 0x1000_0000 < 128
  {
  }

  /** The unrolled cases. */
  lemma ByDigits(v: nat, a: nat, b: nat, c: nat, d: nat)
    requires a == v / 128 && b == a / 128 && c == b / 128 && d == c / 128
    ensures v < 128 ==> Encode(v) == [v]
    ensures v >= 128 && a < 128 ==> Encode(v) == [v % 128 + 128, a]
    ensures a >= 128 && b < 128 ==> Encode(v) == [v % 128 + 128, a % 128 + 128, b]
    ensures b >= 128 && c < 128 ==> Encode(v) == [v % 128 + 128, a % 128 + 128, b % 128 + 128, c]
    ensures c >= 128 && d < 128 ==>
              Encode(v) == [v % 128 + 128, a % 128 + 128, b % 128 + 128, c % 128 + 128, d]
  {
    hide Encode;
    FirstDigit(v);
    FirstDigit(a);
    FirstDigit(b);
    FirstDigit(c);
    FirstDigit(d);
  }

  lemma FirstDigit(v: nat)
    ensures Encode(v) == if v < 128 then [v] else [v % 128 + 128] + Encode(v / 128)
  {
  }

  /** generate_tag_bytes: five unrolled cases, then a loop; a negative number is taken as
      its 64-bit pattern. */
  method GenerateTagBytes(number: int32, wire: nat) returns (b: seq<Byte>)
    requires wire < 8
    ensures b == TagBytes(number, wire)
  {
    TagValueIs(number, wire);
    hide TagValue, Encode, LowSeven, TagBytes;
    var v := TagValue(number, wire);
    var v7, v14, v21, v28 := v / 0x80, v / 0x4000, v / 0x20_0000, v / 0x1000_0000;
    Shifts(v);
    Ranges(v);
    ByDigits(v, v7, v14, v21, v28);
    LowSevenIs(v);
    LowSevenIs(v7);
    LowSevenIs(v14);
    LowSevenIs(v21);
    if v < 0x80 { return [v]; }
    if v < 0x4000 { return [LowSeven(v), v7]; }
    if v < 0x20_0000 { return [LowSeven(v), LowSeven(v7), v14]; }
    if v < 0x1000_0000 { return [LowSeven(v), LowSeven(v7), LowSeven(v14), v21]; }
    if v < 0x8_0000_0000 { return [LowSeven(v), LowSeven(v7), LowSeven(v14), LowSeven(v21), v28]; }
    b := ManyDigits(v);
  }

  /** The loop for six bytes and more. */
  method ManyDigits(v: nat) returns (b: seq<Byte>)
    ensures b == Encode(v)
  {
    hide And, Or, LowSeven, Encode;
    b := [];
    var value := v;
    while true
      invariant b + Encode(value) == Encode(v)
      decreases value
    {
      FirstDigit(value);
      LowSevenIs(value);
      SevenLow(value);
      var byte := And(value, 0x7F);
      var rest := value / 128;
      if rest != 0 {
        b := b + [Or(byte, 0x80)];
        value := rest;
      } else {
        b := b + [byte];
        return;
      }
    }
  }
}
