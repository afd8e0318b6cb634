/** The Go wire writer (shared/gremlin_go/writer.go): the appends into a buffer
    of fixed capacity, and the Size functions that compute the capacity of a
    message before it is written. */
module GoWriter {
  import opened Bits
  import opened Options
  import opened Varint
  import opened Wire
  import opened ZigZag
  import opened GoReader

  // Values and their wire form

  /** The typed values of the append methods. A string is appended as its bytes
      and a float as its bit pattern. */
  datatype Scalar =
    | Int32(i: int32) | Int64(l: int64) | Uint32(u: uint32) | Uint64(w: uint64)
    | SInt32(i: int32) | SInt64(l: int64) | Bool(b: bool)
    | Fixed32(u: uint32) | Fixed64(w: uint64) | SFixed32(i: int32) | SFixed64(l: int64)
    | Bytes(data: GoBytes)

  /** A Go slice: its length is a non-negative int. */
  type GoBytes = s: seq<Byte> | |s| < TWO63 witness []

  datatype Item = Item(number: int32, value: Scalar)

  function WireOf(s: Scalar): nat {
    match s
    case Fixed32(_) => FIXED32
    case SFixed32(_) => FIXED32
    case Fixed64(_) => FIXED64
    case SFixed64(_) => FIXED64
    case Bytes(_) => BYTES
    case _ => VARINT
  }

  /** What follows the tag, in terms of the reference encodings. */
  function ScalarBytes(s: Scalar): seq<Byte> {
    match s
    case Int32(i) => Encode(ToUint64(i))
    case Int64(l) => Encode(ToUint64(l))
    case Uint32(u) => Encode(u)
    case Uint64(w) => Encode(w)
    case SInt32(i) => Encode(Zig(i))
    case SInt64(l) => Encode(Zig(l))
    case Bool(b) => [if b then 1 else 0]
    case Fixed32(u) => LittleEndian(u, 4)
    case Fixed64(w) => LittleEndian(w, 8)
    case SFixed32(i) => LittleEndian(ToUint32(i), 4)
    case SFixed64(l) => LittleEndian(ToUint64(l), 8)
    case Bytes(data) => Encode(|data|) + data
  }

  function TagBytes(number: int32, wire: nat): seq<Byte> {
    Encode(ToUint64(8 * number) + wire % 8)
  }

  function ItemBytes(item: Item): seq<Byte> {
    TagBytes(item.number, WireOf(item.value)) + ScalarBytes(item.value)
  }

  function ItemsBytes(items: seq<Item>): seq<Byte> {
    if items == [] then [] else ItemBytes(items[0]) + ItemsBytes(items[1..])
  }

  // The pure functions of the source

  function VarIntToBytes(v: uint64): seq<Byte> {
    if v < Pow2(7) then
      [ToByte(Shr64(v, 0))]
    else if v < Pow2(14) then
      [Low(v, 0), ToByte(Shr64(v, 7))]
    else if v < Pow2(21) then
      [Low(v, 0), Low(v, 7), ToByte(Shr64(v, 14))]
    else if v < Pow2(28) then
      [Low(v, 0), Low(v, 7), Low(v, 14), ToByte(Shr64(v, 21))]
    else if v < Pow2(35) then
      [Low(v, 0), Low(v, 7), Low(v, 14), Low(v, 21), ToByte(Shr64(v, 28))]
    else if v < Pow2(42) then
      [Low(v, 0), Low(v, 7), Low(v, 14), Low(v, 21), Low(v, 28),
       ToByte(Shr64(v, 35))]
    else if v < Pow2(49) then
      [Low(v, 0), Low(v, 7), Low(v, 14), Low(v, 21), Low(v, 28),
       Low(v, 35), ToByte(Shr64(v, 42))]
    else if v < Pow2(56) then
      [Low(v, 0), Low(v, 7), Low(v, 14), Low(v, 21), Low(v, 28),
       Low(v, 35), Low(v, 42), ToByte(Shr64(v, 49))]
    else if v < Pow2(63) then
      [Low(v, 0), Low(v, 7), Low(v, 14), Low(v, 21), Low(v, 28),
       Low(v, 35), Low(v, 42), Low(v, 49), ToByte(Shr64(v, 56))]
    else
      [Low(v, 0), Low(v, 7), Low(v, 14), Low(v, 21), Low(v, 28),
       Low(v, 35), Low(v, 42), Low(v, 49), Low(v, 56), 1]
  }

  function SizeVarInt(v: uint64): nat {
    if v < Pow2(7) then 1
    else if v < Pow2(14) then 2
    else if v < Pow2(21) then 3
    else if v < Pow2(28) then 4
    else if v < Pow2(35) then 5
    else if v < Pow2(42) then 6
    else if v < Pow2(49) then 7
    else if v < Pow2(56) then 8
    else if v < Pow2(63) then 9
    else 10
  }

  /** The ten thresholds are the lengths of the reference encoding. */
  lemma SizeVarIntIs(v: uint64)
    ensures SizeVarInt(v) == |Encode(v)|
  {
    hide Encode, Pow2;
    Length(v, 1); Length(v, 2); Length(v, 3); Length(v, 4); Length(v, 5);
    Length(v, 6); Length(v, 7); Length(v, 8); Length(v, 9); Length(v, 10);
    TenGroups();
  }

  lemma Length(v: uint64, k: nat)
    requires k >= 1
    ensures |Encode(v)| <= k <==> v < Pow2(7 * k)
  {
    SevenBits(k);
    EncodeLength(v, k);
  }

  lemma TenGroups()
    ensures Pow2(63) == TWO63 && Pow2(70) == 128 * TWO63
  {
    WordSizes();
    Pow2Add(7, 63);
    assert Pow2(7) == 128;
  }

  /** The ten cases emit the digits of the reference encoding. */
  lemma VarIntToBytesIs(v: uint64)
    ensures VarIntToBytes(v) == Encode(v)
  {
    SizeVarIntIs(v);
    TopDigit(v);
    hide Encode, Pow2, Low, Shr64, ToByte;
    SameDigits(v, VarIntToBytes(v));
  }

  lemma TopDigit(v: uint64)
    ensures v >= Pow2(63) ==> ToByte(Shr64(v, 63)) == 1
  {
    WordSizes();
  }

  lemma SameDigits(v: uint64, b: seq<Byte>)
    requires |b| == |Encode(v)|
    requires forall k | 0 <= k < |b| - 1 :: b[k] == Low(v, 7 * k)
    requires b[|b| - 1] == ToByte(Shr64(v, 7 * (|b| - 1)))
    ensures b == Encode(v)
  {
    hide Low, Shr64;
    forall k | 0 <= k < |b|
      ensures b[k] == Encode(v)[k]
    {
      EncodeFrom(v, k);
      Group(v, k);
      Length(v, k + 1);
      assert Encode(v)[k] == Encode(v)[k..][0];
    }
  }

  lemma {:induction false} EncodeFrom(v: uint64, k: nat)
    requires k < |Encode(v)|
    ensures Encode(v)[k..] == Encode(Shr64(v, 7 * k))
    decreases k
  {
    hide Low, Shr64;
    if k == 0 {
      NoShift(v);
    } else {
      EncodeFrom(v, k - 1);
      Group(v, k - 1);
      Length(v, k);
      assert Encode(v)[k..] == Encode(v)[k - 1..][1..];
    }
  }

  lemma NoShift(v: uint64)
    ensures Shr64(v, 0) == v
  {
  }

  /** `uint64(tag)<<3 | uint64(protoType&7)` */
  function TagVarInt(number: int32, wire: nat): int {
    Or(Shl64(ToUint64(number), 3), And(wire, 7))
  }

  lemma TagVarIntIs(number: int32, wire: nat)
    ensures TagVarInt(number, wire) == ToUint64(8 * number) + wire % 8
    ensures 0 <= TagVarInt(number, wire) < TWO64
  {
    hide Or, And, ToUint64, Shl64;
    LowThree(wire);
    ShiftNumber(number);
    OrThree(ToUint64(8 * number) / 8, wire % 8);
  }

  lemma LowThree(v: int)
    ensures And(v, 7) == v % 8
  {
    assert Pow2(3) == 8;
    AndMask(v, 3);
  }

  lemma OrThree(n: int, r: nat)
    requires r < 8
    ensures Or(n * 8, r) == n * 8 + r
  {
    assert Pow2(3) == 8;
    OrShifted(r, n, 3);
  }

  lemma ShiftNumber(number: int32)
    ensures var n := ToUint64(8 * number);
            Shl64(ToUint64(number), 3) == n == (n / 8) * 8 && n + 7 < TWO64
  {
    assert Pow2(3) == 8;
    if number >= 0 {
      assert ToUint64(8 * number) == 8 * number;
    } else {
      assert ToUint64(number) == number + TWO64;
      assert ToUint64(8 * number) == 8 * number + TWO64;
    }
  }

  /** The size of a tag does not depend on the wire type, so SizeTag uses 0. */
  function SizeTag(number: int32): nat {
    TagVarIntIs(number, 0);
    SizeVarInt(TagVarInt(number, 0))
  }

  lemma SizeTagIs(number: int32, wire: nat)
    ensures SizeTag(number) == |TagBytes(number, wire)|
  {
    TagVarIntIs(number, 0);
    SizeVarIntIs(TagVarInt(number, 0));
    ShiftNumber(number);
    hide TagVarInt, SizeVarInt, Shl64, ToUint64, Encode;
    SameLength(ToUint64(8 * number) / 8, wire % 8);
  }

  lemma SameLength(n: nat, r: nat)
    requires r < 8
    ensures |Encode(8 * n + r)| == |Encode(8 * n)|
  {
    var q, m := (8 * n) / 128, (8 * n) % 128;
    assert m % 8 == 0 && m <= 120;
    assert (8 * n + r) / 128 == q;
  }

  /** SizeInt32 to SizeSFixed64. For bytes it is the length prefix and the data,
      as a generated message adds them up. */
  function SizeScalar(s: Scalar): nat {
    match s
    case Int32(i) => SizeVarInt(ToUint64(i))
    case Int64(l) => SizeVarInt(ToUint64(l))
    case Uint32(u) => SizeVarInt(ToUint64(u))
    case Uint64(w) => SizeVarInt(w)
    case SInt32(i) => GoZigIs(i); SizeVarInt(ToUint64(GoZig(i)))
    case SInt64(l) => GoZigIs(l); SizeVarInt(ToUint64(GoZig(l)))
    case Bool(_) => 1
    case Fixed32(_) => 4
    case Fixed64(_) => 8
    case SFixed32(_) => 4
    case SFixed64(_) => 8
    case Bytes(data) => SizeVarInt(ToUint64(|data|)) + |data|
  }

  lemma SizeScalarIs(s: Scalar)
    ensures SizeScalar(s) == |ScalarBytes(s)|
  {
    hide SizeVarInt, Encode, GoZig, LittleEndian;
    match s
    case Int32(i) => SizeVarIntIs(ToUint64(i));
    case Int64(l) => SizeVarIntIs(ToUint64(l));
    case Uint32(u) => SizeVarIntIs(u);
    case Uint64(w) => SizeVarIntIs(w);
    case SInt32(i) => GoZigIs(i); SizeVarIntIs(ToUint64(GoZig(i)));
    case SInt64(l) => GoZigIs(l); SizeVarIntIs(ToUint64(GoZig(l)));
    case Bytes(data) => SizeVarIntIs(ToUint64(|data|));
    case _ =>
  }

  // The buffer

  /** `buf []byte`: `data` is the backing array, whose length is the capacity, and
      `len` the length of the slice. A reslice past the capacity panics in Go: the
      append then returns false. */
  class Writer {
    var data: array<Byte>
    var len: nat

    ghost predicate Valid()
      reads this
    {
      len <= data.Length
    }

    ghost function Contents(): seq<Byte>
      reads this, data
      requires Valid()
    {
      data[..len]
    }

    constructor (size: nat)
      ensures Valid() && fresh(data) && data.Length == size && Contents() == []
    {
      data := new Byte[size](_ => 0);
      len := 0;
    }

    /** An append succeeds exactly when its bytes fit, and then adds those bytes and
        changes nothing else. One that fails has kept what was written before. */
    twostate predicate Appended(bytes: seq<Byte>, ok: bool)
      reads this, data
    {
      old(Valid()) && Valid() && data == old(data) &&
      ok == (old(len) + |bytes| <= data.Length) &&
      if ok then Contents() == old(Contents()) + bytes else old(Contents()) <= Contents()
    }

    method WriteBytes(bytes: seq<Byte>) returns (ok: bool)
      requires Valid()
      modifies this`len, data
      ensures Appended(bytes, ok)
    {
      var m := len;
      if m + |bytes| > data.Length { return false; }
      len := m + |bytes|;
      forall i | 0 <= i < |bytes| { data[m + i] := bytes[i]; }
      return true;
    }

    method AppendVarInt(v: uint64) returns (ok: bool)
      requires Valid()
      modifies this`len, data
      ensures Appended(Encode(v), ok)
    {
      VarIntToBytesIs(v);
      hide Encode, Pow2, Low, Shr64, ToByte;
      if v < Pow2(7) {
        ok := WriteBytes([ToByte(Shr64(v, 0))]);
      } else if v < Pow2(14) {
        ok := WriteBytes([Low(v, 0), ToByte(Shr64(v, 7))]);
      } else if v < Pow2(21) {
        ok := WriteBytes([Low(v, 0), Low(v, 7), ToByte(Shr64(v, 14))]);
      } else if v < Pow2(28) {
        ok := WriteBytes([Low(v, 0), Low(v, 7), Low(v, 14), ToByte(Shr64(v, 21))]);
      } else if v < Pow2(35) {
        ok := WriteBytes([Low(v, 0), Low(v, 7), Low(v, 14), Low(v, 21), ToByte(Shr64(v, 28))]);
      } else if v < Pow2(42) {
        ok := WriteBytes([Low(v, 0), Low(v, 7), Low(v, 14), Low(v, 21), Low(v, 28),
         ToByte(Shr64(v, 35))]);
      } else if v < Pow2(49) {
        ok := WriteBytes([Low(v, 0), Low(v, 7), Low(v, 14), Low(v, 21), Low(v, 28),
         Low(v, 35), ToByte(Shr64(v, 42))]);
      } else if v < Pow2(56) {
        ok := WriteBytes([Low(v, 0), Low(v, 7), Low(v, 14), Low(v, 21), Low(v, 28),
         Low(v, 35), Low(v, 42), ToByte(Shr64(v, 49))]);
      } else if v < Pow2(63) {
        ok := WriteBytes([Low(v, 0), Low(v, 7), Low(v, 14), Low(v, 21), Low(v, 28),
         Low(v, 35), Low(v, 42), Low(v, 49), ToByte(Shr64(v, 56))]);
      } else {
        ok := WriteBytes([Low(v, 0), Low(v, 7), Low(v, 14), Low(v, 21), Low(v, 28),
         Low(v, 35), Low(v, 42), Low(v, 49), Low(v, 56), 1]);
      }
    }

    method AppendSignedVarInt(v: int64) returns (ok: bool)
      requires Valid()
      modifies this`len, data
      ensures Appended(Encode(Zig(v)), ok)
    {
      GoZigIs(v);
      ok := AppendVarInt(GoZig(v));
    }

    method AppendTag(number: int32, wire: nat) returns (ok: bool)
      requires Valid()
      modifies this`len, data
      ensures Appended(TagBytes(number, wire), ok)
    {
      TagVarIntIs(number, wire);
      ok := AppendVarInt(TagVarInt(number, wire));
    }

    method AppendFixed32WithoutTag(v: uint32) returns (ok: bool)
      requires Valid()
      modifies this`len, data
      ensures Appended(LittleEndian(v, 4), ok)
    {
      hide ToByte, Shr64, LittleEndian;
      var bytes := [ToByte(Shr64(v, 0)), ToByte(Shr64(v, 8)), ToByte(Shr64(v, 16)), ToByte(Shr64(v, 24))];
      ShiftedBytes(v, bytes);
      ok := WriteBytes(bytes);
    }

    method AppendFixed64WithoutTag(v: uint64) returns (ok: bool)
      requires Valid()
      modifies this`len, data
      ensures Appended(LittleEndian(v, 8), ok)
    {
      hide ToByte, Shr64, LittleEndian;
      var bytes := [ToByte(Shr64(v, 0)), ToByte(Shr64(v, 8)), ToByte(Shr64(v, 16)), ToByte(Shr64(v, 24)),
                    ToByte(Shr64(v, 32)), ToByte(Shr64(v, 40)), ToByte(Shr64(v, 48)), ToByte(Shr64(v, 56))];
      ShiftedBytes(v, bytes);
      ok := WriteBytes(bytes);
    }

    /** AppendInt32 to AppendSFixed64, AppendBytes and AppendString: the tag, then
        the value. */
    method Append(item: Item) returns (ok: bool)
      requires Valid()
      modifies this`len, data
      ensures Appended(ItemBytes(item), ok)
    {
      hide TagBytes, ScalarBytes, WireOf;
      ok := AppendTag(item.number, WireOf(item.value));
      if !ok { return; }
      ok := AppendWithoutTag(item.value);
    }

    method AppendWithoutTag(s: Scalar) returns (ok: bool)
      requires Valid()
      modifies this`len, data
      ensures Appended(ScalarBytes(s), ok)
    {
      hide Encode, LittleEndian, Zig;
      match s
      case Int32(i) => ok := AppendVarInt(ToUint64(i));
      case Int64(l) => ok := AppendVarInt(ToUint64(l));
      case Uint32(u) => ok := AppendVarInt(ToUint64(u));
      case Uint64(w) => ok := AppendVarInt(w);
      case SInt32(i) => ok := AppendSignedVarInt(i);
      case SInt64(l) => ok := AppendSignedVarInt(l);
      case Bool(b) =>
        OneByte(if b then 1 else 0);
        if b { ok := AppendVarInt(1); } else { ok := AppendVarInt(0); }
      case Fixed32(u) => ok := AppendFixed32WithoutTag(u);
      case Fixed64(w) => ok := AppendFixed64WithoutTag(w);
      case SFixed32(i) => ok := AppendFixed32WithoutTag(ToUint32(i));
      case SFixed64(l) => ok := AppendFixed64WithoutTag(ToUint64(l));
      case Bytes(bytes) =>
        ok := AppendVarInt(|bytes|);
        if !ok { return; }
        ok := WriteBytes(bytes);
    }

    /** MarshalTo of a message whose set fields are `items`. */
    method AppendAll(items: seq<Item>) returns (ok: bool)
      requires Valid()
      modifies this`len, data
      ensures Appended(ItemsBytes(items), ok)
    {
      hide ItemBytes;
      for k := 0 to |items|
        invariant Appended(ItemsBytes(items[..k]), true)
      {
        ItemsSplit(items, k);
        ok := Append(items[k]);
        if !ok { return; }
      }
      assert items[..|items|] == items;
      return true;
    }
  }

  lemma OneByte(v: Byte)
    requires v < 128
    ensures Encode(v) == [v]
  {
  }

  /** Successive right shifts by eight find the bytes in little-endian order. */
  lemma ShiftedBytes(v: uint64, b: seq<Byte>)
    requires forall i | 0 <= i < |b| :: b[i] == ToByte(Shr64(v, 8 * i))
    ensures b == LittleEndian(v, |b|)
  {
    LittleEndianAt(v, |b|);
  }

  lemma {:induction false} LittleEndianAt(v: uint64, n: nat)
    ensures forall i | 0 <= i < n :: LittleEndian(v, n)[i] == ToByte(Shr64(v, 8 * i))
    decreases n
  {
    if n == 0 {
    } else {
      LittleEndianAt(v / 256, n - 1);
      forall i | 0 <= i < n
        ensures LittleEndian(v, n)[i] == ToByte(Shr64(v, 8 * i))
      {
        if i > 0 { ShiftByte(v, 8 * (i - 1)); }
      }
    }
  }

  lemma ShiftByte(v: uint64, n: nat)
    ensures Shr64(v / 256, n) == Shr64(v, n + 8)
  {
    Pow2Add(8, n);
    assert Pow2(8) == 256;
    var p := Pow2(n);
    var q, r := v / 256, v % 256;
    assert q == (q / p) * p + q % p;
    assert v == (q / p) * (256 * p) + (256 * (q % p) + r);
    ModUnique(v, 256 * p, q / p, 256 * (q % p) + r);
  }

  lemma {:induction false} ItemsSplit(items: seq<Item>, k: nat)
    requires k < |items|
    ensures ItemsBytes(items[..k + 1]) == ItemsBytes(items[..k]) + ItemBytes(items[k])
    ensures ItemsBytes(items) == ItemsBytes(items[..k]) + (ItemBytes(items[k]) + ItemsBytes(items[k + 1..]))
    decreases k
  {
    hide ItemBytes;
    if k == 0 {
      assert items[..1][1..] == [];
    } else {
      ItemsSplit(items[1..], k - 1);
      assert items[..k + 1][1..] == items[1..][..k];
      assert items[..k][1..] == items[1..][..k - 1];
      assert items[1..][k..] == items[k + 1..];
    }
  }

  /** The size a generated message computes for itself. */
  function ContentSize(items: seq<Item>): nat {
    if items == [] then 0
    else SizeTag(items[0].number) + SizeScalar(items[0].value) + ContentSize(items[1..])
  }

  lemma {:induction false} ContentSizeIs(items: seq<Item>)
    ensures ContentSize(items) == |ItemsBytes(items)|
    decreases |items|
  {
    if items == [] {
    } else {
      SizeTagIs(items[0].number, WireOf(items[0].value));
      SizeScalarIs(items[0].value);
      ContentSizeIs(items[1..]);
    }
  }

  /** Marshal: one allocation of the computed size, which the appends fill exactly
      and never exceed. */
  method Marshal(items: seq<Item>) returns (b: seq<Byte>)
    ensures b == ItemsBytes(items)
  {
    ContentSizeIs(items);
    var w := new Writer(ContentSize(items));
    var ok := w.AppendAll(items);
    assert ok && w.len == w.data.Length;
    b := w.data[..w.len];
  }
}
