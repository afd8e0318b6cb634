/** The Go wire reader (shared/gremlin_go/reading.go), statement by statement, on
    an unchanged buffer. A slice index that is out of range is a panic in Go:
    `SkipData` reports one as `Panicked`, and the fixed-width and byte reads, which
    index without a check, require their bytes to be there. */
module GoReader {
  import opened Bits
  import opened Options
  import opened Varint
  import opened Wire
  import opened ZigZag

  /** After `k` blocks that each found a continuation byte, `v` is the sum of the
      first `k` digits from the offset on. */
  ghost predicate Partial(buf: seq<Byte>, offset: nat, k: nat, v: int) {
    var b := Tail(buf, offset);
    k <= |b| && (forall i :: 0 <= i < k ==> b[i] >= 128) && v == Value(b[..k])
  }

  /** What the unrolled decoder returns, against the reference decoder. */
  ghost predicate Reads(buf: seq<Byte>, offset: nat, v: int, n: int) {
    match GoRead(Tail(buf, offset))
    case Some(s) => v == s.value && n == s.size
    case None => v == 0 && n == -1
  }

  /** One block of the unrolled decoder adds a digit, and taking the continuation
      bit off again leaves the sum of the digits so far; the block at which a
      byte ends the varint is where the reference decoder stops. */
  lemma Digit(buf: seq<Byte>, offset: nat, k: nat, v: uint64)
    requires k <= 9 && offset + k < |buf| && Partial(buf, offset, k, v)
    ensures var y := buf[offset + k];
            var s := ToUint64(v + Shl64(y, 7 * k));
            (k <= 8 && y >= 128 ==> Partial(buf, offset, k + 1, ToUint64(s - Shl64(0x80, 7 * k)))) &&
            (y < 128 && (k == 9 ==> y < 2) ==> Reads(buf, offset, s, k + 1))
  {
    var b := Tail(buf, offset);
    var y := b[k];
    if k <= 8 || y < 2 { DigitSum(b, k, v); }
    hide Value, ToUint64, Shl64;
    if y < 128 { SpanUnique(b, k); }
  }

  lemma DigitSum(b: seq<Byte>, k: nat, v: uint64)
    requires k <= 9 && k < |b| && v == Value(b[..k]) && (k <= 8 || b[k] < 2)
    ensures var s := ToUint64(v + Shl64(b[k], 7 * k));
            (b[k] < 128 ==> s == Value(b[..k + 1])) &&
            (b[k] >= 128 ==> ToUint64(s - Shl64(0x80, 7 * k)) == Value(b[..k + 1]))
  {
    hide Value, ToUint64, Pow128, Pow2;
    SevenBits(k);
    DigitValue(b, k);
    PowLimit(k);
    NoWrap(Pow128(k), v, b[k]);
  }

  lemma DigitValue(b: seq<Byte>, k: nat)
    requires k < |b|
    ensures Value(b[..k + 1]) == Value(b[..k]) + Pow128(k) * (b[k] % 128)
    ensures Value(b[..k]) < Pow128(k)
  {
    ValueSnoc(b[..k], b[k]);
    assert b[..k + 1] == b[..k] + [b[k]];
    ValueBound(b[..k]);
  }

  lemma PowLimit(k: nat)
    ensures k <= 8 ==> Pow128(k) <= 0x100_0000_0000_0000
    ensures k == 9 ==> Pow128(k) == TWO63
  {
    assert Pow128(8) == 0x100_0000_0000_0000;
    assert Pow128(9) == TWO63;
    if k <= 8 { Pow128Mono(k, 8); }
  }

  /** The sums of the decoder stay below 2^64: `p` is the weight of the digit. */
  lemma NoWrap(p: nat, v: nat, y: Byte)
    requires v < p && (p <= 0x100_0000_0000_0000 || (p == TWO63 && y < 2))
    ensures var s := ToUint64(v + ToUint64(y * p));
            (y < 128 ==> s == v + p * (y % 128)) &&
            (y >= 128 ==> ToUint64(s - ToUint64(0x80 * p)) == v + p * (y % 128))
  {
    MulBound(y, 255, p);
    if p == TWO63 { MulBound(y, 1, p); }
    DigitTimes(p, y);
    hide ToUint64;
    Wraps(p, v, y * p);
  }

  lemma DigitTimes(p: nat, y: Byte)
    ensures p * (y % 128) == if y < 128 then y * p else y * p - 128 * p
    ensures y >= 128 ==> y * p >= 128 * p
  {
    Distribute(128, y - 128, p);
    if y >= 128 { MulBound(128, y, p); }
  }

  lemma Wraps(p: nat, v: nat, x: nat)
    requires v < p <= TWO63 && x <= 255 * p
    requires p <= 0x100_0000_0000_0000 || x <= p
    ensures ToUint64(v + ToUint64(x)) == v + x
    ensures x >= 128 * p ==> ToUint64(v + x - ToUint64(0x80 * p)) == v + x - 128 * p
  {
    ModUnique(x, TWO64, 0, x);
    ModUnique(v + x, TWO64, 0, v + x);
    if x >= 128 * p {
      ModUnique(0x80 * p, TWO64, 0, 0x80 * p);
      ModUnique(v + x - 128 * p, TWO64, 0, v + x - 128 * p);
    }
  }

  lemma MulBound(a: nat, b: nat, p: nat)
    requires a <= b
    ensures 0 <= a * p <= b * p
  {
    Distribute(a, b - a, p);
  }

  lemma RejectShort(buf: seq<Byte>, offset: nat, k: nat, v: int)
    requires k <= 9 && offset + k >= |buf| && Partial(buf, offset, k, v)
    ensures Reads(buf, offset, 0, -1)
  {
    SpanUnique(Tail(buf, offset), k);
  }

  lemma RejectTen(buf: seq<Byte>, offset: nat, v: int)
    requires offset + 9 < |buf| && Partial(buf, offset, 9, v) && buf[offset + 9] >= 2
    ensures Reads(buf, offset, 0, -1)
  {
    var b := Tail(buf, offset);
    if b[9] < 128 { SpanUnique(b, 9); }
  }

  datatype Reader = Reader(buf: seq<Byte>)
  {
    predicate HasNext(offset: int, size: int) { offset + size < |buf| }

    /** The ten-block decoder: the value and its length, or length -1. */
    method ReadVarIntAt(offset: nat) returns (v: uint64, n: int)
      ensures Reads(buf, offset, v, n)
    {
      hide Partial, Reads, Shl64, ToUint64;
      var y: uint64;
      if !HasNext(offset, 0) {
        NoDigits(buf, offset);
        RejectShort(buf, offset, 0, 0);
        return 0, -1;
      }
      FirstDigit(buf, offset);
      v := buf[offset + 0];
      if v < 0x80 {
        return v, 1;
      }
      v := v - 0x80;

      if !HasNext(offset, 1) {
        RejectShort(buf, offset, 1, v);
        return 0, -1;
      }
      y := buf[offset + 1];
      Digit(buf, offset, 1, v);
      v := ToUint64(v + Shl64(y, 7));
      if y < 0x80 {
        return v, 2;
      }
      v := ToUint64(v - Shl64(0x80, 7));

      if !HasNext(offset, 2) {
        RejectShort(buf, offset, 2, v);
        return 0, -1;
      }
      y := buf[offset + 2];
      Digit(buf, offset, 2, v);
      v := ToUint64(v + Shl64(y, 14));
      if y < 0x80 {
        return v, 3;
      }
      v := ToUint64(v - Shl64(0x80, 14));

      if !HasNext(offset, 3) {
        RejectShort(buf, offset, 3, v);
        return 0, -1;
      }
      y := buf[offset + 3];
      Digit(buf, offset, 3, v);
      v := ToUint64(v + Shl64(y, 21));
      if y < 0x80 {
        return v, 4;
      }
      v := ToUint64(v - Shl64(0x80, 21));

      if !HasNext(offset, 4) {
        RejectShort(buf, offset, 4, v);
        return 0, -1;
      }
      y := buf[offset + 4];
      Digit(buf, offset, 4, v);
      v := ToUint64(v + Shl64(y, 28));
      if y < 0x80 {
        return v, 5;
      }
      v := ToUint64(v - Shl64(0x80, 28));

      if !HasNext(offset, 5) {
        RejectShort(buf, offset, 5, v);
        return 0, -1;
      }
      y := buf[offset + 5];
      Digit(buf, offset, 5, v);
      v := ToUint64(v + Shl64(y, 35));
      if y < 0x80 {
        return v, 6;
      }
      v := ToUint64(v - Shl64(0x80, 35));

      if !HasNext(offset, 6) {
        RejectShort(buf, offset, 6, v);
        return 0, -1;
      }
      y := buf[offset + 6];
      Digit(buf, offset, 6, v);
      v := ToUint64(v + Shl64(y, 42));
      if y < 0x80 {
        return v, 7;
      }
      v := ToUint64(v - Shl64(0x80, 42));

      if !HasNext(offset, 7) {
        RejectShort(buf, offset, 7, v);
        return 0, -1;
      }
      y := buf[offset + 7];
      Digit(buf, offset, 7, v);
      v := ToUint64(v + Shl64(y, 49));
      if y < 0x80 {
        return v, 8;
      }
      v := ToUint64(v - Shl64(0x80, 49));

      if !HasNext(offset, 8) {
        RejectShort(buf, offset, 8, v);
        return 0, -1;
      }
      y := buf[offset + 8];
      Digit(buf, offset, 8, v);
      v := ToUint64(v + Shl64(y, 56));
      if y < 0x80 {
        return v, 9;
      }
      v := ToUint64(v - Shl64(0x80, 56));

      if !HasNext(offset, 9) {
        RejectShort(buf, offset, 9, v);
        return 0, -1;
      }
      y := buf[offset + 9];
      Digit(buf, offset, 9, v);
      ghost var w := v;
      v := ToUint64(v + Shl64(y, 63));
      if y < 2 {
        return v, 10;
      }
      RejectTen(buf, offset, w);
      return 0, -1;
    }

    method GetVarIntSize(offset: nat) returns (r: Option<nat>)
      ensures r == ScanSize(Tail(buf, offset))
    {
      ghost var b := Tail(buf, offset);
      for i := 0 to 10
        invariant i <= |b|
        invariant forall j :: 0 <= j < i ==> b[j] >= 128
      {
        if !HasNext(offset, i) {
          SpanUnique(b, i);
          return None;
        }
        if buf[offset + i] < 0x80 {
          SpanUnique(b, i);
          return Some(i + 1);
        }
      }
      return Some(10);
    }

    method ReadTagAt(offset: nat) returns (r: Option<Tag>)
      ensures r == GoTag(buf, offset)
    {
      var tagData, tagSize := ReadVarIntAt(offset);
      if tagSize < 0 {
        return None;
      }
      if tagData / 8 > MAX_NUMBER {
        return None;
      }
      return Some(Tag(tagData / 8, tagData % 8, tagSize));
    }

    /** The recursive skipper. `fuel` bounds the rounds of the group loops. */
    method SkipData(offset: int64, wire: nat, fuel: nat) returns (r: Outcome<int64>)
      ensures r == GoSkip(buf, offset, wire, fuel)
      decreases fuel
    {
      hide GoRead, ScanSize;
      if wire == VARINT {
        if offset < 0 { return Panicked; }
        var size := GetVarIntSize(offset);
        if size == None { return Failed; }
        return Done(ToInt64(offset + size.value));
      } else if wire == FIXED32 {
        return Done(ToInt64(offset + 4));
      } else if wire == FIXED64 {
        return Done(ToInt64(offset + 8));
      } else if wire == BYTES {
        if offset < 0 { return Panicked; }
        var size, sizeSize := ReadVarIntAt(offset);
        if sizeSize < 0 { return Failed; }
        return Done(ToInt64(ToInt64(offset + sizeSize) + ToInt64(size)));
      } else if wire == START_GROUP {
        var off: int64, rounds: nat := offset, fuel;
        while rounds > 0
          invariant rounds <= fuel
          invariant GoSkipGroup(buf, off, rounds) == GoSkip(buf, offset, wire, fuel)
        {
          hide GoTag, ToInt64;
          if off < 0 { return Panicked; }
          var tag := ReadTagAt(off);
          if tag == None { return Failed; }
          off := ToInt64(off + tag.value.size);
          if tag.value.wire == END_GROUP { return Done(off); }
          var next := SkipData(off, tag.value.wire, rounds - 1);
          if !next.Done? { return next; }
          off, rounds := next.value, rounds - 1;
        }
        return Unfinished;
      }
      return Failed;
    }

    // Typed reads

    function ReadVarInt(offset: nat): uint64 {
      match GoRead(Tail(buf, offset))
      case Some(s) => ToUint64(s.value)
      case None => 0
    }

    function ReadUint32(offset: nat): uint32 { ToUint32(ReadVarInt(offset)) }

    function ReadInt32(offset: nat): int32 { ToInt32(ReadVarInt(offset)) }

    function ReadInt64(offset: nat): int64 { ToInt64(ReadVarInt(offset)) }

    function ReadBool(offset: nat): bool { ReadVarInt(offset) != 0 }

    function ReadSInt64(offset: nat): int { GoZag(ReadVarInt(offset)) }

    function ReadSInt32(offset: nat): int32 { ToInt32(ReadSInt64(offset)) }

    function ReadFixed32(offset: nat): int
      requires offset + 4 <= |buf|
    {
      Or(Or(Or(buf[offset], Shl64(buf[offset + 1], 8)), Shl64(buf[offset + 2], 16)), Shl64(buf[offset + 3], 24))
    }

    function ReadFixed64(offset: nat): int
      requires offset + 8 <= |buf|
    {
      Or(Or(Or(Or(ReadFixed32(offset), Shl64(buf[offset + 4], 32)), Shl64(buf[offset + 5], 40)),
            Shl64(buf[offset + 6], 48)), Shl64(buf[offset + 7], 56))
    }

    function ReadSFixed32(offset: nat): int32
      requires offset + 4 <= |buf|
    {
      ToInt32(ReadFixed32(offset))
    }

    function ReadSFixed64(offset: nat): int64
      requires offset + 8 <= |buf|
    {
      ToInt64(ReadFixed64(offset))
    }

    function ReadBytes(offset: nat): seq<Byte>
      requires GoRead(Tail(buf, offset)).Some?
      requires var s := GoRead(Tail(buf, offset)).value; offset + s.size + s.value <= |buf|
    {
      var s := GoRead(Tail(buf, offset)).value;
      buf[offset + s.size..offset + s.size + s.value]
    }
  }

  lemma NoDigits(buf: seq<Byte>, offset: nat)
    ensures Partial(buf, offset, 0, 0)
  {
  }

  lemma FirstDigit(buf: seq<Byte>, offset: nat)
    requires offset < |buf|
    ensures buf[offset] < 128 ==> Reads(buf, offset, buf[offset], 1)
    ensures buf[offset] >= 128 ==> Partial(buf, offset, 1, buf[offset] - 128)
  {
    var b := Tail(buf, offset);
    assert b[..1][1..] == [];
    assert Value(b[..1]) == b[0] % 128;
    if b[0] < 128 { SpanUnique(b, 0); }
  }
}
