/** The Python wire reader (shared/gremlin_py/gremlin/reader.py). Integers are
    unbounded, an exception is None, and offsets are those a caller gets by
    starting at 0 and adding sizes. */
module PyReader {
  import opened Bits
  import opened Options
  import opened Varint
  import opened Wire

  /** After `i` rounds that each met a continuation byte, `value` is the sum of their
      digits. */
  ghost predicate Partial(rest: seq<Byte>, i: nat, value: int) {
    i <= |rest| && (forall j :: 0 <= j < i ==> rest[j] >= 128) && value == Value(rest[..i])
  }

  lemma PartialNone(rest: seq<Byte>)
    ensures Partial(rest, 0, 0)
  {
  }

  lemma PartialEnds(rest: seq<Byte>, i: nat, value: int)
    requires Partial(rest, i, value) && i <= 10
    ensures i == |rest| || i == 10 ==> PyRead(rest) == None
  {
    hide Value;
    if i == |rest| { SpanUnique(rest, i); }
  }

  /** One round: the digit is or-ed in, and a byte without the continuation bit ends the
      varint. */
  lemma Round(rest: seq<Byte>, i: nat, value: int)
    requires Partial(rest, i, value) && i < 10 && i < |rest|
    ensures var v := Or(value, And(rest[i], 0x7F) * Pow2(7 * i));
            v >= 0 && if rest[i] < 0x80 then PyRead(rest) == Some(Sized(v, i + 1)) else Partial(rest, i + 1, v)
  {
    OrDigit(rest, i);
    hide Value, Pow2, Or, And;
    if rest[i] < 0x80 { SpanUnique(rest, i); }
  }

  datatype Reader = Reader(buf: seq<Byte>)
  {
    predicate HasNext(offset: nat, size: nat) { offset + size < |buf| }

    method ReadVarIntAt(offset: nat) returns (r: Option<Sized>)
      ensures r == PyRead(Tail(buf, offset))
    {
      ghost var rest := Tail(buf, offset);
      var value, shift, i := 0, 0, 0;
      PartialNone(rest);
      hide Partial, PyRead, Pow2, Or, And;
      while i < 10
        invariant i <= 10 && shift == 7 * i && i <= |rest| && Partial(rest, i, value)
      {
        if !HasNext(offset, i) {
          PartialEnds(rest, i, value);
          return None;
        }
        var b := buf[offset + i];
        if shift >= 64 { return None; }
        Round(rest, i, value);
        value := Or(value, And(b, 0x7F) * Pow2(shift));
        if b < 0x80 {
          return Some(Sized(value, i + 1));
        }
        if shift > 57 {
          PartialEnds(rest, i + 1, value);
          return None;
        }
        shift := shift + 7;
        i := i + 1;
      }
      PartialEnds(rest, i, value);
      return None;
    }

    method GetVarIntSize(offset: nat) returns (r: Option<nat>)
      ensures r == ScanSize(Tail(buf, offset))
    {
      ghost var b := Tail(buf, offset);
      for i := 0 to 10
        invariant i <= |b|
        invariant forall j :: 0 <= j < i ==> b[j] >= 128
      {
        if !HasNext(offset, i) {
          SpanUnique(b, i);
          return None;
        }
        if buf[offset + i] < 0x80 {
          SpanUnique(b, i);
          return Some(i + 1);
        }
      }
      return Some(10);
    }

    method ReadTagAt(offset: nat) returns (r: Option<Tag>)
      ensures r == PyTag(buf, offset)
    {
      var data := ReadVarIntAt(offset);
      if data == None { return None; }
      var number := data.value.value / 8;
      if number > MAX_NUMBER { return None; }
      assert Pow2(3) == 8;
      AndMask(data.value.value, 3);
      var wire := And(data.value.value, 7);
      if wire > FIXED32 { return None; }
      return Some(Tag(number, wire, data.value.size));
    }

    /** The recursive skipper. It terminates on every buffer: each tag of a group is
        read inside the buffer, and what follows it is skipped further on. */
    method SkipData(offset: nat, wire: nat) returns (r: Option<nat>)
      ensures r == PySkip(buf, offset, wire)
      decreases Left(buf, offset)
    {
      hide PyRead, ScanSize, PyTag;
      if wire == VARINT {
        var size := GetVarIntSize(offset);
        if size == None { return None; }
        return Some(offset + size.value);
      } else if wire == FIXED32 {
        return Some(offset + 4);
      } else if wire == FIXED64 {
        return Some(offset + 8);
      } else if wire == BYTES {
        var data := ReadVarIntAt(offset);
        if data == None { return None; }
        return Some(offset + data.value.size + data.value.value);
      } else if wire == START_GROUP {
        var current := offset;
        while true
          invariant current >= offset
          invariant PySkipGroup(buf, current) == PySkip(buf, offset, wire)
          decreases Left(buf, current)
        {
          var tag := ReadTagAt(current);
          if tag == None { return None; }
          ghost var start := current;
          current := current + tag.value.size;
          if tag.value.wire == END_GROUP { return Some(current); }
          assert Left(buf, current) < Left(buf, start);
          var next := SkipData(current, tag.value.wire);
          if next == None { return None; }
          current := next.value;
        }
      }
      return None;
    }
  }

  /** `value |= (b & 0x7F) << shift` adds a digit above the ones read so far. */
  lemma OrDigit(b: seq<Byte>, i: nat)
    requires i < |b|
    ensures Or(Value(b[..i]), And(b[i], 0x7F) * Pow2(7 * i)) == Value(b[..i + 1])
  {
    hide Or, And, Value;
    SevenBits(i);
    assert Pow2(7) == 128;
    AndMask(b[i], 7);
    hide Pow2;
    ValueBound(b[..i]);
    OrShifted(Value(b[..i]), b[i] % 128, 7 * i);
    ValueSnoc(b[..i], b[i]);
    assert b[..i + 1] == b[..i] + [b[i]];
  }
}
