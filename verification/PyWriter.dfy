/** The two Python wire writers (shared/gremlin_py/gremlin/writer.py): `Writer`
    stores into a bytearray at a position, `StreamingWriter` writes to a stream. An
    exception is a false result: it ends the call, and a caller that catches it may go
    on with the next one. */
module PyWriter {
  import opened Bits
  import opened Options
  import opened Varint
  import opened ZigZag

  const MASK64: int := TWO64 - 1

  /** What the append methods are made of: bytes put down as they are, a varint, a
      `struct.pack` whose argument is out of range, and a reset. */
  datatype Chunk = Raw(bytes: seq<Byte>) | VarInt(v: int) | PackError | Reset

  // The bytearray

  datatype Buffer = Buffer(buf: seq<Byte>, pos: nat, ok: bool)

  /** `buf[pos:pos+n] = bytes`: a slice past the end is clamped, so the bytearray
      grows by what does not fit. */
  function SliceAssign(buf: seq<Byte>, pos: nat, bytes: seq<Byte>): seq<Byte>
    requires pos <= |buf|
  {
    var end := if pos + |bytes| <= |buf| then pos + |bytes| else |buf|;
    buf[..pos] + bytes + buf[end..]
  }

  /** `v >>= 7` */
  function Shr7(v: nat): (r: nat)
    ensures v >= 128 ==> r < v
  {
    v / 128
  }

  /** `buf[pos] = b` */
  function Store(buf: seq<Byte>, pos: nat, b: Byte): seq<Byte>
    requires pos < |buf|
  {
    buf[pos := b]
  }

  /** A varint goes in byte by byte. An index past the end raises, after the bytes
      before it have been stored and with the position unchanged; so does a
      negative value, which is no byte. */
  function PutVarInt(w: Buffer, v: int): Buffer
    requires w.pos <= |w.buf|
  {
    if v < 0 then w.(ok := false)
    else
      var e := Encode(v);
      if w.pos + |e| <= |w.buf| then
        w.(buf := w.buf[..w.pos] + e + w.buf[w.pos + |e|..], pos := w.pos + |e|)
      else
        w.(buf := w.buf[..w.pos] + e[..|w.buf| - w.pos], ok := false)
  }

  function Put(w: Buffer, c: Chunk): (r: Buffer)
    requires w.pos <= |w.buf|
    ensures r.pos <= |r.buf|
  {
    if !w.ok then w
    else
      match c
      case Raw(bytes) => w.(buf := SliceAssign(w.buf, w.pos, bytes), pos := w.pos + |bytes|)
      case VarInt(v) => PutVarInt(w, v)
      case PackError => w.(ok := false)
      case Reset => w.(pos := 0)
  }

  function PutAll(w: Buffer, cs: seq<Chunk>): (r: Buffer)
    requires w.pos <= |w.buf|
    ensures r.pos <= |r.buf|
    decreases |cs|
  {
    if cs == [] then w else PutAll(Put(w, cs[0]), cs[1..])
  }

  // The stream

  datatype Stream = Stream(bytes: seq<Byte>, ok: bool)

  function Emit(s: Stream, c: Chunk): Stream {
    if !s.ok then s
    else
      match c
      case Raw(bytes) => s.(bytes := s.bytes + bytes)
      case VarInt(v) => if v < 0 then s.(ok := false) else s.(bytes := s.bytes + Encode(v))
      case PackError => s.(ok := false)
      case Reset => s
  }

  function EmitAll(s: Stream, cs: seq<Chunk>): Stream
    decreases |cs|
  {
    if cs == [] then s else EmitAll(Emit(s, cs[0]), cs[1..])
  }

  // The calls

  datatype PyValue =
    | PyInt(i: int)       // append_int32, append_int64
    | PyUint(i: int)      // append_uint32, append_uint64
    | PySint(i: int)      // append_sint32, append_sint64
    | PyBool(b: bool)
    | PyFixed32(i: int)   // also append_float32, on the bit pattern
    | PyFixed64(i: int)
    | PySFixed32(i: int)
    | PySFixed64(i: int)
    | PyBytes(data: seq<Byte>)

  datatype Call =
    | Tagged(tag: seq<Byte>, value: PyValue)
    | WithoutTag(value: PyValue)
    | BytesSizeWithTag(tag: seq<Byte>, size: nat)
    | BytesTag(number: nat, length: nat)
    | RawBytes(bytes: seq<Byte>)
    | ResetCall

  /** `struct.pack`: little-endian bytes, or an error when out of range. */
  function Pack(i: int, lo: int, hi: int, n: nat): Chunk
    requires lo < hi
  {
    if lo <= i < hi then Raw(LittleEndian(i % (hi - lo), n)) else PackError
  }

  function ValueChunks(v: PyValue): seq<Chunk> {
    match v
    case PyInt(i) => [VarInt(And(i, MASK64))]
    case PyUint(i) => [VarInt(i)]
    case PySint(i) => [VarInt(PyZig(i))]
    case PyBool(b) => [VarInt(if b then 1 else 0)]
    case PyFixed32(i) => [Pack(i, 0, TWO32, 4)]
    case PyFixed64(i) => [Pack(i, 0, TWO64, 8)]
    case PySFixed32(i) => [Pack(i, -TWO31, TWO31, 4)]
    case PySFixed64(i) => [Pack(i, -TWO63, TWO63, 8)]
    case PyBytes(data) => [VarInt(|data|), Raw(data)]
  }

  function CallChunks(c: Call): seq<Chunk> {
    match c
    case Tagged(tag, v) => [Raw(tag)] + ValueChunks(v)
    case WithoutTag(v) => ValueChunks(v)
    case BytesSizeWithTag(tag, size) => [Raw(tag), VarInt(size)]
    case BytesTag(number, length) => [VarInt(Or(number * 8, 2)), VarInt(length)]
    case RawBytes(bytes) => [Raw(bytes)]
    case ResetCall => [Reset]
  }

  /** One call on either writer; it starts afresh, whatever became of the last one. */
  function PutCall(w: Buffer, c: Call): (r: Buffer)
    requires w.pos <= |w.buf|
    ensures r.pos <= |r.buf|
  {
    PutAll(w.(ok := true), CallChunks(c))
  }

  function EmitCall(s: Stream, c: Call): Stream {
    EmitAll(s.(ok := true), CallChunks(c))
  }

  /** A run of calls whose exceptions are caught. A caller that stops at the first one
      has made a shorter run. */
  function PutCalls(w: Buffer, calls: seq<Call>): (r: Buffer)
    requires w.pos <= |w.buf|
    ensures r.pos <= |r.buf|
    decreases |calls|
  {
    if calls == [] then w else PutCalls(PutCall(w, calls[0]), calls[1..])
  }

  function EmitCalls(s: Stream, calls: seq<Call>): Stream
    decreases |calls|
  {
    if calls == [] then s else EmitCalls(EmitCall(s, calls[0]), calls[1..])
  }

  // The classes

  /** One round: the low seven bits with the continuation bit go in at `p`, or the
      index error is raised. `start`, `p0` and `v0` are the writer and the value at the
      first round. */
  method StoreLow(b: seq<Byte>, p: nat, v: nat, ghost start: seq<Byte>, ghost p0: nat, ghost v0: nat)
    returns (ok: bool, b': seq<Byte>, v': nat)
    requires p0 <= p && Stored(start, p0, v0, p - p0, b, v) && v >= 128
    ensures ok ==> Stored(start, p0, v0, p + 1 - p0, b', v') && v' < v
    ensures !ok ==> p0 <= |b'| && Buffer(b', p0, false) == PutVarInt(Buffer(start, p0, true), v0)
  {
    NextByte(start, p0, v0, p - p0, b, v);
    hide *;
    if p >= |b| { return false, b, v; }
    return true, Store(b, p, LowSeven(v)), Shr7(v);
  }

  /** The last byte; the position moves behind it. */
  method StoreLast(b: seq<Byte>, p: nat, v: nat, ghost start: seq<Byte>, ghost p0: nat, ghost v0: nat)
    returns (ok: bool, b': seq<Byte>)
    requires p0 <= p && Stored(start, p0, v0, p - p0, b, v) && v < 128
    ensures var p' := if ok then p + 1 else p0;
            p' <= |b'| && Buffer(b', p', ok) == PutVarInt(Buffer(start, p0, true), v0)
  {
    LastByte(start, p0, v0, p - p0, b, v);
    hide PutVarInt, Stored;
    if p >= |b| { return false, b; }
    return true, Store(b, p, v);
  }

  class Writer {
    var buf: seq<Byte>
    var pos: nat

    ghost predicate Valid()
      reads this
    {
      pos <= |buf|
    }

    constructor (buf: seq<Byte>)
      ensures this.buf == buf && pos == 0 && Valid()
    {
      this.buf, pos := buf, 0;
    }

    method AppendRawBytes(bytes: seq<Byte>)
      requires Valid()
      modifies this
      ensures Valid() && Buffer(buf, pos, true) == Put(Buffer(old(buf), old(pos), true), Raw(bytes))
    {
      buf := SliceAssign(buf, pos, bytes);
      pos := pos + |bytes|;
    }

    /** The varint writer: five unrolled rounds, then a loop. `b` is the bytearray as
        stored into so far, which every exit leaves behind. */
    method AppendVarInt(v0: int) returns (ok: bool)
      requires Valid()
      modifies this
      ensures Valid() && Buffer(buf, pos, ok) == PutVarInt(Buffer(old(buf), old(pos), true), v0)
    {
      hide PutVarInt, Stored;
      if v0 < 0 {
        NegativeVarInt(Buffer(buf, pos, true), v0);
        return false;
      }
      ghost var start, p0 := buf, pos;
      var b: seq<Byte>, v: nat, p: nat := buf, v0, pos;
      StoredNone(start, p0, v);

      if v < 0x80 {
        ok, buf := StoreLast(b, p, v, start, p0, v0);
        if ok { pos := p + 1; }
        return;
      }
      ok, b, v := StoreLow(b, p, v, start, p0, v0);
      if !ok { buf := b; return; }
      p := p + 1;

      if v < 0x80 {
        ok, buf := StoreLast(b, p, v, start, p0, v0);
        if ok { pos := p + 1; }
        return;
      }
      ok, b, v := StoreLow(b, p, v, start, p0, v0);
      if !ok { buf := b; return; }
      p := p + 1;

      if v < 0x80 {
        ok, buf := StoreLast(b, p, v, start, p0, v0);
        if ok { pos := p + 1; }
        return;
      }
      ok, b, v := StoreLow(b, p, v, start, p0, v0);
      if !ok { buf := b; return; }
      p := p + 1;

      if v < 0x80 {
        ok, buf := StoreLast(b, p, v, start, p0, v0);
        if ok { pos := p + 1; }
        return;
      }
      ok, b, v := StoreLow(b, p, v, start, p0, v0);
      if !ok { buf := b; return; }
      p := p + 1;

      if v < 0x80 {
        ok, buf := StoreLast(b, p, v, start, p0, v0);
        if ok { pos := p + 1; }
        return;
      }
      while true
        invariant p >= p0 && v >= 128 && Stored(start, p0, v0, p - p0, b, v)
        invariant buf == start && pos == p0
        decreases v
      {
        ok, b, v := StoreLow(b, p, v, start, p0, v0);
        if !ok { buf := b; return; }
        p := p + 1;
        if v < 0x80 {
          ok, buf := StoreLast(b, p, v, start, p0, v0);
          if ok { pos := p + 1; }
          return;
        }
      }
    }

    method AppendValue(value: PyValue) returns (ok: bool)
      requires Valid()
      modifies this
      ensures Valid() && Buffer(buf, pos, ok) == PutAll(Buffer(old(buf), old(pos), true), ValueChunks(value))
    {
      Unroll(Buffer(buf, pos, true), ValueChunks(value));
      hide And, Xor, PyZig, Encode, LittleEndian, SliceAssign, PutVarInt;
      match value
      case PyInt(i) => ok := AppendVarInt(And(i, MASK64));
      case PyUint(i) => ok := AppendVarInt(i);
      case PySint(i) => ok := AppendVarInt(PyZig(i));
      case PyBool(b) => ok := AppendVarInt(if b then 1 else 0);
      case PyFixed32(i) => ok := AppendPacked(Pack(i, 0, TWO32, 4));
      case PyFixed64(i) => ok := AppendPacked(Pack(i, 0, TWO64, 8));
      case PySFixed32(i) => ok := AppendPacked(Pack(i, -TWO31, TWO31, 4));
      case PySFixed64(i) => ok := AppendPacked(Pack(i, -TWO63, TWO63, 8));
      case PyBytes(data) =>
        ok := AppendVarInt(|data|);
        if ok { AppendRawBytes(data); }
    }

    method AppendPacked(packed: Chunk) returns (ok: bool)
      requires Valid() && (packed.Raw? || packed.PackError?)
      modifies this
      ensures Valid() && Buffer(buf, pos, ok) == Put(Buffer(old(buf), old(pos), true), packed)
    {
      if packed.PackError? { return false; }
      AppendRawBytes(packed.bytes);
      return true;
    }

    method Append(c: Call) returns (ok: bool)
      requires Valid()
      modifies this
      ensures Valid() && Buffer(buf, pos, ok) == PutCall(Buffer(old(buf), old(pos), true), c)
    {
      hide ValueChunks, SliceAssign, PutVarInt, Or;
      Unroll(Buffer(buf, pos, true), CallChunks(c));
      match c
      case Tagged(tag, v) =>
        assert CallChunks(c)[1..] == ValueChunks(v);
        AppendRawBytes(tag);
        ok := AppendValue(v);
      case WithoutTag(v) => ok := AppendValue(v);
      case BytesSizeWithTag(tag, size) =>
        AppendRawBytes(tag);
        ok := AppendVarInt(size);
      case BytesTag(number, length) =>
        ok := AppendVarInt(Or(number * 8, 2));
        if ok { ok := AppendVarInt(length); }
      case RawBytes(bytes) =>
        AppendRawBytes(bytes);
        ok := true;
      case ResetCall =>
        pos := 0;
        ok := true;
    }
  }

  class StreamingWriter {
    var stream: seq<Byte>

    constructor (stream: seq<Byte>)
      ensures this.stream == stream
    {
      this.stream := stream;
    }

    method AppendRawBytes(bytes: seq<Byte>)
      modifies this
      ensures stream == old(stream) + bytes
    {
      stream := stream + bytes;
    }

    /** The streaming loop. */
    method AppendVarInt(v0: int) returns (ok: bool)
      modifies this
      ensures Stream(stream, ok) == Emit(Stream(old(stream), true), VarInt(v0))
    {
      var v := v0;
      while v >= 0x80
        invariant v0 >= 0 ==> v >= 0 && stream + Encode(v) == old(stream) + Encode(v0)
        invariant v0 < 0 ==> v == v0 && stream == old(stream)
      {
        LowSevenIs(v);
        stream := stream + [LowSeven(v)];
        v := v / 128;
      }
      if v < 0 { return false; }
      stream := stream + [v];
      return true;
    }

    method AppendValue(value: PyValue) returns (ok: bool)
      modifies this
      ensures Stream(stream, ok) == EmitAll(Stream(old(stream), true), ValueChunks(value))
    {
      UnrollEmit(Stream(stream, true), ValueChunks(value));
      hide And, Xor, PyZig, Encode, LittleEndian;
      match value
      case PyInt(i) => ok := AppendVarInt(And(i, MASK64));
      case PyUint(i) => ok := AppendVarInt(i);
      case PySint(i) => ok := AppendVarInt(PyZig(i));
      case PyBool(b) => ok := AppendVarInt(if b then 1 else 0);
      case PyFixed32(i) => ok := AppendPacked(Pack(i, 0, TWO32, 4));
      case PyFixed64(i) => ok := AppendPacked(Pack(i, 0, TWO64, 8));
      case PySFixed32(i) => ok := AppendPacked(Pack(i, -TWO31, TWO31, 4));
      case PySFixed64(i) => ok := AppendPacked(Pack(i, -TWO63, TWO63, 8));
      case PyBytes(data) =>
        ok := AppendVarInt(|data|);
        if ok { AppendRawBytes(data); }
    }

    method AppendPacked(packed: Chunk) returns (ok: bool)
      requires packed.Raw? || packed.PackError?
      modifies this
      ensures Stream(stream, ok) == Emit(Stream(old(stream), true), packed)
    {
      if packed.PackError? { return false; }
      AppendRawBytes(packed.bytes);
      return true;
    }

    method Append(c: Call) returns (ok: bool)
      modifies this
      ensures Stream(stream, ok) == EmitCall(Stream(old(stream), true), c)
    {
      hide ValueChunks, Or, Encode;
      UnrollEmit(Stream(stream, true), CallChunks(c));
      match c
      case Tagged(tag, v) =>
        assert CallChunks(c)[1..] == ValueChunks(v);
        AppendRawBytes(tag);
        ok := AppendValue(v);
      case WithoutTag(v) => ok := AppendValue(v);
      case BytesSizeWithTag(tag, size) =>
        AppendRawBytes(tag);
        ok := AppendVarInt(size);
      case BytesTag(number, length) =>
        ok := AppendVarInt(Or(number * 8, 2));
        if ok { ok := AppendVarInt(length); }
      case RawBytes(bytes) =>
        AppendRawBytes(bytes);
        ok := true;
      case ResetCall => ok := true;
    }
  }

  // Proofs about the varint writer

  /** `k` bytes of the encoding of `v0` are in place, and `v` is what is left. */
  ghost predicate Stored(start: seq<Byte>, pos: nat, v0: nat, k: nat, buf: seq<Byte>, v: int) {
    var e := Encode(v0);
    k < |e| && pos + k <= |start| && buf == start[..pos] + e[..k] + start[pos + k..] &&
    v >= 0 && e[k..] == Encode(v)
  }

  lemma NegativeVarInt(w: Buffer, v: int)
    requires w.pos <= |w.buf| && v < 0
    ensures PutVarInt(w, v) == w.(ok := false)
  {
  }

  lemma StoredNone(start: seq<Byte>, pos: nat, v: nat)
    requires pos <= |start|
    ensures Stored(start, pos, v, 0, start, v)
  {
    assert start == start[..pos] + [] + start[pos..];
  }

  lemma NextByte(start: seq<Byte>, pos: nat, v0: nat, k: nat, buf: seq<Byte>, v: int)
    requires Stored(start, pos, v0, k, buf, v) && v >= 128
    ensures |buf| == |start| && 0 <= LowSeven(v) < 256
    ensures pos + k < |buf| ==> Stored(start, pos, v0, k + 1, Store(buf, pos + k, LowSeven(v)), Shr7(v))
    ensures pos + k >= |buf| ==> Buffer(buf, pos, false) == PutVarInt(Buffer(start, pos, true), v0)
  {
    LowSevenIs(v);
    hide LowSeven;
    var e := Encode(v0);
    assert e[k..][1..] == e[k + 1..];
    assert e[k] == e[k..][0] == v % 128 + 128;
    if pos + k < |buf| {
      assert buf[pos + k := e[k]] == start[..pos] + e[..k + 1] + start[pos + k + 1..];
    }
  }

  lemma LastByte(start: seq<Byte>, pos: nat, v0: nat, k: nat, buf: seq<Byte>, v: int)
    requires Stored(start, pos, v0, k, buf, v) && v < 128
    ensures |buf| == |start|
    ensures pos + k < |buf| ==>
              Buffer(Store(buf, pos + k, v), pos + k + 1, true) == PutVarInt(Buffer(start, pos, true), v0)
    ensures pos + k >= |buf| ==> Buffer(buf, pos, false) == PutVarInt(Buffer(start, pos, true), v0)
  {
    var e := Encode(v0);
    assert |e[k..]| == 1;
    assert e[k] == e[k..][0] == v;
    if pos + k < |buf| {
      assert buf[pos + k := v] == start[..pos] + e + start[pos + |e|..];
    }
  }

  lemma Unroll(w: Buffer, cs: seq<Chunk>)
    requires w.pos <= |w.buf|
    ensures PutAll(w, []) == w
    ensures |cs| >= 1 ==> PutAll(w, cs) == PutAll(Put(w, cs[0]), cs[1..])
    ensures |cs| == 1 ==> PutAll(w, cs) == Put(w, cs[0])
    ensures |cs| == 2 ==> PutAll(w, cs) == Put(Put(w, cs[0]), cs[1])
  {
    hide Put;
    if |cs| == 2 { assert cs[1..][1..] == []; }
  }

  lemma UnrollEmit(s: Stream, cs: seq<Chunk>)
    ensures |cs| >= 1 ==> EmitAll(s, cs) == EmitAll(Emit(s, cs[0]), cs[1..])
    ensures |cs| == 1 ==> EmitAll(s, cs) == Emit(s, cs[0])
    ensures |cs| == 2 ==> EmitAll(s, cs) == Emit(Emit(s, cs[0]), cs[1])
  {
    hide Emit;
    if |cs| == 2 { assert cs[1..][1..] == []; }
  }

  // The two writers

  /** How many bytes came before the last reset that was carried out. */
  function Mark(s: Stream, cs: seq<Chunk>, m: nat): nat
    decreases |cs|
  {
    if cs == [] then m
    else Mark(Emit(s, cs[0]), cs[1..], if s.ok && cs[0].Reset? then |s.bytes| else m)
  }

  /** The bytearray holds, up to its position, what the stream got since the mark. */
  ghost predicate Same(w: Buffer, s: Stream, m: nat) {
    m <= |s.bytes| && w.ok == s.ok && w.pos == |s.bytes| - m && w.pos <= |w.buf| &&
    w.buf[..w.pos] == s.bytes[m..]
  }

  lemma {:induction false} StreamGrows(s: Stream, cs: seq<Chunk>)
    ensures s.bytes <= EmitAll(s, cs).bytes
    decreases |cs|
  {
    if cs == [] {
    } else {
      StreamGrows(Emit(s, cs[0]), cs[1..]);
    }
  }

  /** The chunks of one call, up to the one that fails, give the same result and the
      same bytes through both writers, given room for them. A reset rewinds only the
      bytearray, so what it holds is what was written since the last reset. */
  lemma {:induction false} SameBytes(w: Buffer, s: Stream, cs: seq<Chunk>, m: nat)
    requires Same(w, s, m)
    requires |EmitAll(s, cs).bytes| <= |w.buf|
    ensures Same(PutAll(w, cs), EmitAll(s, cs), Mark(s, cs, m))
    ensures |PutAll(w, cs).buf| == |w.buf|
    decreases |cs|
  {
    if cs == [] {
    } else {
      var c := cs[0];
      StreamGrows(Emit(s, c), cs[1..]);
      SameStep(w, s, c, m);
      SameBytes(Put(w, c), Emit(s, c), cs[1..], if s.ok && c.Reset? then |s.bytes| else m);
    }
  }

  lemma SameStep(w: Buffer, s: Stream, c: Chunk, m: nat)
    requires Same(w, s, m) && |Emit(s, c).bytes| <= |w.buf|
    ensures Same(Put(w, c), Emit(s, c), if s.ok && c.Reset? then |s.bytes| else m)
    ensures |Put(w, c).buf| == |w.buf|
  {
    hide Encode;
    var w', s' := Put(w, c), Emit(s, c);
    if w.ok && (c.Raw? || (c.VarInt? && c.v >= 0)) {
      var e := if c.Raw? then c.bytes else Encode(c.v);
      assert w'.buf[..w'.pos] == w.buf[..w.pos] + e;
      assert s'.bytes[m..] == s.bytes[m..] + e;
    }
  }

  /** The mark after a run of calls. */
  function MarkCalls(s: Stream, calls: seq<Call>, m: nat): nat
    decreases |calls|
  {
    if calls == [] then m
    else MarkCalls(EmitCall(s, calls[0]), calls[1..], Mark(s.(ok := true), CallChunks(calls[0]), m))
  }

  lemma {:induction false} CallsGrow(s: Stream, calls: seq<Call>)
    ensures s.bytes <= EmitCalls(s, calls).bytes
    decreases |calls|
  {
    hide CallChunks;
    if calls == [] {
    } else {
      StreamGrows(s.(ok := true), CallChunks(calls[0]));
      CallsGrow(EmitCall(s, calls[0]), calls[1..]);
    }
  }

  /** Any run of calls, failing ones anywhere in it: the last call succeeds in both
      writers or in neither, and they hold the same bytes since the last reset. Taken
      for every beginning of a run, call by call the same ones fail. */
  lemma {:induction false} SameCalls(w: Buffer, s: Stream, calls: seq<Call>, m: nat)
    requires Same(w, s, m)
    requires |EmitCalls(s, calls).bytes| <= |w.buf|
    ensures Same(PutCalls(w, calls), EmitCalls(s, calls), MarkCalls(s, calls, m))
    ensures |PutCalls(w, calls).buf| == |w.buf|
    decreases |calls|
  {
    hide CallChunks, PutAll, EmitAll;
    if calls == [] {
    } else {
      var c := calls[0];
      CallsGrow(EmitCall(s, c), calls[1..]);
      SameBytes(w.(ok := true), s.(ok := true), CallChunks(c), m);
      SameCalls(PutCall(w, c), EmitCall(s, c), calls[1..], Mark(s.(ok := true), CallChunks(c), m));
    }
  }

  /** The streams agree exactly when nothing was written before the last reset. */
  lemma SameOutput(buf: seq<Byte>, calls: seq<Call>)
    requires |EmitCalls(Stream([], true), calls).bytes| <= |buf|
    ensures var w, s := PutCalls(Buffer(buf, 0, true), calls), EmitCalls(Stream([], true), calls);
            w.ok == s.ok && |w.buf| == |buf| &&
            (w.buf[..w.pos] == s.bytes <==> MarkCalls(Stream([], true), calls, 0) == 0)
  {
    hide PutCalls, EmitCalls, MarkCalls;
    SameCalls(Buffer(buf, 0, true), Stream([], true), calls, 0);
  }

  // Too small a bytearray

  /** The end of the last varint, when the chunks are put down from `at` on. */
  function LastVarIntEnd(cs: seq<Chunk>, at: nat): nat
    decreases |cs|
  {
    if cs == [] then 0
    else
      match cs[0]
      case Raw(bytes) => LastVarIntEnd(cs[1..], at + |bytes|)
      case VarInt(v) =>
        if v < 0 then 0
        else
          var end := at + |Encode(v)|;
          var last := LastVarIntEnd(cs[1..], end);
          if last > end then last else end
      case PackError => 0
      case Reset => 0
  }

  /** Raw bytes grow the bytearray and varints do not: without resets the buffer
      writer succeeds exactly when the streaming one does and the last varint ends
      inside the bytearray as it was at the start. */
  lemma {:induction false} RoomExactly(w: Buffer, s: Stream, cs: seq<Chunk>, room: nat)
    requires w.ok && s.ok && w.pos <= |w.buf|
    requires |w.buf| == if w.pos <= room then room else w.pos
    requires forall c :: c in cs ==> !c.Reset?
    ensures PutAll(w, cs).ok <==> EmitAll(s, cs).ok && LastVarIntEnd(cs, w.pos) <= room
    decreases |cs|
  {
    if cs == [] {
    } else {
      var c, rest := cs[0], cs[1..];
      assert c in cs;
      RoomStep(w, s, c, room);
      Unroll(w, cs);
      UnrollEmit(s, cs);
      hide Encode, Put, Emit, PutAll, EmitAll;
      var w', s' := Put(w, c), Emit(s, c);
      if w'.ok && s'.ok {
        RoomExactly(w', s', rest, room);
      } else {
        Failed(w', rest);
        FailedStream(s', rest);
      }
    }
  }

  lemma RoomStep(w: Buffer, s: Stream, c: Chunk, room: nat)
    requires w.ok && s.ok && w.pos <= |w.buf| && !c.Reset?
    requires |w.buf| == if w.pos <= room then room else w.pos
    ensures var w', s' := Put(w, c), Emit(s, c);
            (w'.ok ==> s'.ok && |w'.buf| == if w'.pos <= room then room else w'.pos) &&
            (c.Raw? ==> w'.ok && w'.pos == w.pos + |c.bytes|) &&
            (c.PackError? ==> !s'.ok) &&
            (c.VarInt? ==> (s'.ok <==> c.v >= 0)) &&
            (c.VarInt? && c.v >= 0 ==> (w'.ok <==> w.pos + |Encode(c.v)| <= room)) &&
            (c.VarInt? && w'.ok ==> w'.pos == w.pos + |Encode(c.v)|)
  {
    hide Encode, SliceAssign;
    if c.Raw? { SliceLength(w.buf, w.pos, c.bytes); }
  }

  lemma SliceLength(buf: seq<Byte>, pos: nat, bytes: seq<Byte>)
    requires pos <= |buf|
    ensures |SliceAssign(buf, pos, bytes)| == if pos + |bytes| <= |buf| then |buf| else pos + |bytes|
  {
  }

  lemma {:induction false} Failed(w: Buffer, cs: seq<Chunk>)
    requires w.pos <= |w.buf|
    ensures !w.ok ==> PutAll(w, cs) == w
    decreases |cs|
  {
    if w.ok || cs == [] {
    } else {
      Failed(w, cs[1..]);
    }
  }

  lemma {:induction false} FailedStream(s: Stream, cs: seq<Chunk>)
    ensures !s.ok ==> EmitAll(s, cs) == s
    decreases |cs|
  {
    if s.ok || cs == [] {
    } else {
      FailedStream(s, cs[1..]);
    }
  }
}
