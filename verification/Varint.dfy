/** Base 128 varints, as the Protocol Buffers Encoding specification defines
    them (section "Base 128 Varints"): seven bits a byte, least significant group
    first, the top bit set on every byte but the last.

    `Encode` and `Value` are the reference printer and parser. The rest of the
    module says which byte sequences the Go and the Python readers take for a
    varint, as functions of the bytes that are left in the buffer. */
module Varint {
  import opened Bits
  import opened Options

  datatype Sized = Sized(value: nat, size: nat)

  function Encode(v: nat): (b: seq<Byte>)
    ensures |b| >= 1
  {
    if v < 128 then [v] else [v % 128 + 128] + Encode(v / 128)
  }

  function Value(b: seq<Byte>): nat {
    if b == [] then 0 else b[0] % 128 + 128 * Value(b[1..])
  }

  /** The number of leading bytes that announce another byte. */
  function Span(b: seq<Byte>): (k: nat)
    ensures k <= |b|
    ensures forall i :: 0 <= i < k ==> b[i] >= 128
    ensures k < |b| ==> b[k] < 128
  {
    if b == [] || b[0] < 128 then 0 else 1 + Span(b[1..])
  }

  predicate IsVarint(w: seq<Byte>) {
    |w| >= 1 && Span(w) == |w| - 1
  }

  /** A varint whose value fits in 64 bits. */
  predicate IsVarint64(w: seq<Byte>) {
    IsVarint(w) && |w| <= 10 && (|w| == 10 ==> w[9] < 2)
  }

  type Varint64 = w: seq<Byte> | IsVarint64(w) witness [0]

  // The readers, on the bytes from the offset on

  /** readVarIntAt: at most ten bytes, the tenth at most 1. */
  function GoRead(b: seq<Byte>): Option<Sized> {
    var k := Span(b);
    if k == |b| || k > 9 || (k == 9 && b[9] >= 2) then None
    else Some(Sized(Value(b[..k + 1]), k + 1))
  }

  /** _read_varint_at: at most ten bytes, no bound on the tenth. */
  function PyRead(b: seq<Byte>): Option<Sized> {
    var k := Span(b);
    if k == |b| || k > 9 then None
    else Some(Sized(Value(b[..k + 1]), k + 1))
  }

  /** getVarIntSize and _get_varint_size: ten continuation bytes count as ten. */
  function ScanSize(b: seq<Byte>): (r: Option<nat>)
    ensures r.Some? ==> 1 <= r.value <= |b|
  {
    var k := Span(b);
    if k >= 10 then Some(10)
    else if k == |b| then None
    else Some(k + 1)
  }

  // The form of a varint

  lemma SpanUnique(b: seq<Byte>, k: nat)
    requires k <= |b|
    requires forall i :: 0 <= i < k ==> b[i] >= 128
    requires k < |b| ==> b[k] < 128
    ensures Span(b) == k
  {
    var s := Span(b);
    assert s < |b| ==> b[s] < 128;
  }

  /** Reading a varint does not depend on what follows it. */
  lemma SpanThen(w: seq<Byte>, rest: seq<Byte>)
    requires IsVarint(w)
    ensures Span(w + rest) == |w| - 1
    ensures (w + rest)[..|w|] == w
  {
    SpanUnique(w + rest, |w| - 1);
  }

  lemma {:induction false} EncodeIsVarint(v: nat)
    ensures IsVarint(Encode(v))
    ensures Value(Encode(v)) == v
    decreases v
  {
    var b := Encode(v);
    ValueHead(b);
    if v < 128 {
      assert b[1..] == [];
    } else {
      EncodeIsVarint(v / 128);
      assert b[1..] == Encode(v / 128);
      hide Value, Encode;
    }
  }

  /** `128^k` bounds the values that fit in `k` bytes. */
  function Pow128(k: nat): (p: nat)
    ensures p >= 1
  {
    if k == 0 then 1 else 128 * Pow128(k - 1)
  }

  lemma {:induction false} ValueBound(b: seq<Byte>)
    ensures Value(b) < Pow128(|b|)
    decreases |b|
  {
    if b == [] {
    } else {
      ValueBound(b[1..]);
    }
  }

  lemma ValueHead(b: seq<Byte>)
    requires b != []
    ensures Value(b) == b[0] % 128 + 128 * Value(b[1..])
  {
  }

  lemma {:induction false} ValueSplit(b: seq<Byte>, k: nat)
    requires k <= |b|
    ensures Value(b) == Value(b[..k]) + Pow128(k) * Value(b[k..])
    decreases k
  {
    if k == 0 {
      assert b[..0] == [] && b[0..] == b;
    } else {
      hide Value;
      var t := b[1..];
      ValueSplit(t, k - 1);
      assert t[..k - 1] == b[..k][1..] && t[k - 1..] == b[k..];
      ValueHead(b);
      ValueHead(b[..k]);
      Associate(128, Pow128(k - 1), Value(b[k..]));
    }
  }

  /** One more byte: the partial sums of the unrolled decoders. */
  lemma ValueSnoc(b: seq<Byte>, y: Byte)
    ensures Value(b + [y]) == Value(b) + Pow128(|b|) * (y % 128)
  {
    ValueSplit(b + [y], |b|);
    assert (b + [y])[..|b|] == b && (b + [y])[|b|..] == [y];
    assert [y][1..] == [];
    assert Value([y]) == y % 128;
  }

  /** The length of the encoding is the number of base 128 digits. */
  lemma {:induction false} EncodeLength(v: nat, k: nat)
    requires k >= 1
    ensures |Encode(v)| <= k <==> v < Pow128(k)
    decreases k
  {
    if k == 1 {
      assert Pow128(1) == 128;
    } else if v < 128 {
      Pow128AtLeast(k);
    } else {
      EncodeLength(v / 128, k - 1);
    }
  }

  lemma {:induction false} Pow128AtLeast(k: nat)
    requires k >= 1
    ensures Pow128(k) >= 128
    decreases k
  {
    if k <= 1 {
    } else {
      Pow128AtLeast(k - 1);
    }
  }

  /** A 64-bit value encodes to a 64-bit varint, and a 64-bit varint has a
      64-bit value. */
  lemma EncodeFits(v: uint64)
    ensures IsVarint64(Encode(v))
  {
    EncodeIsVarint(v);
    EncodeLength(v, 10);
    assert Pow128(10) == 0x40_0000_0000_0000_0000;
    var b := Encode(v);
    if |b| == 10 {
      TenBytes(b);
    }
  }

  lemma TenBytes(w: seq<Byte>)
    requires |w| == 10
    ensures w[9] % 128 < 2 <==> Value(w) < TWO64
  {
    ValueSnoc(w[..9], w[9]);
    assert w == w[..9] + [w[9]];
    ValueBound(w[..9]);
    assert Pow128(9) == TWO63;
  }

  lemma Varint64Value(w: Varint64)
    ensures Value(w) < TWO64
  {
    if |w| == 10 {
      TenBytes(w);
    } else {
      ValueBound(w);
      Pow128Mono(|w|, 9);
      assert Pow128(9) == TWO63;
    }
  }

  lemma {:induction false} Pow128Mono(j: nat, k: nat)
    requires j <= k
    ensures Pow128(j) <= Pow128(k)
    decreases k
  {
    if j == k {
    } else {
      Pow128Mono(j, k - 1);
    }
  }

  // Groups of seven bits

  lemma {:induction false} SevenBits(k: nat)
    ensures Pow2(7 * k) == Pow128(k)
    decreases k
  {
    if k == 0 {
    } else {
      SevenBits(k - 1);
      var n := 7 * (k - 1);
      assert Pow2(n + 7) == 2 * Pow2(n + 6) == 4 * Pow2(n + 5) == 8 * Pow2(n + 4);
      assert Pow2(n + 4) == 2 * Pow2(n + 3) == 4 * Pow2(n + 2) == 16 * Pow2(n);
    }
  }

  lemma DivDiv(v: nat, p: nat)
    requires p >= 1
    ensures (v / p) / 128 == v / (128 * p)
  {
    var q, r := v / p, v % p;
    var h, m := q / 128, q % 128;
    var s := m * p;
    assert q * p == h * (128 * p) + s by {
      Distribute(h * 128, m, p);
      Associate(h, 128, p);
    }
    assert 0 <= s <= 127 * p by { Distribute(m, 127 - m, p); Product(m, p); Product(127 - m, p); }
    ModUnique(v, 128 * p, h, s + r);
  }

  function ToByte(x: int): Byte { x % 256 }

  /** `byte((v>>n)&0x7f | 0x80)` */
  function Low(v: uint64, n: nat): Byte { ToByte(LowSeven(Shr64(v, n))) }

  /** The encoding of a value shifted right by `k` groups: its last byte when the
      value fits in `k + 1` groups, and a continuation byte otherwise. */
  lemma Group(v: uint64, k: nat)
    ensures Encode(Shr64(v, 7 * k)) ==
            if v < Pow2(7 * (k + 1)) then [ToByte(Shr64(v, 7 * k))]
            else [Low(v, 7 * k)] + Encode(Shr64(v, 7 * (k + 1)))
  {
    Shifts(v, k);
    hide Pow2, Shr64;
    FirstByte(Shr64(v, 7 * k));
  }

  lemma FirstByte(q: nat)
    ensures Encode(q) == if q < 128 then [ToByte(q)] else [ToByte(LowSeven(q))] + Encode(q / 128)
  {
    LowSevenIs(q);
    hide LowSeven;
    if q >= 128 { assert ToByte(LowSeven(q)) == q % 128 + 128; }
  }

  lemma Shifts(v: uint64, k: nat)
    ensures Shr64(v, 7 * (k + 1)) == Shr64(v, 7 * k) / 128
    ensures Shr64(v, 7 * k) < 128 <==> v < Pow2(7 * (k + 1))
  {
    SevenBits(k);
    SevenBits(k + 1);
    hide Pow2;
    DivDiv(v, Pow128(k));
    DivLess(v, Pow128(k), 128);
  }

  lemma DivLess(v: nat, p: nat, n: nat)
    requires p >= 1
    ensures v / p < n <==> v < n * p
  {
    var q, r := v / p, v % p;
    var s, t := q * p, n * p;
    assert v == s + r;
    if q < n {
      Distribute(q + 1, n - 1 - q, p);
      Distribute(q, 1, p);
      Product(n - 1 - q, p);
    } else {
      Distribute(n, q - n, p);
      Product(q - n, p);
    }
  }

  // Reading inverts writing

  /** Any 64-bit varint, minimal or padded, is read back by both readers with
      its value and its length, whatever follows, and the size scan agrees. */
  lemma ReadVarint64(w: Varint64, rest: seq<Byte>)
    ensures GoRead(w + rest) == PyRead(w + rest) == Some(Sized(Value(w), |w|))
    ensures ScanSize(w + rest) == Some(|w|)
  {
    SpanThen(w, rest);
  }

  /** The Go reader accepts exactly the 64-bit varints. */
  lemma GoReadExact(b: seq<Byte>)
    ensures GoRead(b).Some? <==> exists n :: 1 <= n <= |b| && IsVarint64(b[..n])
    ensures forall n :: 1 <= n <= |b| && IsVarint64(b[..n]) ==>
              GoRead(b) == Some(Sized(Value(b[..n]), n))
  {
    if GoRead(b).Some? {
      var n := Span(b) + 1;
      SpanUnique(b[..n], n - 1);
      assert IsVarint64(b[..n]);
    }
    forall n | 1 <= n <= |b| && IsVarint64(b[..n])
      ensures GoRead(b) == Some(Sized(Value(b[..n]), n))
    {
      assert b == b[..n] + b[n..];
      ReadVarint64(b[..n], b[n..]);
    }
  }

  /** The two decoders differ only on ten-byte forms whose last byte is 2 to
      127: Go rejects those, and Python reads them as at least 2^64. */
  lemma ReadersDiffer(b: seq<Byte>)
    ensures GoRead(b).Some? ==> PyRead(b) == GoRead(b) && ScanSize(b) == Some(GoRead(b).value.size)
    ensures PyRead(b).Some? ==> ScanSize(b) == Some(PyRead(b).value.size)
    ensures PyRead(b).Some? && GoRead(b).None? <==>
              |b| >= 10 && (forall i :: 0 <= i < 9 ==> b[i] >= 128) && 2 <= b[9] < 128
    ensures PyRead(b).Some? ==> (GoRead(b).Some? <==> PyRead(b).value.value < TWO64)
    ensures PyRead(b).Some? ==> 1 <= PyRead(b).value.size <= 10 && PyRead(b).value.size <= |b|
  {
    var k := Span(b);
    if |b| >= 10 && (forall i :: 0 <= i < 9 ==> b[i] >= 128) && b[9] < 128 {
      SpanUnique(b, 9);
    }
    if PyRead(b).Some? {
      if k == 9 {
        TenBytes(b[..10]);
      } else {
        var w := b[..k + 1];
        SpanUnique(w, k);
        Varint64Value(w);
      }
    }
  }

  lemma EncodeHead(v: nat, first: Byte, rest: nat)
    requires v >= 128 && first >= 128 && v == first % 128 + 128 * rest
    ensures Encode(v) == [first] + Encode(rest)
  {
    assert v / 128 == rest && v % 128 + 128 == first;
  }

  /** The reference encoding is the only varint of its value that does not end
      in a zero group, so it is the shortest. */
  lemma {:induction false} EncodeIsMinimal(w: seq<Byte>)
    requires IsVarint(w)
    ensures |Encode(Value(w))| <= |w|
    ensures w == Encode(Value(w)) <==> |w| == 1 || w[|w| - 1] != 0
    decreases |w|
  {
    if |w| == 1 {
      assert w[1..] == [];
      assert w == [w[0]];
    } else {
      var t := w[1..];
      SpanUnique(t, |t| - 1);
      EncodeIsMinimal(t);
      assert t[|t| - 1] == w[|w| - 1];
      ValueHead(w);
      ValueHead(t);
      if Value(w) < 128 {
        assert Value(t) == 0;
        assert Encode(0) == [0];
      } else {
        EncodeHead(Value(w), w[0], Value(t));
        assert w == [w[0]] + t;
        hide Value, Encode;
        assert Encode(Value(w))[1..] == Encode(Value(t));
        if |t| == 1 { assert t[1..] == []; }
      }
    }
  }
}
