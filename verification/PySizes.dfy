/** The Python size functions (shared/gremlin_py/gremlin/sizes.py). */
module PySizes {
  import opened Bits
  import opened Varint
  import opened ZigZag

  /** int.bit_length of a natural number. */
  function BitLength(n: nat): nat {
    if n == 0 then 0 else 1 + BitLength(n / 2)
  }

  function SizeVarInt(v: nat): nat {
    (BitLength(OrOne(v)) + 6) / 7
  }

  /** `value | 1` */
  function OrOne(v: nat): nat
    ensures OrOne(v) == if v % 2 == 0 then v + 1 else v
  {
    LowBit(v);
    Or(v, 1)
  }

  lemma LowBit(v: nat)
    ensures Or(v, 1) == if v % 2 == 0 then v + 1 else v
  {
    OrZero(v / 2);
    assert Or(v, 1) == 2 * Or(v / 2, 0) + OnBit(OrOp, v % 2, 1);
  }

  lemma SevenShifts(v: nat)
    requires v >= 128
    ensures BitLength(v) == 7 + BitLength(v / 128)
  {
    var a, b, c := v / 2, v / 4, v / 8;
    var d, e, f := v / 16, v / 32, v / 64;
    assert a / 2 == b && b / 2 == c && c / 2 == d && d / 2 == e && e / 2 == f && f / 2 == v / 128;
    assert BitLength(v) == 1 + BitLength(a) && BitLength(a) == 1 + BitLength(b);
    assert BitLength(b) == 1 + BitLength(c) && BitLength(c) == 1 + BitLength(d);
    assert BitLength(d) == 1 + BitLength(e) && BitLength(e) == 1 + BitLength(f);
  }

  /** The bit-length formula is the length of the varint, for every natural number. */
  lemma {:induction false} SizeVarIntIs(v: nat)
    ensures SizeVarInt(v) == |Encode(v)|
    decreases v
  {
    if v < 128 {
      SmallBits(OrOne(v));
    } else {
      SizeVarIntIs(v / 128);
      SevenShifts(OrOne(v));
      SameBits(v / 128);
      assert OrOne(v) / 128 == v / 128;
    }
  }

  lemma SmallBits(n: nat)
    requires 1 <= n < 128
    ensures 1 <= BitLength(n) <= 7
  {
    assert BitLength(n) == 1 + BitLength(n / 2);
    BitBound(n, 7);
  }

  lemma {:induction false} BitBound(n: nat, k: nat)
    requires n < Pow2(k)
    ensures BitLength(n) <= k
    decreases k
  {
    if n == 0 {
    } else {
      BitBound(n / 2, k - 1);
    }
  }

  /** Setting the lowest bit changes no length but that of 0. */
  lemma SameBits(v: nat)
    requires v >= 1
    ensures BitLength(OrOne(v)) == BitLength(v)
  {
    assert OrOne(v) / 2 == v / 2;
  }

  /** size_signed_varint is the length of what the writer emits for a signed value,
      and of the zigzag form of any value. */
  lemma SizeSignedIs(v: int)
    ensures PySizeZig(v) >= 0 && SizeVarInt(PySizeZig(v)) == |Encode(Zig(v))|
    ensures -TWO63 <= v < TWO63 ==> PyZig(v) >= 0 && SizeVarInt(PySizeZig(v)) == |Encode(PyZig(v))|
  {
    PySizeZigIs(v);
    PyZigZag(v);
    SizeVarIntIs(Zig(v));
  }

  /** The argument of size_varint in size_i32 and size_i64. */
  function SizeIntArg(v: int): int { if v >= 0 then v else v + TWO64 }

  /** size_i32 and size_i64 measure the varint that is written exactly on the range
      in which masking to 64 bits is adding 2^64 to a negative value. */
  lemma SizeIntIs(v: int)
    ensures SizeIntArg(v) == And(v, TWO64 - 1) <==> -TWO64 <= v < TWO64
    ensures -TWO64 <= v < TWO64 ==>
              SizeIntArg(v) >= 0 && And(v, TWO64 - 1) >= 0 &&
              SizeVarInt(SizeIntArg(v)) == |Encode(And(v, TWO64 - 1))|
  {
    Mask64(v);
    MaskedRange(v);
    if -TWO64 <= v < TWO64 {
      hide And, SizeVarInt, Encode;
      SizeVarIntIs(SizeIntArg(v));
    }
  }

  lemma Mask64(v: int)
    ensures And(v, TWO64 - 1) == v % TWO64
  {
    hide And, Pow2;
    WordSizes();
    AndMask(v, 64);
  }

  lemma MaskedRange(v: int)
    ensures SizeIntArg(v) == v % TWO64 <==> -TWO64 <= v < TWO64
    ensures v % TWO64 >= 0
  {
  }
}
