/** The zigzag mapping of signed to unsigned integers (section "Signed Integers"
    of the Protocol Buffers Encoding specification), as each implementation
    computes it with shifts and exclusive or. */
module ZigZag {
  import opened Bits

  /** The mapping itself: 0, -1, 1, -2, ... to 0, 1, 2, 3, ... */
  function Zig(v: int): nat { if v >= 0 then 2 * v else -2 * v - 1 }

  // Go: 64-bit shifts

  /** `uint64(v<<1) ^ uint64(v>>63)` */
  function GoZig(v: int64): int {
    Xor(ToUint64(ToInt64(v * 2)), ToUint64(v / TWO63))
  }

  /** `int64(v>>1) ^ int64(v)<<63>>63` */
  function GoZag(n: uint64): int {
    Xor(ToInt64(n / 2), ToInt64(ToInt64(n) * TWO63) / TWO63)
  }

  // Python: unbounded integers

  /** `(v << 1) ^ (v >> 63)` */
  function PyZig(v: int): int { Xor(v * 2, v / TWO63) }

  /** `(value >> 1) ^ (-(value & 1))` */
  function PyZag(n: int): int { Xor(n / 2, -And(n, 1)) }

  /** The argument of size_varint in size_signed_varint. */
  function PySizeZig(v: int): int { if v >= 0 then v * 2 else Xor(v * 2, -1) }

  lemma PySizeZigIs(v: int)
    ensures PySizeZig(v) == Zig(v)
  {
    XorMinusOne(v * 2);
  }

  lemma GoZigIs(v: int64)
    ensures GoZig(v) == Zig(v)
  {
    hide Xor, Pow2;
    var x := ToUint64(ToInt64(v * 2));
    if v >= 0 {
      assert x == 2 * v;
      XorZero(x);
    } else {
      assert x == 2 * v + TWO64;
      WordSizes();
      XorOnes(x, 64);
    }
  }

  lemma GoZagIs(n: uint64)
    ensures GoZag(n) == if n % 2 == 0 then n / 2 else -(n / 2) - 1
  {
    var q := n / 2;
    assert ToInt64(q) == q;
    ShiftedParity(n);
    XorZero(q);
    XorMinusOne(q);
  }

  lemma ShiftedParity(n: uint64)
    ensures ToInt64(ToInt64(n) * TWO63) / TWO63 == -(n % 2)
  {
    var m := ToInt64(n);
    var h, r := m / 2, m % 2;
    assert r == n % 2;
    assert m * TWO63 == h * TWO64 + r * TWO63;
    ModUnique(m * TWO63 + TWO63, TWO64, if r == 0 then h else h + 1, if r == 0 then TWO63 else 0);
  }

  lemma PyZagIs(n: nat)
    ensures PyZag(n) == if n % 2 == 0 then n / 2 else -(n / 2) - 1
  {
    assert Pow2(1) == 2;
    AndMask(n, 1);
    XorZero(n / 2);
    XorMinusOne(n / 2);
  }

  /** Reading back a signed varint, in Go. */
  lemma GoZigZag(v: int64)
    ensures 0 <= GoZig(v) < TWO64 && GoZag(GoZig(v)) == v
  {
    hide GoZig, GoZag;
    GoZigIs(v);
    GoZagIs(GoZig(v));
  }

  /** Python's writer agrees with the mapping, with its own size function and
      with its own reader exactly on the signed 64-bit integers. */
  lemma PyZigZag(v: int)
    ensures PyZig(v) == Zig(v) <==> -TWO63 <= v < TWO63
    ensures PyZig(v) == PySizeZig(v) <==> -TWO63 <= v < TWO63
    ensures PyZag(PyZig(v)) == v <==> -TWO63 <= v < TWO63
    ensures -TWO63 <= v < TWO63 ==> PyZig(v) == GoZig(v)
  {
    hide PyZig, Zig, PyZag, GoZig, Xor, PySizeZig;
    PySizeZigIs(v);
    PyZigIs(v);
    ZagOfZig(v);
    if -TWO63 <= v < TWO63 { GoZigIs(v); }
  }

  lemma PyZigIs(v: int)
    ensures PyZig(v) == Zig(v) <==> -TWO63 <= v < TWO63
    ensures PyZig(v) >= 0
  {
    hide Xor;
    XorZero(v * 2);
    XorMinusOne(v * 2);
    var s := if v >= 0 then 0 else -1;
    SignOf(v);
    if PyZig(v) == Zig(v) { XorInjective(v * 2, v / TWO63, s); }
    PyZigSign(v * 2, v / TWO63);
  }

  lemma SignOf(v: int)
    ensures v / TWO63 == (if v >= 0 then 0 else -1) <==> -TWO63 <= v < TWO63
    ensures v * 2 >= 0 <==> v / TWO63 >= 0
  {
  }

  /** Decoding undoes the mapping, and nothing else that is a natural number. */
  lemma ZagOfZig(v: int)
    ensures PyZig(v) >= 0 ==> (PyZag(PyZig(v)) == v <==> PyZig(v) == Zig(v))
  {
    hide PyZig, PyZag;
    if PyZig(v) >= 0 { PyZagIs(PyZig(v)); }
  }

  /** Operands of the same sign give a natural number. */
  lemma {:induction false} PyZigSign(a: int, b: int)
    requires a >= 0 <==> b >= 0
    ensures Xor(a, b) >= 0
    decreases Abs(a) + Abs(b)
  {
    if -1 <= a <= 0 && -1 <= b <= 0 {
    } else {
      Halves(XorOp, a, b);
      hide Bitwise;
      PyZigSign(a / 2, b / 2);
    }
  }

  lemma {:induction false} XorInjective(a: int, b: int, c: int)
    requires Xor(a, b) == Xor(a, c)
    ensures b == c
    decreases Abs(a) + Abs(b) + Abs(c)
  {
    hide Bitwise, Abs;
    Halves(XorOp, a, b);
    Halves(XorOp, a, c);
    HalfLess(a);
    HalfLess(b);
    HalfLess(c);
    if -1 <= a <= 0 && -1 <= b <= 0 && -1 <= c <= 0 {
    } else {
      XorInjective(a / 2, b / 2, c / 2);
    }
  }
}
