/** Bitwise operators on integers, and the machine integers of Go and Rust.

    `Bitwise` works on the infinite two's complement form of an `int`, which is
    what Python's operators do; on non-negative operands it is also what the
    operators of Go do. The lemmas reduce the masks and shifts used by the wire
    codec to arithmetic. */
module Bits {

  function Pow2(n: nat): (p: nat)
    ensures p >= 1
  {
    if n == 0 then 1 else 2 * Pow2(n - 1)
  }

  lemma {:induction false} Pow2Add(m: nat, n: nat)
    ensures Pow2(m + n) == Pow2(m) * Pow2(n)
    decreases m
  {
    if m == 0 {
    } else {
      Pow2Add(m - 1, n);
      Associate(2, Pow2(m - 1), Pow2(n));
      assert Pow2(m) == 2 * Pow2(m - 1) && Pow2(m + n) == 2 * Pow2(m - 1 + n);
    }
  }

  lemma FourMore(n: nat)
    ensures Pow2(n + 4) == 16 * Pow2(n)
  {
    assert Pow2(n + 2) == 4 * Pow2(n);
  }

  lemma EightMore(n: nat)
    ensures Pow2(n + 8) == 256 * Pow2(n)
  {
    FourMore(n);
    FourMore(n + 4);
  }

  lemma WordSizes()
    ensures Pow2(32) == TWO32 && Pow2(63) == TWO63 && Pow2(64) == TWO64
  {
    var n := 0;
    EightMore(n);
    EightMore(n + 8);
    EightMore(n + 16);
    EightMore(n + 24);
    EightMore(n + 32);
    EightMore(n + 40);
    EightMore(n + 48);
    assert Pow2(56) == 0x100_0000_0000_0000;
    assert Pow2(64) == 256 * Pow2(56);
  }

  lemma EightBits()
    ensures Pow2(8) == 256
  {
  }

  datatype BitOp = AndOp | OrOp | XorOp

  function OnBit(op: BitOp, x: int, y: int): (r: int)
    requires 0 <= x <= 1 && 0 <= y <= 1
    ensures 0 <= r <= 1
  {
    match op
    case AndOp => if x == 1 && y == 1 then 1 else 0
    case OrOp => if x == 1 || y == 1 then 1 else 0
    case XorOp => if x != y then 1 else 0
  }

  function Abs(a: int): nat { if a < 0 then -a else a }

  function Bitwise(op: BitOp, a: int, b: int): int
    decreases Abs(a) + Abs(b)
  {
    if -1 <= a <= 0 && -1 <= b <= 0 then
      -OnBit(op, -a, -b)
    else
      2 * Bitwise(op, a / 2, b / 2) + OnBit(op, a % 2, b % 2)
  }

  function And(a: int, b: int): int { Bitwise(AndOp, a, b) }

  function Or(a: int, b: int): int { Bitwise(OrOp, a, b) }

  function Xor(a: int, b: int): int { Bitwise(XorOp, a, b) }

  lemma HalfLess(a: int)
    ensures Abs(a / 2) <= Abs(a) && (a < -1 || a > 0 ==> Abs(a / 2) < Abs(a))
  {
  }

  /** The two ways to look at any operands: bit by bit, or as all ones or zeros. */
  lemma Halves(op: BitOp, a: int, b: int)
    ensures Bitwise(op, a, b) == 2 * Bitwise(op, a / 2, b / 2) + OnBit(op, a % 2, b % 2)
    ensures -1 <= a <= 0 && -1 <= b <= 0 ==> Bitwise(op, a, b) == -OnBit(op, -a, -b)
  {
  }

  lemma {:induction false} AndZero(a: int)
    ensures And(a, 0) == 0
    decreases Abs(a)
  {
    hide Bitwise;
    Halves(AndOp, a, 0);
    if -1 <= a <= 0 {
    } else {
      AndZero(a / 2);
    }
  }

  lemma HalfMod(a: int, p: int)
    requires p >= 1
    ensures a % (2 * p) == 2 * ((a / 2) % p) + a % 2
  {
    var h := a / 2;
    var q, r := h / p, h % p;
    assert a == 2 * h + a % 2;
    assert h == q * p + r;
    assert a == q * (2 * p) + (2 * r + a % 2);
    ModUnique(a, 2 * p, q, 2 * r + a % 2);
  }

  lemma MulAtLeast(d: int, m: int)
    requires d >= 1 && m >= 1
    ensures d * m >= m
  {
    assert d * m == (d - 1) * m + m;
  }

  lemma Distribute(a: int, b: int, c: int)
    ensures (a + b) * c == a * c + b * c
  {
  }

  lemma Product(a: nat, b: nat)
    ensures a * b >= 0
  {
  }

  lemma Associate(a: int, b: int, c: int)
    ensures (a * b) * c == a * (b * c)
  {
  }

  /** The quotient and remainder of a positive divisor are determined by their
      defining equation. */
  lemma ModUnique(a: int, m: int, q: int, r: int)
    requires m >= 1 && 0 <= r < m && a == q * m + r
    ensures a % m == r && a / m == q
  {
    var d := a / m - q;
    assert d * m == r - a % m by {
      assert a == (a / m) * m + a % m;
    }
    assert (-d) * m == -(d * m);
    if d >= 1 { MulAtLeast(d, m); }
    if d <= -1 { MulAtLeast(-d, m); }
  }

  lemma AndOdd(a: int, m: nat)
    ensures And(a, 2 * m + 1) == 2 * And(a / 2, m) + a % 2
  {
    hide Bitwise;
    Halves(AndOp, a, 2 * m + 1);
    assert (2 * m + 1) / 2 == m && (2 * m + 1) % 2 == 1;
  }

  /** A mask of `k` ones keeps the value modulo `2^k`, negative values included. */
  lemma {:induction false} AndMask(a: int, k: nat)
    ensures And(a, Pow2(k) - 1) == a % Pow2(k)
    decreases k
  {
    hide And;
    if k == 0 {
      AndZero(a);
    } else {
      var p := Pow2(k - 1);
      AndMask(a / 2, k - 1);
      AndOdd(a, p - 1);
      HalfMod(a, p);
    }
  }

  lemma {:induction false} OrZero(a: int)
    ensures Or(a, 0) == a && Or(0, a) == a
    decreases Abs(a)
  {
    hide Bitwise;
    Halves(OrOp, a, 0);
    Halves(OrOp, 0, a);
    if -1 <= a <= 0 {
    } else {
      OrZero(a / 2);
    }
  }

  lemma OrEven(a: int, c: int)
    ensures Or(a, 2 * c) == 2 * Or(a / 2, c) + a % 2
    ensures Or(2 * c, a) == 2 * Or(c, a / 2) + a % 2
  {
    hide Bitwise;
    Halves(OrOp, a, 2 * c);
    Halves(OrOp, 2 * c, a);
    assert (2 * c) / 2 == c && (2 * c) % 2 == 0;
  }

  /** Or-ing a value shifted past the other operand's bits adds it. */
  lemma {:induction false} OrShifted(a: int, b: int, k: nat)
    requires 0 <= a < Pow2(k)
    ensures Or(a, b * Pow2(k)) == a + b * Pow2(k)
    ensures Or(b * Pow2(k), a) == a + b * Pow2(k)
    decreases k
  {
    if k == 0 {
      OrZero(b);
    } else {
      var c := b * Pow2(k - 1);
      OrShifted(a / 2, b, k - 1);
      assert b * Pow2(k) == 2 * c;
      hide Or, Pow2;
      OrEven(a, c);
    }
  }

  lemma {:induction false} XorZero(a: int)
    ensures Xor(a, 0) == a
    decreases Abs(a)
  {
    hide Bitwise;
    Halves(XorOp, a, 0);
    if -1 <= a <= 0 {
    } else {
      XorZero(a / 2);
    }
  }

  lemma {:induction false} XorMinusOne(a: int)
    ensures Xor(a, -1) == -a - 1
    decreases Abs(a)
  {
    hide Bitwise;
    Halves(XorOp, a, -1);
    if -1 <= a <= 0 {
    } else {
      XorMinusOne(a / 2);
    }
  }

  /** Flipping all `k` bits of a `k`-bit value. */
  lemma {:induction false} XorOnes(a: int, k: nat)
    requires 0 <= a < Pow2(k)
    ensures Xor(a, Pow2(k) - 1) == Pow2(k) - 1 - a
    decreases k
  {
    hide Bitwise;
    Halves(XorOp, a, Pow2(k) - 1);
    if k == 0 {
    } else {
      var p := Pow2(k - 1);
      XorOnes(a / 2, k - 1);
      assert (2 * p - 1) / 2 == p - 1 && (2 * p - 1) % 2 == 1;
    }
  }

  /** `(v & 0x7F) | 0x80`, the continuation byte of every varint writer. */
  function LowSeven(v: int): int { Or(And(v, 0x7F), 0x80) }

  lemma LowSevenIs(v: int)
    ensures LowSeven(v) == v % 128 + 128
  {
    SevenOnes();
    hide Or, And, Pow2;
    AndMask(v, 7);
    OrShifted(v % 128, 1, 7);
  }

  lemma SevenOnes()
    ensures Pow2(7) == 128
  {
  }

  // Machine integers

  const TWO31: int := 0x8000_0000
  const TWO32: int := 0x1_0000_0000
  const TWO63: int := 0x8000_0000_0000_0000
  const TWO64: int := 0x1_0000_0000_0000_0000

  type Byte = x: int | 0 <= x < 256
  type uint32 = x: int | 0 <= x < TWO32
  type uint64 = x: int | 0 <= x < TWO64
  type int32 = x: int | -TWO31 <= x < TWO31
  type int64 = x: int | -TWO63 <= x < TWO63

  /** Conversions between machine integers: keep the low bits. */
  function ToUint32(x: int): uint32 { x % TWO32 }
  function ToUint64(x: int): uint64 { x % TWO64 }
  function ToInt32(x: int): int32 { (x + TWO31) % TWO32 - TWO31 }
  function ToInt64(x: int): int64 { (x + TWO63) % TWO64 - TWO63 }

  lemma Convert32(i: int32)
    ensures ToInt32(ToUint32(i)) == i && ToInt32(ToUint64(i)) == i && ToInt32(i) == i
  {
    assert TWO64 == TWO32 * TWO32;
    var q32, q64 := if i < 0 then 1 else 0, if i < 0 then TWO32 else 0;
    ModUnique(i, TWO32, -q32, i + q32 * TWO32);
    ModUnique(i, TWO64, -q32, i + q32 * TWO64);
    ModUnique(i + TWO31, TWO32, 0, i + TWO31);
    ModUnique(i + q32 * TWO32 + TWO31, TWO32, q32, i + TWO31);
    ModUnique(i + q32 * TWO64 + TWO31, TWO32, q64, i + TWO31);
  }

  lemma Convert64(l: int64)
    ensures ToInt64(ToUint64(l)) == l && ToInt64(l) == l
  {
  }

  /** `x << n` and `x >> n` on uint64. */
  function Shl64(x: int, n: nat): uint64 { ToUint64(x * Pow2(n)) }

  function Shr64(x: uint64, n: nat): nat {
    QuotientNat(x, Pow2(n));
    x / Pow2(n)
  }

  lemma QuotientNat(x: nat, p: nat)
    requires p >= 1
    ensures x / p >= 0
  {
    var q := x / p;
    if q < 0 {
      Distribute(-q, q, p);
      MulAtLeast(-q, p);
    }
  }

  /** The `n` low bytes of a value, least significant first. */
  function LittleEndian(x: nat, n: nat): (b: seq<Byte>)
    ensures |b| == n
  {
    if n == 0 then [] else [x % 256] + LittleEndian(x / 256, n - 1)
  }
}
