/**
 * The fixed-width C integer types used by the varint codec and the C operators
 * it applies to them (`&`, `|`, `^`, `<<`, `>>` and the conversions between
 * signed and unsigned 64-bit integers), written over unbounded integers.
 *
 * The bitwise operators are defined one bit at a time, least significant bit
 * first; the lemmas below turn the particular uses the codec makes of them
 * (masking low bits, testing one bit, OR-ing disjoint bit ranges, XOR with all
 * ones) into ordinary arithmetic.
 */
module Bits {

  const U8_MODULUS: nat := 0x100
  const U64_MODULUS: nat := 0x1_0000_0000_0000_0000

  /** C's uint8_t */
  type uint8 = x: int | 0 <= x < 0x100
  /** C's uint64_t */
  type uint64 = x: int | 0 <= x < 0x1_0000_0000_0000_0000
  /** C's int64_t (two's complement) */
  type int64 = x: int | -0x8000_0000_0000_0000 <= x < 0x8000_0000_0000_0000

  function Pow2(n: nat): (r: nat)
    ensures r >= 1
  {
    if n == 0 then 1 else 2 * Pow2(n - 1)
  }

  lemma {:induction false} Pow2Add(a: nat, b: nat)
    ensures Pow2(a + b) == Pow2(a) * Pow2(b)
  {
    if a > 0 {
      Pow2Add(a - 1, b);
    }
  }

  lemma Pow2Monotone(a: nat, b: nat)
    requires a <= b
    ensures Pow2(a) <= Pow2(b)
  {
    Pow2Add(a, b - a);
  }

  /** The powers of two the codec's bit positions reach. */
  lemma Pow2Values()
    ensures Pow2(1) == 2 && Pow2(7) == 0x80
    ensures Pow2(56) == 0x0100_0000_0000_0000
    ensures Pow2(63) == 0x8000_0000_0000_0000
    ensures Pow2(64) == U64_MODULUS
  {
    assert Pow2(7) == 0x80;
    Pow2Add(7, 7);
    Pow2Add(14, 14);
    Pow2Add(28, 28);
    Pow2Add(56, 7);
    Pow2Add(63, 1);
  }

  /** `a & b` */
  function BitAnd(a: nat, b: nat): (r: nat)
    ensures r <= a && r <= b
  {
    if a == 0 || b == 0 then 0
    else (if a % 2 == 1 && b % 2 == 1 then 1 else 0) + 2 * BitAnd(a / 2, b / 2)
  }

  /** `a | b` */
  function BitOr(a: nat, b: nat): (r: nat)
    ensures a <= r && b <= r && r <= a + b
  {
    if a == 0 then b
    else if b == 0 then a
    else (if a % 2 == 1 || b % 2 == 1 then 1 else 0) + 2 * BitOr(a / 2, b / 2)
  }

  /** `a ^ b` */
  function BitXor(a: nat, b: nat): (r: nat)
    ensures r <= a + b
  {
    if a == 0 then b
    else if b == 0 then a
    else (if a % 2 != b % 2 then 1 else 0) + 2 * BitXor(a / 2, b / 2)
  }

  /** `x << n` on uint64_t: the bits shifted past bit 63 are lost. C leaves n >= 64 undefined. */
  function Shl64(x: uint64, n: nat): (r: uint64)
    requires n < 64
  {
    (x * Pow2(n)) % U64_MODULUS
  }

  /** `x >> n` on an unsigned operand. */
  function Shr(x: nat, n: nat): (r: nat)
  {
    DivNonNegative(x, Pow2(n));
    x / Pow2(n)
  }

  lemma DivNonNegative(x: nat, d: nat)
    requires d >= 1
    ensures 0 <= x / d <= x
  {
  }

  /** `x >> n` on a signed operand, as an arithmetic shift (rounds toward minus infinity). */
  function Asr(x: int, n: nat): (r: int)
  {
    x / Pow2(n)
  }

  /** The conversion `(uint64_t) v` of a signed value: v modulo 2^64. */
  function ToU64(v: int64): (u: uint64)
  {
    if v < 0 then v + U64_MODULUS else v
  }

  /** The conversion of a uint64_t to int64_t, as two's complement reinterpretation. */
  function ToI64(u: uint64): (v: int64)
  {
    if u < 0x8000_0000_0000_0000 then u else u - U64_MODULUS
  }

  lemma ToU64ToI64(v: int64)
    ensures ToI64(ToU64(v)) == v
    ensures ToU64(v) % U64_MODULUS == v % U64_MODULUS
  {
  }

  /** `x & (2^k - 1)` keeps the k low bits. */
  lemma {:induction false} AndLowBits(x: nat, k: nat)
    ensures BitAnd(x, Pow2(k) - 1) == x % Pow2(k)
  {
    if k == 0 {
      assert Pow2(0) == 1;
    } else if x == 0 {
      var p := Pow2(k);
      assert BitAnd(0, p - 1) == 0;
      assert 0 % p == 0;
    } else {
      var m := Pow2(k - 1);
      assert Pow2(k) == 2 * m;
      AndOddMask(x, m);
      AndLowBits(x / 2, k - 1);
      DivModHalf(x, m);
    }
  }

  lemma AndOddMask(x: nat, m: nat)
    requires x > 0 && m >= 1
    ensures BitAnd(x, 2 * m - 1) == x % 2 + 2 * BitAnd(x / 2, m - 1)
  {
    var mask := 2 * m - 1;
    assert mask % 2 == 1 && mask / 2 == m - 1;
  }

  /** Dividing by 2m is halving, then dividing by m; the remainder splits into
      the lowest bit and the remainder of the half. */
  lemma DivModHalf(x: nat, m: nat)
    requires m >= 1
    ensures x / (2 * m) == (x / 2) / m
    ensures x % (2 * m) == x % 2 + 2 * ((x / 2) % m)
  {
    var h := x / 2;
    var q := h / m;
    var r := h % m;
    assert x == 2 * h + x % 2;
    assert h == m * q + r;
    MulAssoc(m, q, r);
    assert x == (2 * m) * q + (2 * r + x % 2);
    DivModUnique(x, 2 * m, q, 2 * r + x % 2);
  }

  lemma MulAssoc(m: int, q: int, r: int)
    ensures 2 * (m * q + r) == (2 * m) * q + 2 * r
  {
  }

  lemma DivModUnique(x: int, d: nat, q: int, r: int)
    requires d > 0 && 0 <= r < d && x == d * q + r
    ensures x / d == q && x % d == r
  {
    var k := x / d - q;
    assert d * k == r - x % d;
    if k > 0 {
      MulAtLeast(d, k);
    } else if k < 0 {
      MulAtLeast(d, -k);
    }
  }

  lemma MulLe(a: nat, b: nat, c: nat, d: nat)
    requires a <= b && c <= d
    ensures a * c <= b * d
  {
    assert a * c <= b * c;
    assert b * c <= b * d;
  }

  lemma MulAtLeast(d: nat, k: int)
    requires k >= 1
    ensures d * k >= d
  {
  }

  /** `x & 2^k` is zero exactly when bit k of x is clear. */
  lemma {:induction false} AndOneBit(x: nat, k: nat)
    ensures BitAnd(x, Pow2(k)) == 0 <==> (x / Pow2(k)) % 2 == 0
  {
    if k == 0 {
      assert Pow2(0) == 1;
    } else if x == 0 {
      var p := Pow2(k);
      assert BitAnd(0, p) == 0;
      assert 0 / p == 0;
    } else {
      var m := Pow2(k - 1);
      assert Pow2(k) == 2 * m;
      AndEvenMask(x, m);
      AndOneBit(x / 2, k - 1);
      DivModHalf(x, m);
    }
  }

  lemma AndEvenMask(x: nat, m: nat)
    requires x > 0 && m >= 1
    ensures BitAnd(x, 2 * m) == 2 * BitAnd(x / 2, m)
  {
  }

  /** OR-ing a value shifted above the k low bits into a value below 2^k adds it. */
  lemma {:induction false} OrDisjoint(a: nat, g: nat, k: nat)
    requires a < Pow2(k)
    ensures BitOr(a, g * Pow2(k)) == a + g * Pow2(k)
  {
    if k > 0 && a > 0 && g > 0 {
      var m := Pow2(k - 1);
      assert g * Pow2(k) == 2 * (g * m);
      OrDisjoint(a / 2, g, k - 1);
    }
  }

  /** XOR with n one-bits complements a value of n bits. */
  lemma {:induction false} XorAllOnes(a: nat, n: nat)
    requires a < Pow2(n)
    ensures BitXor(a, Pow2(n) - 1) == Pow2(n) - 1 - a
  {
    if n > 0 && a > 0 {
      var m := Pow2(n - 1);
      assert (Pow2(n) - 1) / 2 == m - 1;
      assert (Pow2(n) - 1) % 2 == 1;
      XorAllOnes(a / 2, n - 1);
    }
  }

  /** `v >> 63` on an int64 is all ones for a negative v and zero otherwise. */
  lemma AsrSign(v: int64)
    ensures Asr(v, 63) == if v < 0 then -1 else 0
  {
    Pow2Values();
  }
}
