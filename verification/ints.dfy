/** Fixed-width machine integers of the C++ source, as bounded mathematical
    integers. Wrap-around and truncation are always written out explicitly
    where the source relies on them. */
module Ints {

  type byte = x: int | 0 <= x < 0x100
  type u16 = x: int | 0 <= x < 0x1_0000
  type u32 = x: int | 0 <= x < 0x1_0000_0000
  type u64 = x: int | 0 <= x < 0x1_0000_0000_0000_0000
  type i32 = x: int | -0x8000_0000 <= x < 0x8000_0000
  type i64 = x: int | -0x8000_0000_0000_0000 <= x < 0x8000_0000_0000_0000

  const TWO_32: int := 0x1_0000_0000
  const TWO_64: int := 0x1_0000_0000_0000_0000

  /** 256 to the power n: the number of values an n-byte integer can hold. */
  function Pow256(n: nat): (r: nat)
    ensures r >= 1
  {
    if n == 0 then 1 else 256 * Pow256(n - 1)
  }

  lemma Pow256Values()
    ensures Pow256(2) == 0x1_0000 && Pow256(4) == TWO_32 && Pow256(8) == TWO_64
  {
  }

  /** 2 to the power n. */
  function Pow2(n: nat): (r: nat)
    ensures r >= 1
  {
    if n == 0 then 1 else 2 * Pow2(n - 1)
  }

  /** Truncation of an unbounded integer to 32 bits (a C++ cast to uint32_t). */
  function U32(x: int): u32 {
    x % TWO_32
  }

  /** Truncation of an unbounded integer to 64 bits (a C++ cast to uint64_t). */
  function U64(x: int): u64 {
    x % TWO_64
  }

  /** Two's-complement reinterpretation of a 32-bit pattern (a cast to int32_t). */
  function ToSigned32(x: u32): i32 {
    if x < 0x8000_0000 then x else x - TWO_32
  }

  /** Two's-complement reinterpretation of a 64-bit pattern (a cast to int64_t). */
  function ToSigned64(x: u64): i64 {
    if x < 0x8000_0000_0000_0000 then x else x - TWO_64
  }

  /** Bitwise exclusive or of two bytes. */
  function XorByte(a: byte, b: byte): byte {
    ((a as bv8) ^ (b as bv8)) as byte
  }

  /** A byte read as eight bits and back is the same number. */
  lemma ByteAsBits(x: byte)
    ensures (x as bv8) as int == x
  {
    // Splitting the range keeps the solver's bit-vector search small.
    if x < 32 {
    } else if x < 64 {
    } else if x < 96 {
    } else if x < 128 {
    } else if x < 160 {
    } else if x < 192 {
    } else if x < 224 {
    } else {
    }
  }

  /** Arithmetic facts the solver does not find alone. */
  lemma MulLe(x: int, y: int, a: nat)
    requires x <= y
    ensures x * a <= y * a
  {
  }

  lemma DivUnique(v: int, a: int, x: int, y: int)
    requires a > 0 && 0 <= y < a && v == x * a + y
    ensures v / a == x && v % a == y
  {
    var k := x - v / a;
    assert k * a == v % a - y;
    if k >= 1 {
      MulLe(1, k, a);
      assert false;
    }
    if k <= -1 {
      MulLe(k, -1, a);
      assert false;
    }
  }

  lemma ModAddMod(x: nat, y: nat, m: nat)
    requires m > 0
    ensures (x % m + y) % m == (x + y) % m
  {
    DivUnique(x + y, m, x / m + (x % m + y) / m, (x % m + y) % m);
  }

  lemma DivDiv(v: nat, a: nat, b: nat)
    requires a > 0 && b > 0
    ensures v / a / b == v / (a * b)
  {
    var q := v / (a * b);
    var r := v % (a * b);
    assert v == (q * b + r / a) * a + r % a;
    DivUnique(v, a, q * b + r / a, r % a);
    assert r / a * a <= r;
    if r / a >= b {
      MulLe(b, r / a, a);
      assert false;
    }
    DivUnique(v / a, b, q, r / a);
  }
}
