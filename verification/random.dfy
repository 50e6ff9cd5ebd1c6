/** `Random` and the random helpers: the xorshift64* generator, the
    integers in a range drawn from it, and the random strings, UUIDs and
    ids built from bytes of the system's secure generator. The secure
    generator's bytes are a parameter; the floating-point draws are left
    out. */
module Random {
  import opened Ints
  import opened Wrappers

  // ---------------------------------------------------------------------
  // The xorshift64* generator

  const MULTIPLIER := 2685821657736338717

  /** The inverse of the multiplier modulo 2^64 (the multiplier is odd):
      their product is 1 + 934034299265436267·2^64. */
  const MULTIPLIER_INVERSE := 6415128727920758069

  lemma Inverse()
    ensures MULTIPLIER * MULTIPLIER_INVERSE == 1 + 934034299265436267 * TWO_64
  {
  }

  /** The generator: its 64-bit state. */
  datatype Rng = Rng(state: bv64)

  /** The constructor as written: the seed becomes the state, 0 included. */
  function NewRandomAsWritten(seed: bv64): (g: Rng)
    ensures g.state == seed
  {
    Rng(seed)
  }

  /** The constructor with the seed 0 excluded, as the comment on
      `next_output` ("outputs a nonzero 64-bit random number") needs. */
  function NewRandom(seed: bv64): (g: Rng)
    requires seed != 0
    ensures g.state == seed && g.state != 0
  {
    Rng(seed)
  }

  /** One xor-shift of the state, which loses no bits. */
  function XorShiftRight(s: bv64, k: bv64): (t: bv64)
    requires 0 < k < 64
    ensures t == 0 <==> s == 0
  {
    s ^ (s >> k)
  }

  function XorShiftLeft(s: bv64, k: bv64): (t: bv64)
    requires 0 < k < 64
    ensures t == 0 <==> s == 0
  {
    s ^ (s << k)
  }

  /** The three xor-shifts of `next_output`: right 12, left 25, right 27.
      The state is zero after them exactly when it was zero before. */
  function Shuffle(s: bv64): (t: bv64)
    ensures t == 0 <==> s == 0
  {
    XorShiftRight(XorShiftLeft(XorShiftRight(s, 12), 25), 27)
  }

  /** The final multiplication modulo 2^64. The multiplier is odd, so it
      has an inverse and multiplying by that undoes the product: no two
      states give the same output, and only the zero state gives 0. */
  function Scramble(a: u64): (x: u64)
    ensures x * MULTIPLIER_INVERSE % TWO_64 == a
    ensures x == 0 <==> a == 0
  {
    ProductInverse(a);
    a * MULTIPLIER % TWO_64
  }

  lemma ProductInverse(a: u64)
    ensures (a * MULTIPLIER % TWO_64) * MULTIPLIER_INVERSE % TWO_64 == a
  {
    var q := a * MULTIPLIER / TWO_64;
    var x := a * MULTIPLIER % TWO_64;
    assert x == a * MULTIPLIER - q * TWO_64;
    Inverse();
    assert x * MULTIPLIER_INVERSE == a + (a * 934034299265436267 - q * MULTIPLIER_INVERSE) * TWO_64;
    DivUnique(x * MULTIPLIER_INVERSE, TWO_64, a * 934034299265436267 - q * MULTIPLIER_INVERSE, a);
  }

  /** The state as an unsigned number. */
  function Value(s: bv64): (a: u64)
    ensures a == 0 <==> s == 0
  {
    s as int
  }

  /** A value drawn and the generator after the draw. */
  datatype Draw<T> = Draw(value: T, rng: Rng)

  /** `next_output`: shuffle the state, then return the scrambled new
      state. Output and new state are non-zero exactly when the old state
      was. */
  function NextOutput(g: Rng): (d: Draw<u64>)
    ensures d.rng.state != 0 <==> g.state != 0
    ensures d.value != 0 <==> g.state != 0
  {
    var s := Shuffle(g.state);
    Draw(Scramble(Value(s)), Rng(s))
  }

  /** One step from the state 1, worked out by hand: the shuffled state is
      2^25 + 1. */
  lemma NextOutputFromOne()
    ensures NextOutput(Rng(1)) == Draw(5180492295206395165, Rng(33554433))
  {
    assert Shuffle(1) == 33554433;
    assert Value(33554433) == 33554433;
    assert 33554433 * MULTIPLIER % TWO_64 == 5180492295206395165;
  }

  /** The first `n` outputs of a generator. */
  function Outputs(g: Rng, n: nat): (xs: seq<u64>)
    ensures |xs| == n
    decreases n
  {
    if n == 0 then [] else var d := NextOutput(g); [d.value] + Outputs(d.rng, n - 1)
  }

  /** A non-zero state gives only non-zero outputs, however many are
      drawn. */
  lemma {:induction false} OutputsNonZero(g: Rng, n: nat)
    requires g.state != 0
    ensures forall i :: 0 <= i < n ==> Outputs(g, n)[i] != 0
    decreases n
  {
    if n > 0 {
      var d := NextOutput(g);
      OutputsNonZero(d.rng, n - 1);
      assert forall i :: 1 <= i < n ==> Outputs(g, n)[i] == Outputs(d.rng, n - 1)[i - 1];
    }
  }

  /** The generator built by the corrected constructor never outputs 0. */
  lemma NewRandomOutputsNonZero(seed: bv64, n: nat)
    requires seed != 0
    ensures forall i :: 0 <= i < n ==> Outputs(NewRandom(seed), n)[i] != 0
  {
    OutputsNonZero(NewRandom(seed), n);
  }

  /** The constructor as written takes the seed 0, and that generator
      outputs nothing but 0. */
  lemma {:induction false} SeedZeroOutputsZero(n: nat)
    ensures forall i :: 0 <= i < n ==> Outputs(NewRandomAsWritten(0), n)[i] == 0
  {
    ZeroStateOutputsZero(NewRandomAsWritten(0), n);
  }

  lemma {:induction false} ZeroStateOutputsZero(g: Rng, n: nat)
    requires g.state == 0
    ensures forall i :: 0 <= i < n ==> Outputs(g, n)[i] == 0
    decreases n
  {
    if n > 0 {
      var d := NextOutput(g);
      ZeroStateOutputsZero(d.rng, n - 1);
      assert forall i :: 1 <= i < n ==> Outputs(g, n)[i] == Outputs(d.rng, n - 1)[i - 1];
    }
  }

  // ---------------------------------------------------------------------
  // Integers from the generator

  /** The low 32 bits of an output, as the source's `uint32_t` cast keeps
      them. */
  function Low32(v: u64): (x: u32)
  {
    v % TWO_32
  }

  /** `rand<T>()` for an integer type of `bits` bits (at most 32): the
      output truncated to the type, read as signed for a signed type. The
      value is the one of the type's range that agrees with the output in
      its low `bits` bits. */
  function RandInt(g: Rng, bits: nat, signed: bool): (d: Draw<int>)
    requires 1 <= bits <= 32
    ensures !signed ==> 0 <= d.value < Pow2(bits)
    ensures signed ==> -(Pow2(bits - 1) as int) <= d.value < Pow2(bits - 1)
    ensures (d.value - Low32(NextOutput(g).value)) % Pow2(bits) == 0
    ensures d.rng == NextOutput(g).rng
  {
    var out := NextOutput(g);
    var p := Pow2(bits);
    var u := Low32(out.value) % p;
    Congruent(Low32(out.value), p);
    Draw(if signed && u >= p / 2 then u - p else u, out.rng)
  }

  /** The remainder, and the remainder less the modulus, agree with the
      number modulo the modulus. */
  lemma Congruent(x: int, m: int)
    requires m > 0
    ensures (x % m - x) % m == 0 && (x % m - m - x) % m == 0
  {
    DivUnique(x % m - x, m, -(x / m), 0);
    DivUnique(x % m - m - x, m, -(x / m) - 1, 0);
  }

  /** The scaling of `rand(t)`: a 32-bit value times t + 1, shifted down
      32 bits. */
  function ScaleToRange(x: u32, t: u32): (r: u32)
    ensures r <= t
  {
    MulLt(x, TWO_32, t + 1);
    x * (t + 1) / TWO_32
  }

  lemma MulLt(x: nat, y: nat, a: nat)
    requires x < y && a > 0
    ensures x * a < y * a
  {
  }

  /** A larger value never scales to a smaller one. */
  lemma ScaleMonotone(x: u32, y: u32, t: u32)
    requires x <= y
    ensures ScaleToRange(x, t) <= ScaleToRange(y, t)
  {
    MulLe(x, y, t + 1);
  }

  /** Every value of [0, t] is reached: the least 32-bit value that scales
      to `k` is the ceiling of k·2^32 / (t + 1). */
  lemma ScaleReaches(k: u32, t: u32)
    requires k <= t
    ensures var x := (k * TWO_32 + t) / (t + 1);
            x < TWO_32 && ScaleToRange(x, t) == k
  {
    var x := (k * TWO_32 + t) / (t + 1);
    var rem := (k * TWO_32 + t) % (t + 1);
    assert x * (t + 1) + rem == k * TWO_32 + t;
    assert k * TWO_32 <= x * (t + 1) < k * TWO_32 + TWO_32;
    MulLe(k, t, TWO_32);
    if x >= TWO_32 {
      MulLe(TWO_32, x, t + 1);
      assert false;
    }
    DivUnique(x * (t + 1), TWO_32, k, x * (t + 1) - k * TWO_32);
  }

  /** `rand(t)`: a number in [0, t] from the low 32 bits of one output. */
  function RandUpTo(g: Rng, t: u32): (d: Draw<u32>)
    ensures d.value <= t && d.rng == NextOutput(g).rng
    ensures d.value == ScaleToRange(Low32(NextOutput(g).value), t)
  {
    var out := NextOutput(g);
    Draw(ScaleToRange(Low32(out.value), t), out.rng)
  }

  /** With the widest range, `rand(t)` is the low 32 bits of the output
      unchanged. */
  lemma RandUpToFullRange(g: Rng)
    ensures RandUpTo(g, TWO_32 - 1).value == Low32(NextOutput(g).value)
  {
    var x := Low32(NextOutput(g).value);
    DivUnique(x * TWO_32, TWO_32, x, 0);
  }

  /** `rand(low, high)` on unsigned values: `rand(high - low) + low` in
      32-bit arithmetic. In [low, high] when low <= high; when low > high
      the range wraps round, and the value is at least low or at most high. */
  function RandBetween(g: Rng, low: u32, high: u32): (d: Draw<u32>)
    ensures low <= high ==> low <= d.value <= high
    ensures low > high ==> d.value >= low || d.value <= high
    ensures d.rng == NextOutput(g).rng
  {
    var r := RandUpTo(g, U32(high - low));
    WrapBetween(low, high, r.value);
    Draw(U32(r.value + low), r.rng)
  }

  /** Adding `low` back to a number no larger than the width lands in
      [low, high], or in the wrapped range when low > high. */
  lemma WrapBetween(low: u32, high: u32, r: u32)
    requires r <= U32(high - low)
    ensures low <= high ==> low <= U32(r + low) <= high
    ensures low > high ==> U32(r + low) >= low || U32(r + low) <= high
  {
    if low <= high {
      DivUnique(high - low, TWO_32, 0, high - low);
      DivUnique(r + low, TWO_32, 0, r + low);
    } else {
      DivUnique(high - low, TWO_32, -1, high - low + TWO_32);
      if r + low < TWO_32 {
        DivUnique(r + low, TWO_32, 0, r + low);
      } else {
        DivUnique(r + low, TWO_32, 1, r + low - TWO_32);
      }
    }
  }

  /** `rand(low, high)` on signed values: the width high - low is taken in
      64 bits and cast to 32, and the sum cast back to a signed 32-bit
      value. In [low, high] when low <= high. */
  function RandBetweenSigned(g: Rng, low: i32, high: i32): (d: Draw<i32>)
    ensures low <= high ==> low <= d.value <= high
    ensures d.rng == NextOutput(g).rng
  {
    var r := RandUpTo(g, U32(high - low));
    SignedBetween(low, high, r.value);
    Draw(ToSigned32(U32(r.value + low)), r.rng)
  }

  lemma SignedBetween(low: i32, high: i32, r: u32)
    requires r <= U32(high - low)
    ensures low <= high ==> low <= ToSigned32(U32(r + low)) <= high
  {
    if low <= high {
      DivUnique(high - low, TWO_32, 0, high - low);
      SignedRoundTrip(r + low);
    }
  }

  /** A value of the signed 32-bit range survives the trip through the
      unsigned one. */
  lemma SignedRoundTrip(v: int)
    requires -0x8000_0000 <= v < 0x8000_0000
    ensures ToSigned32(U32(v)) == v
  {
    if v < 0 {
      DivUnique(v, TWO_32, -1, v + TWO_32);
    }
  }

  /** `rand<bool>()`: `rand(0, 1) == 1`. */
  function RandBool(g: Rng): (d: Draw<bool>)
    ensures d.value <==> RandBetweenSigned(g, 0, 1).value == 1
    ensures d.value <==> Low32(NextOutput(g).value) >= 0x8000_0000
  {
    var r := RandBetweenSigned(g, 0, 1);
    ScaleToTwo(Low32(NextOutput(g).value));
    Draw(r.value == 1, r.rng)
  }

  /** Scaled to [0, 1], a value is its top bit. */
  lemma ScaleToTwo(x: u32)
    ensures ScaleToRange(x, 1) == (if x >= 0x8000_0000 then 1 else 0)
  {
    if x >= 0x8000_0000 {
      DivUnique(x * 2, TWO_32, 1, x * 2 - TWO_32);
    } else {
      DivUnique(x * 2, TWO_32, 0, x * 2);
    }
  }

  // ---------------------------------------------------------------------
  // Strings, UUIDs and ids from the secure generator

  /** The 64 characters of a random string: A to Z, a to z, 0 to 9, + and /. */
  const BASE64 := Run('A', 26) + Run('a', 26) + Run('0', 10) + "+/"

  /** The hexadecimal digits 0 to 9 and a to f. */
  const HEX := Run('0', 10) + Run('a', 6)

  /** The digit at position 19 of a version-4 UUID. */
  const UUID_DIGIT17 := "89ab"

  /** `n` consecutive characters from `first`. */
  function Run(first: char, n: nat): (s: string)
    requires first as int + n <= 0xD800
    ensures |s| == n && forall i :: 0 <= i < n ==> s[i] as int == first as int + i
  {
    seq(n, i requires 0 <= i < n => (first as int + i) as char)
  }

  /** The position of a character in the base-64 table, -1 if absent. */
  function Base64Index(c: char): (k: int)
    ensures -1 <= k < 64
  {
    if 'A' <= c <= 'Z' then c as int - 'A' as int
    else if 'a' <= c <= 'z' then c as int - 'a' as int + 26
    else if '0' <= c <= '9' then c as int - '0' as int + 52
    else if c == '+' then 62
    else if c == '/' then 63
    else -1
  }

  /** The position of a character in the hexadecimal table, -1 if absent. */
  function HexIndex(c: char): (k: int)
    ensures -1 <= k < 16
  {
    if '0' <= c <= '9' then c as int - '0' as int
    else if 'a' <= c <= 'f' then c as int - 'a' as int + 10
    else -1
  }

  /** The tables' characters are distinct: each one's position gives it
      back, and no other character has a position. */
  lemma Base64Decodes()
    ensures |BASE64| == 64
    ensures forall k :: 0 <= k < 64 ==> Base64Index(BASE64[k]) == k
    ensures forall c :: Base64Index(c) >= 0 ==> BASE64[Base64Index(c)] == c
  {
    var upper, lower, digits := Run('A', 26), Run('a', 26), Run('0', 10);
    assert forall k :: 0 <= k < 26 ==> BASE64[k] == upper[k];
    assert forall k :: 26 <= k < 52 ==> BASE64[k] == lower[k - 26];
    assert forall k :: 52 <= k < 62 ==> BASE64[k] == digits[k - 52];
  }

  lemma HexDecodes()
    ensures |HEX| == 16
    ensures forall k :: 0 <= k < 16 ==> HexIndex(HEX[k]) == k
    ensures forall c :: HexIndex(c) >= 0 ==> HEX[HexIndex(c)] == c
  {
  }

  /** `create_random_string` with a table: the table size must divide 256
      so that reducing a byte modulo it favours no entry; the secure
      generator's bytes (`None` when it fails) pick one entry each. On
      either failure the string is left empty. */
  method CreateRandomStringWith(len: nat, table: string, tableSize: int, bytes: Option<seq<byte>>)
    returns (ok: bool, str: string)
    requires 0 < tableSize <= |table|
    requires bytes.Some? ==> |bytes.value| == len
    ensures ok <==> 256 % tableSize == 0 && bytes.Some?
    ensures !ok ==> str == []
    ensures ok ==> |str| == len &&
                   forall i :: 0 <= i < len ==> str[i] == table[bytes.value[i] % tableSize]
  {
    str := [];
    if 256 % tableSize != 0 {
      return false, str;
    }
    if bytes.None? {
      return false, str;
    }
    var i := 0;
    while i < len
      invariant 0 <= i <= len && |str| == i
      invariant forall k :: 0 <= k < i ==> str[k] == table[bytes.value[k] % tableSize]
    {
      str := str + [table[bytes.value[i] % tableSize]];
      i := i + 1;
    }
    return true, str;
  }

  /** `create_random_string(len, str)`: base-64 characters. */
  method CreateRandomString(len: nat, bytes: Option<seq<byte>>) returns (ok: bool, str: string)
    requires bytes.Some? ==> |bytes.value| == len
    ensures ok <==> bytes.Some?
    ensures !ok ==> str == []
    ensures ok ==> |str| == len &&
                   forall i :: 0 <= i < len ==> Base64Index(str[i]) == bytes.value[i] % 64
  {
    Base64Decodes();
    ok, str := CreateRandomStringWith(len, BASE64, 64, bytes);
  }

  /** A table size that divides 256 favours no entry: entry `k` is picked
      by exactly the bytes k + j·size for j below 256 / size. */
  lemma UnbiasedTable(size: nat, b: byte, k: nat)
    requires 0 < size && 256 % size == 0 && k < size
    ensures b % size == k <==> exists j :: 0 <= j < 256 / size && b == k + j * size
  {
    if b % size == k {
      var j := b / size;
      assert b == k + j * size;
      if j >= 256 / size {
        MulLe(256 / size, j, size);
        assert false;
      }
    } else {
      forall j | 0 <= j < 256 / size
        ensures b != k + j * size
      {
        if b == k + j * size {
          DivUnique(b, size, j, k);
        }
      }
    }
  }

  // ---------------------------------------------------------------------
  // Version-4 UUIDs

  /** The hexadecimal digit of each byte's low four bits. */
  function HexOf(bs: seq<byte>): (s: string)
    ensures |s| == |bs| && forall i :: 0 <= i < |bs| ==> HexIndex(s[i]) == bs[i] % 16
  {
    HexDecodes();
    seq(|bs|, i requires 0 <= i < |bs| => HEX[bs[i] % 16])
  }

  /** The position of a character in "89ab", -1 if absent. */
  function Digit17Index(c: char): (k: int)
    ensures -1 <= k < 4
  {
    if '8' <= c <= '9' then c as int - '8' as int
    else if 'a' <= c <= 'b' then c as int - 'a' as int + 2
    else -1
  }

  /** The form xxxxxxxx-xxxx-4xxx-yxxx-xxxxxxxxxxxx, where x is a hexadecimal
      digit and y one of 8, 9, a and b. */
  predicate IsUuidV4(u: string) {
    |u| == 36 &&
    forall p :: 0 <= p < 36 ==>
      if p == 8 || p == 13 || p == 18 || p == 23 then u[p] == '-'
      else if p == 14 then u[p] == '4'
      else if p == 19 then Digit17Index(u[p]) >= 0
      else HexIndex(u[p]) >= 0
  }

  /** Where the digit taken from byte `i` lands in the UUID; byte 15 gives
      the digit y at position 19. */
  function UuidPosition(i: nat): (p: nat)
    requires i < 31
    ensures p < 36
  {
    if i < 8 then i
    else if i < 12 then i + 1
    else if i < 15 then i + 3
    else if i == 15 then 19
    else if i < 19 then i + 4
    else i + 5
  }

  /** `create_random_uuid`: 31 bytes of the secure generator, each giving
      one digit. */
  function CreateRandomUuid(bytes: seq<byte>): (u: string)
    requires |bytes| == 31
    ensures IsUuidV4(u)
  {
    HexOf(bytes[..8]) + "-" + HexOf(bytes[8..12]) + "-4" + HexOf(bytes[12..15]) + "-" +
    [UUID_DIGIT17[bytes[15] % 4]] + HexOf(bytes[16..19]) + "-" + HexOf(bytes[19..31])
  }

  /** Each digit of the UUID gives back the bits of its byte that it was
      made from: the low four bits, or the low two for the digit y. */
  lemma UuidDecodes(bytes: seq<byte>)
    requires |bytes| == 31
    ensures var u := CreateRandomUuid(bytes);
            (forall i :: 0 <= i < 31 && i != 15 ==> HexIndex(u[UuidPosition(i)]) == bytes[i] % 16) &&
            Digit17Index(u[19]) == bytes[15] % 4
  {
  }

  lemma Digit17Decodes()
    ensures |UUID_DIGIT17| == 4
    ensures forall k :: 0 <= k < 4 ==> Digit17Index(UUID_DIGIT17[k]) == k
    ensures forall c :: Digit17Index(c) >= 0 ==> UUID_DIGIT17[Digit17Index(c)] == c
  {
  }

  /** The byte whose digit is at position `p` of a UUID. */
  function UuidByte(p: nat): (i: nat)
    requires p < 36 && p != 8 && p != 13 && p != 14 && p != 18 && p != 19 && p != 23
    ensures i < 31 && i != 15 && UuidPosition(i) == p
  {
    if p < 8 then p
    else if p < 13 then p - 1
    else if p < 18 then p - 3
    else if p < 23 then p - 4
    else p - 5
  }

  /** Bytes that make a given UUID: each digit's value. */
  function UuidBytes(u: string): (bytes: seq<byte>)
    requires IsUuidV4(u)
    ensures |bytes| == 31
  {
    seq(31, i requires 0 <= i < 31 =>
      if i == 15 then Digit17Index(u[19]) else HexIndex(u[UuidPosition(i)]))
  }

  /** Every string of the version-4 form is a UUID the function can
      return: the one made from its own digits' values. */
  lemma UuidEveryForm(u: string)
    requires IsUuidV4(u)
    ensures CreateRandomUuid(UuidBytes(u)) == u
  {
    var v := CreateRandomUuid(UuidBytes(u));
    forall p | 0 <= p < 36
      ensures v[p] == u[p]
    {
      UuidCharAgrees(u, p);
    }
  }

  lemma UuidCharAgrees(u: string, p: nat)
    requires IsUuidV4(u) && p < 36
    ensures CreateRandomUuid(UuidBytes(u))[p] == u[p]
  {
    if p == 8 || p == 13 || p == 14 || p == 18 || p == 23 {
      UuidFixedAgrees(u, p);
    } else if p == 19 {
      UuidDigit17Agrees(u);
    } else {
      UuidHexAgrees(u, p);
    }
  }

  lemma UuidFixedAgrees(u: string, p: nat)
    requires IsUuidV4(u) && (p == 8 || p == 13 || p == 14 || p == 18 || p == 23)
    ensures CreateRandomUuid(UuidBytes(u))[p] == u[p]
  {
    var v := CreateRandomUuid(UuidBytes(u));
  }

  lemma UuidDigit17Agrees(u: string)
    requires IsUuidV4(u)
    ensures CreateRandomUuid(UuidBytes(u))[19] == u[19]
  {
    var b := UuidBytes(u);
    var v := CreateRandomUuid(b);
    UuidDecodes(b);
    Digit17Decodes();
    assert Digit17Index(v[19]) == Digit17Index(u[19]);
  }

  lemma UuidHexAgrees(u: string, p: nat)
    requires IsUuidV4(u) && p < 36 && p != 8 && p != 13 && p != 14 && p != 18 && p != 19 && p != 23
    ensures CreateRandomUuid(UuidBytes(u))[p] == u[p]
  {
    var b := UuidBytes(u);
    var v := CreateRandomUuid(b);
    UuidDecodes(b);
    HexDecodes();
    var i := UuidByte(p);
    assert HexIndex(v[p]) == HexIndex(u[p]);
  }

  // ---------------------------------------------------------------------
  // Ids and data

  /** `create_random_id64`: two 32-bit ids from the secure generator, one
      shifted into the high half and or-ed with the other. The two calls
      are operands of one expression, so which id lands high is not
      fixed: `high` is the one that did. The halves do not overlap, so the
      or is a sum, and both ids can be read back. */
  function CreateRandomId64(high: u32, low: u32): (id: u64)
    ensures id / TWO_32 == high && id % TWO_32 == low
  {
    DivUnique(high * TWO_32 + low, TWO_32, high, low);
    high * TWO_32 + low
  }

  /** Every 64-bit id is made from some pair of 32-bit ids. */
  lemma Id64EveryValue(id: u64)
    ensures id / TWO_32 < TWO_32 && CreateRandomId64(id / TWO_32, id % TWO_32) == id
  {
  }

  /** `create_random_non_zero_id`: draw ids until one is not 0. The draws
      are given as a finite sequence; `None` means every draw given was 0
      and the source would go on drawing. `drawn` is the number of draws
      taken. */
  method CreateRandomNonZeroId(ids: seq<u32>) returns (id: Option<u32>, drawn: nat)
    ensures drawn <= |ids|
    ensures id.Some? ==> 0 < drawn && id.value == ids[drawn - 1] && id.value != 0
    ensures forall j :: 0 <= j < drawn && (id.None? || j < drawn - 1) ==> ids[j] == 0
    ensures id.None? ==> drawn == |ids|
  {
    drawn := 0;
    while drawn < |ids|
      invariant drawn <= |ids|
      invariant forall j :: 0 <= j < drawn ==> ids[j] == 0
    {
      var next := ids[drawn];
      drawn := drawn + 1;
      if next != 0 {
        return Some(next), drawn;
      }
    }
    return None, drawn;
  }

  /** What `create_random_data` leaves: the `std::out_of_range` thrown by
      `at(0)` on an empty string, or the generator's answer and the data. */
  datatype DataOutcome = OutOfRange | Filled(ok: bool, data: seq<byte>)

  /** `create_random_data` as written: the string is resized to `length`
      and the generator writes from `&data->at(0)`, which throws for
      length 0. `generated` is the generator's answer and `bytes` what the
      string then holds. */
  function CreateRandomDataAsWritten(length: nat, generated: bool, bytes: seq<byte>): (r: DataOutcome)
    requires |bytes| == length
    ensures r.OutOfRange? <==> length == 0
    ensures r.Filled? ==> r.ok == generated && r.data == bytes
  {
    if length == 0 then OutOfRange else Filled(generated, bytes)
  }

  /** `create_random_data` writing from the string's buffer rather than
      from its first element: no length throws, and the data always has
      the length asked for. */
  function CreateRandomData(length: nat, generated: bool, bytes: seq<byte>): (r: DataOutcome)
    requires |bytes| == length
    ensures r.Filled? && r.ok == generated && |r.data| == length && r.data == bytes
  {
    Filled(generated, bytes)
  }

  /** The two agree except on the empty request, where the source throws. */
  lemma DataAgreesExceptEmpty(length: nat, generated: bool, bytes: seq<byte>)
    requires |bytes| == length
    ensures length > 0 ==> CreateRandomDataAsWritten(length, generated, bytes) == CreateRandomData(length, generated, bytes)
    ensures length == 0 ==> CreateRandomDataAsWritten(length, generated, bytes) == OutOfRange
  {
  }
}
