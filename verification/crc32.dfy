/** CRC-32 as in the sample implementation of RFC 1952 (section 8):
    reflected polynomial 0xEDB88320, a 256-entry table built on first use,
    pre- and post-conditioning with 0xFFFFFFFF. */
module Crc32 {
  import opened Ints

  const POLYNOMIAL: bv32 := 0xEDB88320
  const TABLE_SIZE := 256

  /** One shift of the bit-serial CRC register. */
  function Round(c: bv32): bv32 {
    if c & 1 != 0 then POLYNOMIAL ^ (c >> 1) else c >> 1
  }

  function Rounds(c: bv32, n: nat): bv32
    decreases n
  {
    if n == 0 then c else Rounds(Round(c), n - 1)
  }

  /** Entry i of the table: eight register shifts of i. */
  function TableEntry(i: bv32): bv32 {
    Rounds(i, 8)
  }

  predicate IsTable(t: seq<bv32>) {
    |t| == TABLE_SIZE && forall i :: 0 <= i < TABLE_SIZE ==> t[i] == TableEntry(i as bv32)
  }

  /** The last entry is non-zero, which is what the lazy initialisation
      tests to decide whether the table has been filled. */
  lemma LastEntryNonZero()
    ensures TableEntry(255) == 0x2D02EF8D
  {
  }

  /** The table-filling loop. */
  method BuildTable() returns (t: seq<bv32>)
    ensures IsTable(t)
  {
    t := [];
    var i := 0;
    while i < TABLE_SIZE
      invariant 0 <= i <= TABLE_SIZE && |t| == i
      invariant forall k :: 0 <= k < i ==> t[k] == TableEntry(k as bv32)
    {
      var c: bv32 := i as bv32;
      var j := 0;
      while j < 8
        invariant 0 <= j <= 8
        invariant Rounds(c, 8 - j) == TableEntry(i as bv32)
      {
        c := if c & 1 != 0 then POLYNOMIAL ^ (c >> 1) else c >> 1;
        j := j + 1;
      }
      t := t + [c];
      i := i + 1;
    }
  }

  /** Lazy initialisation: a table whose last entry is non-zero is kept,
      anything else (the zero-filled static array) is rebuilt. */
  method EnsureTable(t: seq<bv32>) returns (r: seq<bv32>)
    requires |t| == TABLE_SIZE
    ensures t[TABLE_SIZE - 1] != 0 ==> r == t
    ensures t[TABLE_SIZE - 1] == 0 ==> IsTable(r)
  {
    if t[TABLE_SIZE - 1] != 0 {
      return t;
    }
    r := BuildTable();
  }

  /** Initialising an already initialised table changes nothing. */
  lemma EnsureTableIdempotent(t: seq<bv32>)
    requires IsTable(t)
    ensures t[TABLE_SIZE - 1] != 0
  {
    LastEntryNonZero();
  }

  /** A byte as the low eight bits of a register. */
  function Widen(b: byte): bv32 {
    b as bv32
  }

  /** One table-driven step of the update loop. */
  function Step(t: seq<bv32>, c: bv32, b: byte): bv32
    requires |t| == TABLE_SIZE
  {
    t[((c ^ Widen(b)) & 0xFF) as int] ^ (c >> 8)
  }

  /** The conditioned register after feeding `data` from register `c`. */
  function Feed(t: seq<bv32>, c: bv32, data: seq<byte>): bv32
    requires |t| == TABLE_SIZE
    decreases |data|
  {
    if |data| == 0 then c else Feed(t, Step(t, c, data[0]), data[1..])
  }

  // ---------------------------------------------------------------------
  // The table step is eight bit-serial rounds

  /** The low n bits set. */
  function Low(n: nat): bv32
    decreases n
  {
    if n == 0 then 0 else (Low(n - 1) << 1) | 1
  }

  /** n successive one-bit right shifts. */
  function ShiftRight(h: bv32, n: nat): bv32
    decreases n
  {
    if n == 0 then h else ShiftRight(h >> 1, n - 1)
  }

  /** Bits `h` xor-ed into the register `a`. Naming the operation lets the
      proofs below treat it as a plain function while chaining rounds. */
  function Mix(a: bv32, h: bv32): bv32 {
    a ^ h
  }

  /** Bits above the lowest pass through one round unchanged, shifted by
      one: the round is linear in them. */
  lemma RoundXorBits(a: bv32, h: bv32, x: bv32)
    requires h & 1 == 0 && x == a ^ h
    ensures Round(x) == Round(a) ^ (h >> 1)
  {
    XorLowBit(a, h);
    XorShift(a, h);
    if a & 1 != 0 {
      assert Round(x) == POLYNOMIAL ^ ((a >> 1) ^ (h >> 1));
    } else {
      assert Round(x) == (a >> 1) ^ (h >> 1);
    }
  }

  /** Xor-ing bits above the lowest keeps the lowest bit. */
  lemma XorLowBit(a: bv32, h: bv32)
    requires h & 1 == 0
    ensures (a ^ h) & 1 == a & 1
  {
  }

  /** A shift distributes over xor. */
  lemma XorShift(a: bv32, h: bv32)
    ensures (a ^ h) >> 1 == (a >> 1) ^ (h >> 1)
  {
  }

  lemma RoundMix(a: bv32, h: bv32)
    requires h & 1 == 0
    ensures Round(Mix(a, h)) == Mix(Round(a), h >> 1)
  {
    RoundXorBits(a, h, Mix(a, h));
  }

  lemma LowStep(h: bv32, l: bv32)
    requires h & ((l << 1) | 1) == 0
    ensures h & 1 == 0 && (h >> 1) & l == 0
  {
  }

  lemma LowNext(h: bv32, n: nat)
    requires n > 0 && h & Low(n) == 0
    ensures h & 1 == 0 && (h >> 1) & Low(n - 1) == 0
  {
    LowStep(h, Low(n - 1));
  }

  lemma Unfold(c: bv32, h: bv32, n: nat)
    requires n > 0
    ensures Rounds(c, n) == Rounds(Round(c), n - 1)
    ensures ShiftRight(h, n) == ShiftRight(h >> 1, n - 1)
  {
    hide Round;
  }

  /** Over n rounds, bits above the lowest n come out shifted by n. */
  lemma {:induction false} RoundsXorHigh(a: bv32, h: bv32, n: nat)
    requires h & Low(n) == 0
    ensures Rounds(Mix(a, h), n) == Mix(Rounds(a, n), ShiftRight(h, n))
    decreases n
  {
    if n > 0 {
      hide Mix, Round, Rounds, ShiftRight, Low;
      LowNext(h, n);
      RoundMix(a, h);
      Unfold(Mix(a, h), h, n);
      Unfold(a, h, n);
      RoundsXorHigh(Round(a), h >> 1, n - 1);
    } else {
      assert Rounds(Mix(a, h), n) == Mix(a, h);
    }
  }

  /** After a byte is xor-ed in, the register is its low byte mixed with
      the old register's bits above the low byte. */
  lemma SplitAfterByte(c: bv32, bb: bv32, x: bv32)
    requires bb < 256 && x == c ^ bb
    ensures x == Mix(x & 0xFF, c & 0xFFFF_FF00)
    ensures (c & 0xFFFF_FF00) & Low(8) == 0
    ensures ShiftRight(c & 0xFFFF_FF00, 8) == c >> 8
  {
    assert Low(8) == 0xFF;
    assert ShiftRight(c & 0xFFFF_FF00, 8) == (c & 0xFFFF_FF00) >> 8;
  }

  /** Eight rounds of the register after a byte is xor-ed in: the rounds
      of its low byte, with the old register shifted by eight. */
  lemma RoundsAfterByte(c: bv32, bb: bv32)
    requires bb < 256
    ensures Rounds(c ^ bb, 8) == Mix(Rounds((c ^ bb) & 0xFF, 8), c >> 8)
  {
    var x := c ^ bb;
    SplitAfterByte(c, bb, x);
    hide Mix, Round, Rounds, ShiftRight, Low;
    RoundsXorHigh(x & 0xFF, c & 0xFFFF_FF00, 8);
  }

  lemma ByteBelow256(b: byte)
    ensures Widen(b) < 256
  {
  }

  lemma LowByteBelow256(x: bv32)
    ensures x & 0xFF < 256
  {
  }

  /** The table entry at a byte-sized index. */
  function Entry(t: seq<bv32>, y: bv32): bv32
    requires |t| == TABLE_SIZE && y < 256
  {
    t[y as int]
  }

  /** The table at a byte-sized index holds eight rounds of the index. */
  lemma TableAt(t: seq<bv32>, y: bv32)
    requires IsTable(t) && y < 256
    ensures Entry(t, y) == Rounds(y, 8)
  {
    assert (y as int) as bv32 == y;
  }

  lemma TableSize(t: seq<bv32>)
    requires IsTable(t)
    ensures |t| == TABLE_SIZE
  {
  }

  lemma StepMix(t: seq<bv32>, c: bv32, b: byte)
    requires |t| == TABLE_SIZE
    ensures Step(t, c, b) == Mix(Entry(t, (c ^ Widen(b)) & 0xFF), c >> 8)
  {
  }

  /** The table-driven step is eight bit-serial rounds of the register
      after the byte is xor-ed into it: the table holds the rounds of the
      low byte, and the rest of the register passes through shifted by
      eight. */
  lemma StepIsRounds(t: seq<bv32>, c: bv32, b: byte)
    requires IsTable(t)
    ensures Step(t, c, b) == Rounds(c ^ Widen(b), 8)
  {
    hide *;
    TableSize(t);
    ByteBelow256(b);
    LowByteBelow256(c ^ Widen(b));
    RoundsAfterByte(c, Widen(b));
    TableAt(t, (c ^ Widen(b)) & 0xFF);
    StepMix(t, c, b);
  }

  /** The bit-serial register after feeding `data`: each byte is xor-ed
      into the register and followed by eight rounds. */
  function FeedBits(c: bv32, data: seq<byte>): bv32
    decreases |data|
  {
    if |data| == 0 then c else FeedBits(Rounds(c ^ Widen(data[0]), 8), data[1..])
  }

  /** The bit-serial CRC-32 of RFC 1952 continued from `start`, without a
      table. */
  function BitSerialCrc(start: bv32, data: seq<byte>): bv32 {
    Condition(FeedBits(Condition(start), data))
  }

  /** A known value of CRC-32: the single ASCII letter "a" gives
      0xE8B7BE43. */
  lemma KnownValue()
    ensures BitSerialCrc(0, [0x61]) == 0xE8B7BE43
  {
    assert Rounds(0xFFFF_FF9E, 8) == 0x174841BC;
    assert FeedBits(0x174841BC, []) == 0x174841BC;
  }

  /** With a filled table, the table-driven loop computes the bit-serial
      register. */
  lemma {:induction false} FeedIsBitSerial(t: seq<bv32>, c: bv32, data: seq<byte>)
    requires |t| == TABLE_SIZE
    ensures IsTable(t) ==> Feed(t, c, data) == FeedBits(c, data)
    decreases |data|
  {
    hide *;
    if |data| == 0 {
      FeedNil(t, c, data);
    } else if IsTable(t) {
      FeedCons(t, c, data);
      StepIsRounds(t, c, data[0]);
      FeedBitsCons(c, data, Step(t, c, data[0]));
      FeedIsBitSerial(t, Step(t, c, data[0]), data[1..]);
    }
  }

  lemma FeedNil(t: seq<bv32>, c: bv32, data: seq<byte>)
    requires |t| == TABLE_SIZE && |data| == 0
    ensures Feed(t, c, data) == c && FeedBits(c, data) == c
  {
  }

  lemma FeedCons(t: seq<bv32>, c: bv32, data: seq<byte>)
    requires |t| == TABLE_SIZE && |data| > 0
    ensures Feed(t, c, data) == Feed(t, Step(t, c, data[0]), data[1..])
  {
  }

  lemma FeedBitsCons(c: bv32, data: seq<byte>, x: bv32)
    requires |data| > 0 && x == Rounds(c ^ Widen(data[0]), 8)
    ensures FeedBits(c, data) == FeedBits(x, data[1..])
  {
  }

  /** Pre- and post-conditioning of the register. */
  function Condition(x: bv32): bv32 {
    x ^ 0xFFFFFFFF
  }

  /** `update_crc32`: continue a CRC from the previous value `start`. With
      the filled table it is the bit-serial CRC. */
  function Update(t: seq<bv32>, start: bv32, data: seq<byte>): (r: bv32)
    requires |t| == TABLE_SIZE
    ensures |data| == 0 ==> r == start
    ensures IsTable(t) ==> r == BitSerialCrc(start, data)
  {
    ConditionTwice(start);
    FeedIsBitSerial(t, Condition(start), data);
    Condition(Feed(t, Condition(start), data))
  }

  /** The update loop over the buffer: the bit-serial CRC of the bytes,
      continued from `start`. */
  method UpdateCrc32(t: seq<bv32>, start: bv32, data: seq<byte>) returns (r: bv32)
    requires IsTable(t)
    ensures r == BitSerialCrc(start, data)
  {
    var c := Condition(start);
    var i := 0;
    while i < |data|
      invariant 0 <= i <= |data|
      invariant Feed(t, c, data[i..]) == Feed(t, Condition(start), data)
    {
      assert data[i..][1..] == data[i + 1..];
      c := Step(t, c, data[i]);
      i := i + 1;
    }
    r := Condition(c);
    FeedIsBitSerial(t, Condition(start), data);
  }

  /** `compute_crc32`: the CRC of a whole buffer, starting from 0. */
  method ComputeCrc32(t: seq<bv32>, data: seq<byte>) returns (r: bv32)
    requires IsTable(t)
    ensures r == BitSerialCrc(0, data)
  {
    r := UpdateCrc32(t, 0, data);
  }

  lemma {:induction false} FeedAppend(t: seq<bv32>, c: bv32, a: seq<byte>, b: seq<byte>)
    requires |t| == TABLE_SIZE
    ensures Feed(t, c, a + b) == Feed(t, Feed(t, c, a), b)
    decreases |a|
  {
    if |a| > 0 {
      assert (a + b)[1..] == a[1..] + b;
      FeedAppend(t, Step(t, c, a[0]), a[1..], b);
    } else {
      assert a + b == b;
    }
  }

  /** Streaming: feeding a buffer in two pieces gives the CRC of the whole,
      so the byte-at-a-time use and the single call agree. */
  lemma UpdateAppend(t: seq<bv32>, start: bv32, a: seq<byte>, b: seq<byte>)
    requires |t| == TABLE_SIZE
    ensures Update(t, Update(t, start, a), b) == Update(t, start, a + b)
  {
    var mid := Feed(t, Condition(start), a);
    FeedAppend(t, Condition(start), a, b);
    ConditionTwice(mid);
  }

  /** Conditioning is its own inverse. */
  lemma ConditionTwice(x: bv32)
    ensures Condition(Condition(x)) == x
  {
  }
}
