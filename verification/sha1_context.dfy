/** The streaming interface of SHA-1: `SHA1_CTX` with `SHA1_init`,
    `SHA1_update` and `SHA1_final`. Module Sha1 holds the compression
    function and the reference hash this is proved against. */
module Sha1Context {
  import opened Ints
  import ByteOrder
  import opened Sha1

  /** `SHA1_CTX`: the hash value, the bit count as a low and a high 32-bit
      word, and the 64-byte block buffer. */
  datatype Ctx = Ctx(state: seq<Word>, count0: u32, count1: u32, buffer: seq<byte>)

  predicate WellFormed(ctx: Ctx) {
    |ctx.state| == 5 && |ctx.buffer| == BLOCK_SIZE
  }

  /** `(count[0] >> 3) & 63`: where the next byte goes in the buffer. */
  function BufferIndex(count0: u32): (r: nat)
    ensures r < BLOCK_SIZE
  {
    (count0 / 8) % BLOCK_SIZE
  }

  /** The count words after adding 8·n bits: the low word wraps, a wrap
      carries into the high word, and the high word also gets the bits of
      8·n above 32 (`n >> 29`). Together they are one 64-bit counter. */
  function AddBits(c0: u32, c1: u32, n: nat): (r: (u32, u32))
    ensures r.0 + TWO_32 * r.1 == (c0 + TWO_32 * c1 + 8 * n) % TWO_64
  {
    var bits := (n * 8) % TWO_32;
    var lo := (c0 + bits) % TWO_32;
    var hi := (c1 + (if lo < bits then 1 else 0) + (n / 0x2000_0000) % TWO_32) % TWO_32;
    AddBitsCarry(c0, c1, n, bits, lo, hi);
    (lo, hi)
  }

  lemma AddBitsCarry(c0: u32, c1: u32, n: nat, bits: nat, lo: nat, hi: nat)
    requires bits == (n * 8) % TWO_32 && lo == (c0 + bits) % TWO_32
    requires hi == (c1 + (if lo < bits then 1 else 0) + (n / 0x2000_0000) % TWO_32) % TWO_32
    ensures lo + TWO_32 * hi == (c0 + TWO_32 * c1 + 8 * n) % TWO_64
  {
    var top := (8 * n) / TWO_32;
    assert 8 * n == top * TWO_32 + bits;
    DivUnique(8 * n, 8, n, 0);
    DivDiv(8 * n, 8, 0x2000_0000);
    assert top == n / 0x2000_0000;
    var carry := if c0 + bits >= TWO_32 then 1 else 0;
    DivUnique(c0 + bits, TWO_32, carry, c0 + bits - carry * TWO_32);
    assert (lo < bits) == (carry == 1);
    var y := c1 + carry + top;
    var y' := c1 + carry + top % TWO_32;
    DivUnique(top, TWO_32, top / TWO_32, top % TWO_32);
    DivUnique(y, TWO_32, y' / TWO_32 + top / TWO_32, y' % TWO_32);
    assert hi == y % TWO_32;
    var total := c0 + TWO_32 * c1 + 8 * n;
    assert total == lo + TWO_32 * y;
    DivUnique(y, TWO_32, y / TWO_32, hi);
    DivUnique(total, TWO_64, y / TWO_32, lo + TWO_32 * hi);
  }

  /** `SHA1_init`: the initial hash value and a zero count; the buffer is
      left as it was. */
  function Init(ctx: Ctx): (r: Ctx)
    requires |ctx.buffer| == BLOCK_SIZE
    ensures Represents(r, [])
  {
    Ctx(H0, 0, 0, ctx.buffer)
  }

  /** `SHA1_update`. When the buffered bytes and the input reach a block,
      the buffer is completed and compressed, then whole blocks are
      compressed straight from the input, and the rest is copied to the
      front of the buffer; otherwise the input is only buffered. */
  function Update(ctx: Ctx, data: seq<byte>): (r: Ctx)
    requires WellFormed(ctx)
    ensures WellFormed(r)
  {
    var index := BufferIndex(ctx.count0);
    var count := AddBits(ctx.count0, ctx.count1, |data|);
    var absorbed :=
      if index + |data| > 63 then CompressInput(ctx.state, ctx.buffer, data, index)
      else (ctx.state, BufferInput(ctx.buffer, data, index));
    Ctx(absorbed.0, count.0, count.1, absorbed.1)
  }

  /** The buffering branch of `SHA1_update`: the input is copied into the
      buffer at the index. */
  function BufferInput(buffer: seq<byte>, data: seq<byte>, index: nat): (r: seq<byte>)
    requires |buffer| == BLOCK_SIZE && index + |data| < BLOCK_SIZE
    ensures |r| == BLOCK_SIZE && r[..index + |data|] == buffer[..index] + data
  {
    buffer[..index] + data + buffer[index + |data|..]
  }

  /** The end of the loop `for (; i + 63 < len; i += 64)` started at i: the
      last whole block of the input. */
  function BlocksEnd(n: nat, i: nat): (j: nat)
    requires i <= n
    ensures i <= j <= n && (j - i) % BLOCK_SIZE == 0 && n - j < BLOCK_SIZE
  {
    var k := (n - i) / BLOCK_SIZE;
    DivUnique(k * BLOCK_SIZE, BLOCK_SIZE, k, 0);
    i + k * BLOCK_SIZE
  }

  /** The block-completing branch of `SHA1_update`: the new hash value and
      buffer. */
  function CompressInput(state: seq<Word>, buffer: seq<byte>, data: seq<byte>, index: nat): (r: (seq<Word>, seq<byte>))
    requires |state| == 5 && |buffer| == BLOCK_SIZE && index < BLOCK_SIZE && index + |data| >= BLOCK_SIZE
    ensures |r.0| == 5 && |r.1| == BLOCK_SIZE
    ensures var j := BlocksEnd(|data|, BLOCK_SIZE - index);
            r.1[..|data| - j] == data[j..]
  {
    var i := BLOCK_SIZE - index;
    var j := BlocksEnd(|data|, i);
    var first := buffer[..index] + data[..i];
    (CompressAll(Compress(state, first), data[i..j]), data[j..] + first[|data| - j..])
  }

  /** The whole blocks at the front of a message of n bytes. */
  lemma WholeBlocks(n: nat)
    ensures (n - n % BLOCK_SIZE) % BLOCK_SIZE == 0
  {
    DivUnique(n - n % BLOCK_SIZE, BLOCK_SIZE, n / BLOCK_SIZE, 0);
  }

  /** The context is the one reached by feeding `msg` from `SHA1_init`: the
      count is 8·|msg| modulo 2^64, the last |msg| mod 64 bytes wait in the
      buffer, and every whole block before them has been compressed. */
  predicate Represents(ctx: Ctx, msg: seq<byte>) {
    WellFormed(ctx) &&
    ctx.count0 + TWO_32 * ctx.count1 == (8 * |msg|) % TWO_64 &&
    Absorbed(ctx.state, ctx.buffer, msg)
  }

  /** The hash value and buffer part of Represents. */
  predicate Absorbed(state: seq<Word>, buffer: seq<byte>, msg: seq<byte>)
    requires |buffer| == BLOCK_SIZE
  {
    var r := |msg| % BLOCK_SIZE;
    WholeBlocks(|msg|);
    buffer[..r] == msg[|msg| - r..] && state == CompressAll(H0, msg[..|msg| - r])
  }

  /** The buffer index read from the count is the number of bytes past the
      last whole block. */
  lemma IndexFromCount(c0: u32, c1: u32, len: nat)
    requires c0 + TWO_32 * c1 == (8 * len) % TWO_64
    ensures BufferIndex(c0) == len % BLOCK_SIZE
  {
    var x := 8 * len;
    var q := x / TWO_64;
    DivUnique(x, TWO_64, q, c0 + TWO_32 * c1);
    DivUnique(x, TWO_32, q * TWO_32 + c1, c0);
    var a, b := len / 0x2000_0000, len % 0x2000_0000;
    DivUnique(x, TWO_32, a, 8 * b);
    assert c0 == 8 * b;
    DivUnique(c0, 8, b, 0);
    DivUnique(len, BLOCK_SIZE, a * 0x80_0000 + b / BLOCK_SIZE, b % BLOCK_SIZE);
  }

  lemma ModAddSmall(len: nat, n: nat)
    requires len % BLOCK_SIZE + n < BLOCK_SIZE
    ensures (len + n) % BLOCK_SIZE == len % BLOCK_SIZE + n
  {
    DivUnique(len + n, BLOCK_SIZE, len / BLOCK_SIZE, len % BLOCK_SIZE + n);
  }

  /** The count after `update` is the count of the extended message. */
  lemma UpdateCount(ctx: Ctx, msg: seq<byte>, data: seq<byte>)
    requires WellFormed(ctx) && ctx.count0 + TWO_32 * ctx.count1 == (8 * |msg|) % TWO_64
    ensures var c := Update(ctx, data);
            c.count0 + TWO_32 * c.count1 == (8 * |msg + data|) % TWO_64
  {
    hide Compress;
    ModAddMod(8 * |msg|, 8 * |data|, TWO_64);
  }

  /** Input that does not complete a block is appended to the buffer. */
  lemma AbsorbShort(state: seq<Word>, buffer: seq<byte>, msg: seq<byte>, data: seq<byte>)
    requires |buffer| == BLOCK_SIZE && Absorbed(state, buffer, msg)
    requires |msg| % BLOCK_SIZE + |data| < BLOCK_SIZE
    ensures Absorbed(state, BufferInput(buffer, data, |msg| % BLOCK_SIZE), msg + data)
  {
    hide Compress;
    var r := |msg| % BLOCK_SIZE;
    var n := |data|;
    ModAddSmall(|msg|, n);
    var m' := msg + data;
    assert m'[|m'| - (r + n)..] == msg[|msg| - r..] + data;
    assert m'[..|m'| - (r + n)] == msg[..|msg| - r];
  }

  /** Input that completes a block: the buffer is completed and compressed,
      the whole blocks of the input follow, and the rest is buffered. */
  lemma AbsorbLong(state: seq<Word>, buffer: seq<byte>, msg: seq<byte>, data: seq<byte>)
    requires |state| == 5 && |buffer| == BLOCK_SIZE && Absorbed(state, buffer, msg)
    requires |msg| % BLOCK_SIZE + |data| >= BLOCK_SIZE
    ensures var c := CompressInput(state, buffer, data, |msg| % BLOCK_SIZE);
            Absorbed(c.0, c.1, msg + data)
  {
    hide Compress;
    var r := |msg| % BLOCK_SIZE;
    var n := |data|;
    var i := BLOCK_SIZE - r;
    var j := BlocksEnd(n, i);
    var p := msg[..|msg| - r];
    var first := buffer[..r] + data[..i];
    WholeBlocks(|msg|);
    LongTail(|msg|, r, n, i, j);
    SplitInput(msg, data, r, i, j);
    CompressAllSnoc(H0, p, first);
    CompressAllAppend(H0, p + first, data[i..j]);
    var c := CompressInput(state, buffer, data, r);
    var m' := msg + data;
    assert |m'| % BLOCK_SIZE == n - j;
    assert c.1 == data[j..] + first[n - j..];
    assert c.1[..n - j] == m'[|m'| - (n - j)..];
    assert c.0 == CompressAll(Compress(state, first), data[i..j]);
    assert c.0 == CompressAll(H0, m'[..|m'| - (n - j)]);
  }

  /** How the extended message splits at the new block boundary. */
  lemma SplitInput(msg: seq<byte>, data: seq<byte>, r: nat, i: nat, j: nat)
    requires r <= |msg| && i == BLOCK_SIZE - r && i <= j <= |data|
    ensures (msg + data)[..|msg| + j] == msg[..|msg| - r] + (msg[|msg| - r..] + data[..i]) + data[i..j]
    ensures (msg + data)[|msg| + j..] == data[j..]
  {
  }

  lemma LongTail(len: nat, r: nat, n: nat, i: nat, j: nat)
    requires r == len % BLOCK_SIZE && i == BLOCK_SIZE - r && i <= j <= n
    requires (j - i) % BLOCK_SIZE == 0 && n - j < BLOCK_SIZE
    ensures (len + n) % BLOCK_SIZE == n - j
  {
    DivUnique(len + n, BLOCK_SIZE, len / BLOCK_SIZE + 1 + (j - i) / BLOCK_SIZE, n - j);
  }

  /** After `update`, the context represents the message extended by the
      input: the count grew by 8·|data| with carry, exactly (bit count / 8)
      mod 64 bytes are buffered, and every whole block was compressed in
      order. */
  lemma UpdateRepresents(ctx: Ctx, msg: seq<byte>, data: seq<byte>)
    requires Represents(ctx, msg)
    ensures Represents(Update(ctx, data), msg + data)
  {
    IndexFromCount(ctx.count0, ctx.count1, |msg|);
    UpdateCount(ctx, msg, data);
    if BufferIndex(ctx.count0) + |data| <= 63 {
      AbsorbShort(ctx.state, ctx.buffer, msg, data);
    } else {
      AbsorbLong(ctx.state, ctx.buffer, msg, data);
    }
  }

  /** Adding one byte moves the buffer index one place on, wrapping at the
      block size; the low count word wraps at 2^32 without disturbing it. */
  lemma IndexAdvance(ctx: Ctx)
    requires WellFormed(ctx)
    ensures BufferIndex(Update(ctx, [0]).count0) == (BufferIndex(ctx.count0) + 1) % BLOCK_SIZE
  {
    hide Compress, CompressAll, CompressInput, BufferInput;
    assert Update(ctx, [0]).count0 as nat == (ctx.count0 + 8) % TWO_32;
    WrapIndex(ctx.count0);
  }

  lemma WrapIndex(c0: u32)
    ensures BufferIndex(((c0 + 8) % TWO_32) as u32) == (BufferIndex(c0) + 1) % BLOCK_SIZE
  {
    var q, s := c0 / 8, c0 % 8;
    var next := (c0 + 8) % TWO_32;
    var low := (q + 1) % 0x2000_0000;
    DivUnique(c0 + 8, TWO_32, (q + 1) / 0x2000_0000, 8 * low + s);
    DivUnique(next, 8, low, s);
    DivUnique(q + 1, BLOCK_SIZE, (q + 1) / 0x2000_0000 * 0x80_0000 + low / BLOCK_SIZE, low % BLOCK_SIZE);
  }

  /** The loop `while ((count[0] & 504) != 448)` of `SHA1_final`: zero bytes
      are fed one at a time until 56 bytes are buffered. Bits 3..8 of the
      low count word are the buffer index, so the test reads "index ≠ 56". */
  function PadWithZeros(ctx: Ctx): (r: Ctx)
    requires WellFormed(ctx)
    ensures WellFormed(r) && BufferIndex(r.count0) == 56
    decreases ZerosNeeded(BufferIndex(ctx.count0))
  {
    if BufferIndex(ctx.count0) == 56 then ctx
    else
      var next := Update(ctx, [0]);
      IndexAdvance(ctx);
      ZerosStep(BufferIndex(ctx.count0));
      PadWithZeros(next)
  }

  /** How many zero bytes take the buffer index to 56. */
  function ZerosNeeded(index: nat): (k: nat)
    requires index < BLOCK_SIZE
    ensures k < BLOCK_SIZE && (index + k) % BLOCK_SIZE == 56
  {
    if index <= 56 then 56 - index else 56 + BLOCK_SIZE - index
  }

  /** Zero padding extends the represented message by exactly the zero
      bytes that bring its length to 56 modulo 64. */
  lemma {:induction false} PadWithZerosRepresents(ctx: Ctx, msg: seq<byte>)
    requires Represents(ctx, msg)
    ensures Represents(PadWithZeros(ctx), msg + Zeros(ZerosNeeded(|msg| % BLOCK_SIZE)))
    decreases ZerosNeeded(BufferIndex(ctx.count0))
  {
    hide Compress, CompressAll, Update;
    IndexFromCount(ctx.count0, ctx.count1, |msg|);
    var k := ZerosNeeded(|msg| % BLOCK_SIZE);
    if BufferIndex(ctx.count0) == 56 {
      assert msg + Zeros(k) == msg;
    } else {
      IndexAdvance(ctx);
      UpdateRepresents(ctx, msg, [0]);
      PadWithZerosRepresents(Update(ctx, [0]), msg + [0]);
      ZerosStep(|msg| % BLOCK_SIZE);
      ModAddMod(|msg|, 1, BLOCK_SIZE);
      assert msg + [0] + Zeros(k - 1) == msg + Zeros(k);
    }
  }

  lemma ZerosStep(index: nat)
    requires index < BLOCK_SIZE && index != 56
    ensures ZerosNeeded(index) > 0 && ZerosNeeded((index + 1) % BLOCK_SIZE) == ZerosNeeded(index) - 1
  {
  }

  /** What `SHA1_final` leaves: the digest and the wiped context. */
  datatype Finished = Finished(digest: seq<byte>, ctx: Ctx)

  const ZERO_STATE: seq<Word> := [0, 0, 0, 0, 0]

  /** The context after `SHA1_final`: state, count and buffer are zeroed and
      then the state is run through one transform of the zero buffer, which
      the hands-off build does to overwrite the transform's own working
      copy. */
  function Wiped(): (r: Ctx)
    ensures WellFormed(r) && r.count0 == 0 && r.count1 == 0 && r.buffer == Zeros(BLOCK_SIZE)
  {
    Ctx(Compress(ZERO_STATE, Zeros(BLOCK_SIZE)), 0, 0, Zeros(BLOCK_SIZE))
  }

  /** `SHA1_final`: the count is saved big-endian (high word first), 0x80 is
      fed, then zero bytes up to 56 mod 64, then the saved count; the digest
      is the state words big-endian. */
  function Final(ctx: Ctx): (r: Finished)
    requires WellFormed(ctx)
    ensures |r.digest| == DIGEST_SIZE && r.ctx == Wiped()
  {
    var finalCount := ByteOrder.SetBE(8, ctx.count0 + TWO_32 * ctx.count1);
    var padded := PadWithZeros(Update(ctx, [0x80]));
    var done := Update(padded, finalCount);
    Finished(DigestBytes(done.state), Wiped())
  }

  /** A context that has absorbed `msg` finishes with the SHA-1 digest of
      `msg`. */
  lemma FinalDigest(ctx: Ctx, msg: seq<byte>)
    requires Represents(ctx, msg)
    ensures Final(ctx).digest == Hash(msg)
  {
    hide Compress, CompressAll, Update, PadWithZeros, DigestBytes, ByteOrder.SetBE;
    assert ByteOrder.SetBE(8, ctx.count0 + TWO_32 * ctx.count1) == LengthField(|msg|);
    FinalPadding(ctx, msg);
    WholeMessage(Update(PadWithZeros(Update(ctx, [0x80])), LengthField(|msg|)), Pad(msg));
  }

  /** The bytes `SHA1_final` feeds complete the message to its padded form. */
  lemma FinalPadding(ctx: Ctx, msg: seq<byte>)
    requires Represents(ctx, msg)
    ensures Represents(Update(PadWithZeros(Update(ctx, [0x80])), LengthField(|msg|)), Pad(msg))
  {
    hide Compress, CompressAll, Update, PadWithZeros;
    UpdateRepresents(ctx, msg, [0x80]);
    var m1 := msg + [0x80];
    PadWithZerosRepresents(Update(ctx, [0x80]), m1);
    PadZerosAfterMarker(|msg|);
    var m2 := m1 + Zeros(PadZeros(|msg|));
    UpdateRepresents(PadWithZeros(Update(ctx, [0x80])), m2, LengthField(|msg|));
  }

  /** Once a whole number of blocks is represented, the state is their
      hash value. */
  lemma WholeMessage(ctx: Ctx, msg: seq<byte>)
    requires Represents(ctx, msg) && |msg| % BLOCK_SIZE == 0
    ensures ctx.state == CompressAll(H0, msg)
  {
    hide Compress, CompressAll;
    assert msg[..|msg| - 0] == msg;
  }

  lemma PadZerosAfterMarker(len: nat)
    ensures ZerosNeeded((len + 1) % BLOCK_SIZE) == PadZeros(len)
  {
    DivUnique(len + 1, BLOCK_SIZE, len / BLOCK_SIZE + (len % BLOCK_SIZE + 1) / BLOCK_SIZE, (len % BLOCK_SIZE + 1) % BLOCK_SIZE);
  }

  /** The context is determined by the message, up to the buffer bytes past
      the live ones. */
  lemma RepresentsUnique(c: Ctx, d: Ctx, msg: seq<byte>)
    requires Represents(c, msg) && Represents(d, msg)
    ensures c.state == d.state && c.count0 == d.count0 && c.count1 == d.count1
    ensures c.buffer[..|msg| % BLOCK_SIZE] == d.buffer[..|msg| % BLOCK_SIZE]
  {
    hide Compress, CompressAll;
    DivUnique(c.count0 + TWO_32 * c.count1, TWO_32, c.count1, c.count0);
    DivUnique(c.count0 + TWO_32 * c.count1, TWO_32, d.count1, d.count0);
  }

  /** Feeding the input in two `update` calls reaches the same hash value,
      count and digest as feeding it in one. */
  lemma UpdateSplit(ctx: Ctx, msg: seq<byte>, a: seq<byte>, b: seq<byte>)
    requires Represents(ctx, msg)
    ensures var one, two := Update(ctx, a + b), Update(Update(ctx, a), b);
            one.state == two.state && one.count0 == two.count0 && one.count1 == two.count1 &&
            Final(one).digest == Final(two).digest
  {
    hide Compress, CompressAll, Update, Final;
    UpdateRepresents(ctx, msg, a + b);
    UpdateRepresents(ctx, msg, a);
    UpdateRepresents(Update(ctx, a), msg + a, b);
    assert msg + a + b == msg + (a + b);
    RepresentsUnique(Update(ctx, a + b), Update(Update(ctx, a), b), msg + (a + b));
    FinalDigest(Update(ctx, a + b), msg + (a + b));
    FinalDigest(Update(Update(ctx, a), b), msg + (a + b));
  }
}
