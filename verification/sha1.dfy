/** SHA-1 (FIPS 180-4): the compression function `SHA1_transform` and the
    reference hash it is part of. The context-level operations are in
    module Sha1Context. */
module Sha1 {
  import opened Ints
  import ByteOrder

  type Word = bv32

  const BLOCK_SIZE := 64
  const DIGEST_SIZE := 20

  /** Initial hash value, FIPS 180-4 section 5.3.1. */
  const H0: seq<Word> := [0x67452301, 0xEFCDAB89, 0x98BADCFE, 0x10325476, 0xC3D2E1F0]

  /** The `rol` macro: left rotation by 0 < n < 32 bits. */
  function Rol(x: Word, n: nat): Word
    requires 0 < n < 32
  {
    (x << n) | (x >> (32 - n))
  }

  /** The logical functions of FIPS 180-4 section 4.1.1. */
  function Ch(x: Word, y: Word, z: Word): Word { (x & y) ^ (!x & z) }
  function Parity(x: Word, y: Word, z: Word): Word { x ^ y ^ z }
  function Maj(x: Word, y: Word, z: Word): Word { (x & y) ^ (x & z) ^ (y & z) }

  /** The round function in the forms the R0..R4 macros use. */
  function F(t: nat, b: Word, c: Word, d: Word): Word
    requires t < 80
  {
    if t < 20 then (b & (c ^ d)) ^ d
    else if t < 40 then b ^ c ^ d
    else if t < 60 then ((b | c) & d) | (b & c)
    else b ^ c ^ d
  }

  /** The macros' shortcuts compute the standard functions: Ch for steps
      0..19, Maj for 40..59, Parity elsewhere. */
  lemma FIsStandard(t: nat, b: Word, c: Word, d: Word)
    requires t < 80
    ensures F(t, b, c, d) == StandardF(t, b, c, d)
  {
    var f := F(t, b, c, d);
    var g := StandardF(t, b, c, d);
    if t < 20 {
      ChoiceShortcut(b, c, d);
      assert f == (b & (c ^ d)) ^ d && g == Ch(b, c, d);
    } else if 40 <= t < 60 {
      MajorityShortcut(b, c, d);
      assert f == ((b | c) & d) | (b & c) && g == Maj(b, c, d);
    } else {
      assert f == b ^ c ^ d && g == Parity(b, c, d);
    }
    assert f == g;
  }

  /** The function of FIPS 180-4 section 4.1.1 for step t. */
  function StandardF(t: nat, b: Word, c: Word, d: Word): Word
    requires t < 80
  {
    if t < 20 then Ch(b, c, d)
    else if t < 40 then Parity(b, c, d)
    else if t < 60 then Maj(b, c, d)
    else Parity(b, c, d)
  }

  lemma ChoiceShortcut(x: Word, y: Word, z: Word)
    ensures (x & (y ^ z)) ^ z == Ch(x, y, z)
  {
  }

  lemma MajorityShortcut(x: Word, y: Word, z: Word)
    ensures ((x | y) & z) | (x & y) == Maj(x, y, z)
  {
  }

  /** Round constants, FIPS 180-4 section 4.2.1. */
  function K(t: nat): Word
    requires t < 80
  {
    if t < 20 then 0x5A827999
    else if t < 40 then 0x6ED9EBA1
    else if t < 60 then 0x8F1BBCDC
    else 0xCA62C1D6
  }

  /** Word i of a block, read big-endian (`blk0`). */
  function BlockWord(block: seq<byte>, i: nat): Word
    requires |block| == BLOCK_SIZE && i < 16
  {
    ByteOrder.GetBE(block[4 * i..4 * i + 4]) as Word
  }

  function BlockWords(block: seq<byte>): (m: seq<Word>)
    requires |block| == BLOCK_SIZE
    ensures |m| == 16
  {
    seq(16, i requires 0 <= i < 16 => BlockWord(block, i))
  }

  /** The message schedule W of FIPS 180-4 section 6.1.2, step 1. */
  function Schedule(m: seq<Word>, t: nat): Word
    requires |m| == 16 && t < 80
  {
    if t < 16 then m[t]
    else Rol(Schedule(m, t - 3) ^ Schedule(m, t - 8) ^ Schedule(m, t - 14) ^ Schedule(m, t - 16), 1)
  }

  /** The working variables a..e. */
  datatype Vars = Vars(a: Word, b: Word, c: Word, d: Word, e: Word)

  /** One step of FIPS 180-4 section 6.1.2, step 3. The macros rename the
      variables instead of moving them; the values are the same. */
  function Round(t: nat, v: Vars, w: Word): Vars
    requires t < 80
  {
    Vars(Rol(v.a, 5) + F(t, v.b, v.c, v.d) + v.e + K(t) + w, v.a, Rol(v.b, 30), v.c, v.d)
  }

  /** Steps t..79. */
  function Rounds(m: seq<Word>, t: nat, v: Vars): Vars
    requires |m| == 16 && t <= 80
    decreases 80 - t
  {
    if t == 80 then v else Rounds(m, t + 1, Round(t, v, Schedule(m, t)))
  }

  function AddVars(h: seq<Word>, v: Vars): (r: seq<Word>)
    requires |h| == 5
    ensures |r| == 5
  {
    [h[0] + v.a, h[1] + v.b, h[2] + v.c, h[3] + v.d, h[4] + v.e]
  }

  /** The compression of one block into the hash value. */
  function Compress(h: seq<Word>, block: seq<byte>): (r: seq<Word>)
    requires |h| == 5 && |block| == BLOCK_SIZE
    ensures |r| == 5
  {
    AddVars(h, Rounds(BlockWords(block), 0, Vars(h[0], h[1], h[2], h[3], h[4])))
  }

  /** The window the macros keep: the last sixteen schedule words, word k
      in slot k mod 16. */
  predicate Window(l: seq<Word>, m: seq<Word>, t: nat)
    requires |m| == 16 && 16 <= t <= 80
  {
    |l| == 16 && forall k :: t - 16 <= k < t ==> l[k % 16] == Schedule(m, k)
  }

  /** `SHA1_transform`: the 80 steps computed over a 16-word circular
      buffer (`blk`), as the unrolled macros do. */
  method Transform(h: seq<Word>, block: seq<byte>) returns (r: seq<Word>)
    requires |h| == 5 && |block| == BLOCK_SIZE
    ensures r == Compress(h, block)
  {
    var m := BlockWords(block);
    var l := m;
    var v0 := Vars(h[0], h[1], h[2], h[3], h[4]);
    var v := v0;
    var t := 0;
    while t < 16
      invariant 0 <= t <= 16
      invariant Rounds(m, t, v) == Rounds(m, 0, v0)
    {
      v := Round(t, v, l[t]);
      t := t + 1;
    }
    WindowStart(m);
    while t < 80
      invariant 16 <= t <= 80
      invariant Window(l, m, t)
      invariant Rounds(m, t, v) == Rounds(m, 0, v0)
    {
      var x := Rol(l[(t + 13) % 16] ^ l[(t + 8) % 16] ^ l[(t + 2) % 16] ^ l[t % 16], 1);
      WindowNext(l, m, t);
      WindowStep(l, m, t, x);
      l := l[t % 16 := x];
      v := Round(t, v, x);
      t := t + 1;
    }
    r := AddVars(h, v);
  }

  /** Before step 16 the window is the block itself. */
  lemma WindowStart(m: seq<Word>)
    requires |m| == 16
    ensures Window(m, m, 16)
  {
    forall k | 0 <= k < 16
      ensures m[k % 16] == Schedule(m, k)
    {
      assert k % 16 == k;
    }
  }

  /** `blk(i)` computes schedule word i from the window: slots i+13, i+8,
      i+2 and i (mod 16) hold words i-3, i-8, i-14 and i-16. */
  lemma WindowNext(l: seq<Word>, m: seq<Word>, t: nat)
    requires |m| == 16 && 16 <= t < 80 && Window(l, m, t)
    ensures Rol(l[(t + 13) % 16] ^ l[(t + 8) % 16] ^ l[(t + 2) % 16] ^ l[t % 16], 1) == Schedule(m, t)
  {
    hide Rol;
    assert (t + 13) % 16 == (t - 3) % 16 && (t + 8) % 16 == (t - 8) % 16;
    assert (t + 2) % 16 == (t - 14) % 16 && t % 16 == (t - 16) % 16;
    assert l[(t - 3) % 16] == Schedule(m, t - 3);
    assert l[(t - 8) % 16] == Schedule(m, t - 8);
    assert l[(t - 14) % 16] == Schedule(m, t - 14);
    assert l[(t - 16) % 16] == Schedule(m, t - 16);
  }

  /** Overwriting the oldest slot with word t moves the window on. */
  lemma WindowStep(l: seq<Word>, m: seq<Word>, t: nat, x: Word)
    requires |m| == 16 && 16 <= t < 80 && Window(l, m, t) && x == Schedule(m, t)
    ensures Window(l[t % 16 := x], m, t + 1)
  {
    hide Schedule;
    var l' := l[t % 16 := x];
    forall k | t + 1 - 16 <= k < t + 1
      ensures l'[k % 16] == Schedule(m, k)
    {
      if k < t {
        assert k % 16 != t % 16 by {
          assert 0 < t - k < 16;
        }
      }
    }
  }

  /** The hash value after the blocks of `data`, in order. */
  function CompressAll(h: seq<Word>, data: seq<byte>): (r: seq<Word>)
    requires |h| == 5 && |data| % BLOCK_SIZE == 0
    ensures |r| == 5
    decreases |data|
  {
    if |data| == 0 then h
    else
      BlockAligned(|data|);
      CompressAll(Compress(h, data[..BLOCK_SIZE]), data[BLOCK_SIZE..])
  }

  /** A non-empty whole number of blocks starts with a full block. */
  lemma BlockAligned(n: nat)
    requires n > 0 && n % BLOCK_SIZE == 0
    ensures n >= BLOCK_SIZE && (n - BLOCK_SIZE) % BLOCK_SIZE == 0
  {
  }

  lemma {:induction false} CompressAllAppend(h: seq<Word>, a: seq<byte>, b: seq<byte>)
    requires |h| == 5 && |a| % BLOCK_SIZE == 0 && |b| % BLOCK_SIZE == 0
    ensures CompressAll(h, a + b) == CompressAll(CompressAll(h, a), b)
    decreases |a|
  {
    if |a| == 0 {
      assert a + b == b;
    } else {
      BlockAligned(|a|);
      assert (a + b)[..BLOCK_SIZE] == a[..BLOCK_SIZE];
      assert (a + b)[BLOCK_SIZE..] == a[BLOCK_SIZE..] + b;
      CompressAllAppend(Compress(h, a[..BLOCK_SIZE]), a[BLOCK_SIZE..], b);
    }
  }

  /** One more block at the end. */
  lemma CompressAllSnoc(h: seq<Word>, a: seq<byte>, block: seq<byte>)
    requires |h| == 5 && |a| % BLOCK_SIZE == 0 && |block| == BLOCK_SIZE
    ensures CompressAll(h, a + block) == Compress(CompressAll(h, a), block)
  {
    CompressAllAppend(h, a, block);
    assert block[BLOCK_SIZE..] == [];
    assert block[..BLOCK_SIZE] == block;
  }

  function Zeros(n: nat): (r: seq<byte>)
    ensures |r| == n && forall i :: 0 <= i < n ==> r[i] == 0
  {
    seq(n, i => 0)
  }

  /** Number of zero bytes after 0x80 that bring a message of n bytes to
      56 mod 64 (FIPS 180-4 section 5.1.1). */
  function PadZeros(n: nat): (k: nat)
    ensures k < BLOCK_SIZE && (n + 1 + k) % BLOCK_SIZE == 56
  {
    (55 - n % BLOCK_SIZE + BLOCK_SIZE) % BLOCK_SIZE
  }

  lemma PaddedLength(n: nat)
    ensures (n + 1 + PadZeros(n) + 8) % BLOCK_SIZE == 0
  {
    var k := PadZeros(n);
    var q := (n + 1 + k) / BLOCK_SIZE;
    assert n + 1 + k == q * BLOCK_SIZE + 56;
    assert n + 1 + k + 8 == (q + 1) * BLOCK_SIZE;
  }

  /** The message length field: the bit count, modulo 2^64, big-endian. */
  function LengthField(n: nat): (r: seq<byte>)
    ensures |r| == 8
  {
    ByteOrder.SetBE(8, (8 * n) % TWO_64)
  }

  /** The padded message of FIPS 180-4 section 5.1.1. */
  function Pad(msg: seq<byte>): (p: seq<byte>)
    ensures |p| % BLOCK_SIZE == 0 && |p| > |msg|
  {
    PaddedLength(|msg|);
    msg + [0x80] + Zeros(PadZeros(|msg|)) + LengthField(|msg|)
  }

  /** The five words big-endian (section 6.1.2, step 4). */
  function DigestBytes(h: seq<Word>): (r: seq<byte>)
    requires |h| == 5
    ensures |r| == DIGEST_SIZE
  {
    ByteOrder.SetBE(4, h[0] as int) + ByteOrder.SetBE(4, h[1] as int) + ByteOrder.SetBE(4, h[2] as int) +
    ByteOrder.SetBE(4, h[3] as int) + ByteOrder.SetBE(4, h[4] as int)
  }

  /** SHA-1 of a message. */
  function Hash(msg: seq<byte>): (r: seq<byte>)
    ensures |r| == DIGEST_SIZE
  {
    DigestBytes(CompressAll(H0, Pad(msg)))
  }
}
