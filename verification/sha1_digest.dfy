/** `Sha1Digest`: the `MessageDigest` object over the SHA-1 context. It is
    shown to behave as the abstract digest object of module MessageDigest
    whose hash is SHA-1. */
module Sha1Digest {
  import opened Ints
  import opened Sha1
  import opened Sha1Context
  import MessageDigest

  /** The object holds one SHA-1 context. */
  datatype Sha1Digest = Sha1Digest(ctx: Ctx)

  /** The constructor runs `SHA1_init` on a context whose buffer holds
      whatever was there. */
  function New(buffer: seq<byte>): (d: Sha1Digest)
    requires |buffer| == BLOCK_SIZE
    ensures Represents(d.ctx, [])
  {
    Sha1Digest(Init(Ctx([0, 0, 0, 0, 0], 0, 0, buffer)))
  }

  /** `size()`: the length of every SHA-1 digest. */
  function Size(d: Sha1Digest): (n: nat)
    ensures forall msg :: |Hash(msg)| == n
  {
    DIGEST_SIZE
  }

  function UpdateDigest(d: Sha1Digest, data: seq<byte>): (r: Sha1Digest)
    requires WellFormed(d.ctx)
    ensures WellFormed(r.ctx)
  {
    Sha1Digest(Update(d.ctx, data))
  }

  /** What `finish` returns and leaves behind. */
  datatype Done = Done(written: nat, output: seq<byte>, digest: Sha1Digest)

  /** `finish`: with room for fewer than 20 bytes nothing happens and 0 is
      returned; otherwise `SHA1_final` writes the digest, `SHA1_init`
      resets the context, and 20 is returned. */
  function Finish(d: Sha1Digest, len: nat): (r: Done)
    requires WellFormed(d.ctx)
    ensures len < DIGEST_SIZE ==> r.written == 0 && r.output == [] && r.digest == d
    ensures len >= DIGEST_SIZE ==> r.written == DIGEST_SIZE && |r.output| == DIGEST_SIZE
    ensures len >= DIGEST_SIZE ==> Represents(r.digest.ctx, [])
  {
    if len < DIGEST_SIZE then Done(0, [], d)
    else
      var f := Final(d.ctx);
      Done(DIGEST_SIZE, f.digest, Sha1Digest(Init(f.ctx)))
  }

  /** `finish` writes the SHA-1 of every byte fed since the object was
      created or last finished. */
  lemma FinishIsHash(d: Sha1Digest, msg: seq<byte>, len: nat)
    requires Represents(d.ctx, msg) && len >= DIGEST_SIZE
    ensures Finish(d, len).output == Hash(msg)
  {
    hide Compress, CompressAll, Update;
    FinalDigest(d.ctx, msg);
  }

  /** The object is the abstract digest object whose hash is SHA-1 and whose
      pending bytes are the message it represents: `update` and `finish`
      agree with the abstract ones, and the representation is kept. */
  lemma RefinesMessageDigest(d: Sha1Digest, msg: seq<byte>, data: seq<byte>, len: nat)
    requires Represents(d.ctx, msg)
    ensures var a := MessageDigest.Digest(MessageDigest.Sha1Hasher(), msg);
            var u, au := UpdateDigest(d, data), MessageDigest.Update(a, data);
            Represents(u.ctx, au.pending) &&
            var f, af := Finish(u, len), MessageDigest.Finish(au, len);
            f.written == af.written && f.output == af.output &&
            Represents(f.digest.ctx, af.digest.pending)
  {
    hide Compress, CompressAll, Update;
    UpdateRepresents(d.ctx, msg, data);
    if len >= DIGEST_SIZE {
      FinishIsHash(UpdateDigest(d, data), msg + data, len);
    }
  }

  /** After a finish the object starts over: feeding `a`, finishing, then
      feeding `b` and finishing yields the digests of `a` and of `b`. */
  lemma ConsecutiveDigests(d: Sha1Digest, a: seq<byte>, b: seq<byte>)
    requires Represents(d.ctx, [])
    ensures var first := Finish(UpdateDigest(d, a), DIGEST_SIZE);
            var second := Finish(UpdateDigest(first.digest, b), DIGEST_SIZE);
            first.output == Hash(a) && second.output == Hash(b)
  {
    hide Compress, CompressAll, Update;
    UpdateRepresents(d.ctx, [], a);
    assert [] + a == a;
    FinishIsHash(UpdateDigest(d, a), a, DIGEST_SIZE);
    var first := Finish(UpdateDigest(d, a), DIGEST_SIZE);
    UpdateRepresents(first.digest.ctx, [], b);
    assert [] + b == b;
    FinishIsHash(UpdateDigest(first.digest, b), b, DIGEST_SIZE);
  }
}
