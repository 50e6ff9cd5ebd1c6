/** The `MessageDigest` interface and what is built on it: the digest
    factory, the FIPS 180 allow-list, `compute_digest` and the RFC 2104 HMAC.
    A digest object is its hash function, its output size and the bytes fed
    to it since its last successful `finish`. */
module MessageDigest {
  import opened Ints
  import opened Wrappers
  import Sha1

  // Algorithm names (RFC 4572).
  const DIGEST_MD5 := "md5"
  const DIGEST_SHA_1 := "sha-1"
  const DIGEST_SHA_224 := "sha-224"
  const DIGEST_SHA_256 := "sha-256"
  const DIGEST_SHA_384 := "sha-384"
  const DIGEST_SHA_512 := "sha-512"

  /** The HMAC block length; right for SHA-256 and the smaller hashes. */
  const BLOCK_LEN := 64
  /** The largest digest size `compute_hmac` accepts. */
  const MAX_HMAC_DIGEST := 32
  const MD5_SIZE := 16

  const IPAD: byte := 0x36
  const OPAD: byte := 0x5c

  /** A hash algorithm: its output size and its function from messages to
      digests. */
  datatype Hasher = Hasher(size: nat, hash: seq<byte> -> seq<byte>)

  ghost predicate ValidHasher(h: Hasher) {
    forall m :: |h.hash(m)| == h.size
  }

  /** A `MessageDigest` object: the algorithm and the bytes fed since the
      last successful `finish`. */
  datatype Digest = Digest(hasher: Hasher, pending: seq<byte>)

  /** What `finish` leaves: the return value, the bytes written to the
      output buffer, and the digest object afterwards. */
  datatype Finished = Finished(written: nat, output: seq<byte>, digest: Digest)

  function Update(d: Digest, data: seq<byte>): (r: Digest)
    ensures r.hasher == d.hasher && |r.pending| == |d.pending| + |data|
    ensures r.pending[..|d.pending|] == d.pending && r.pending[|d.pending|..] == data
  {
    Digest(d.hasher, d.pending + data)
  }

  /** `finish` of the digest objects (`Sha1Digest`, `Md5Digest`): a buffer
      shorter than the digest gets nothing and the object is untouched;
      otherwise the digest of the pending bytes is written, the object is
      reset, and the digest size is returned. */
  function Finish(d: Digest, len: nat): (r: Finished)
    requires ValidHasher(d.hasher)
    ensures len < d.hasher.size ==> r.written == 0 && r.output == [] && r.digest == d
    ensures len >= d.hasher.size ==>
              r.written == d.hasher.size && |r.output| == r.written &&
              r.output == d.hasher.hash(d.pending) && r.digest == Digest(d.hasher, [])
  {
    if len < d.hasher.size then Finished(0, [], d)
    else Finished(d.hasher.size, d.hasher.hash(d.pending), Digest(d.hasher, []))
  }

  /** `compute_digest`: update, then finish. */
  function ComputeDigest(d: Digest, input: seq<byte>, outLen: nat): (r: Finished)
    requires ValidHasher(d.hasher)
    ensures outLen >= d.hasher.size ==>
              r.written == d.hasher.size && r.output == d.hasher.hash(d.pending + input) &&
              r.digest.pending == []
    ensures outLen < d.hasher.size ==> r.written == 0 && r.digest.pending == d.pending + input
  {
    Finish(Update(d, input), outLen)
  }

  /** A fresh object of the SHA-1 digest. */
  function Sha1Hasher(): (h: Hasher)
    ensures ValidHasher(h) && h.size == Sha1.DIGEST_SIZE
  {
    Hasher(Sha1.DIGEST_SIZE, Sha1.Hash)
  }

  /** `MessageDigestFactory::create` without OpenSSL: `md5` and `sha-1`
      are the only names that give an object. MD5 itself is outside the
      model, so its hash is a parameter. */
  function Create(alg: string, md5: seq<byte> -> seq<byte>): (r: Option<Digest>)
    ensures r.Some? <==> alg == DIGEST_MD5 || alg == DIGEST_SHA_1
    ensures r.Some? ==> r.value.pending == []
    ensures alg == DIGEST_SHA_1 ==> r == Some(Digest(Sha1Hasher(), []))
    ensures alg == DIGEST_MD5 ==> r == Some(Digest(Hasher(MD5_SIZE, md5), []))
  {
    if alg == DIGEST_MD5 then Some(Digest(Hasher(MD5_SIZE, md5), []))
    else if alg == DIGEST_SHA_1 then Some(Digest(Sha1Hasher(), []))
    else None
  }

  /** `is_fips180_digest_algorithm`: the SHA-1 and SHA-2 names. */
  predicate IsFips180(alg: string) {
    alg == DIGEST_SHA_1 || alg == DIGEST_SHA_224 || alg == DIGEST_SHA_256 ||
    alg == DIGEST_SHA_384 || alg == DIGEST_SHA_512
  }

  /** MD5 and anything outside the five SHA names are refused; of the names
      the factory knows, only `sha-1` is a FIPS 180 algorithm. */
  lemma Fips180Names(alg: string, md5: seq<byte> -> seq<byte>)
    ensures !IsFips180(DIGEST_MD5)
    ensures IsFips180(alg) && Create(alg, md5).Some? <==> alg == DIGEST_SHA_1
  {
  }

  function Zeros(n: nat): (r: seq<byte>)
    ensures |r| == n && forall i :: 0 <= i < n ==> r[i] == 0
  {
    seq(n, i => 0)
  }

  /** Each byte of the block-sized key combined with a pad byte. */
  function Salt(key: seq<byte>, pad: byte): (r: seq<byte>)
    ensures |r| == |key| && forall i :: 0 <= i < |key| ==> r[i] == XorByte(pad, key[i])
  {
    seq(|key|, i requires 0 <= i < |key| => XorByte(pad, key[i]))
  }

  /** The HMAC key block K of RFC 2104 section 2: a key longer than the
      block is replaced by its digest; either way it is zero-padded to the
      block length. */
  function KeyBlock(h: Hasher, key: seq<byte>): (k: seq<byte>)
    requires ValidHasher(h) && h.size <= MAX_HMAC_DIGEST
    ensures |k| == BLOCK_LEN
    ensures |key| <= BLOCK_LEN ==> k[..|key|] == key && k[|key|..] == Zeros(BLOCK_LEN - |key|)
    ensures |key| > BLOCK_LEN ==> k[..h.size] == h.hash(key) && k[h.size..] == Zeros(BLOCK_LEN - h.size)
  {
    if |key| > BLOCK_LEN then h.hash(key) + Zeros(BLOCK_LEN - h.size)
    else key + Zeros(BLOCK_LEN - |key|)
  }

  /** `compute_hmac` on a digest object. A digest wider than 32 bytes gives
      0. Otherwise a long key is first digested through the object; the
      inner hash takes the key block salted with 0x36 and the input, the
      outer hash the key block salted with 0x5c and the inner digest. Bytes
      already pending in the object when it is called are hashed along. */
  function ComputeHmac(d: Digest, key: seq<byte>, input: seq<byte>, outLen: nat): (r: Finished)
    requires ValidHasher(d.hasher)
    ensures d.hasher.size > MAX_HMAC_DIGEST ==> r.written == 0 && r.digest == d
    ensures r.digest.hasher == d.hasher
  {
    var h := d.hasher;
    if h.size > MAX_HMAC_DIGEST then Finished(0, [], d)
    else
      var keyed :=
        if |key| > BLOCK_LEN then
          var f := ComputeDigest(d, key, BLOCK_LEN);
          (f.digest, f.output + Zeros(BLOCK_LEN - h.size))
        else (d, key + Zeros(BLOCK_LEN - |key|));
      var inner := Finish(Update(Update(keyed.0, Salt(keyed.1, IPAD)), input), h.size);
      Finish(Update(Update(inner.digest, Salt(keyed.1, OPAD)), inner.output), outLen)
  }

  /** The RFC 2104 construction: on an object with nothing pending, the
      output is H((K ⊕ opad) ‖ H((K ⊕ ipad) ‖ input)), the return value is
      the digest size, and the object is left reset. */
  lemma HmacIsRfc2104(d: Digest, key: seq<byte>, input: seq<byte>, outLen: nat)
    requires ValidHasher(d.hasher) && d.pending == []
    requires d.hasher.size <= MAX_HMAC_DIGEST && outLen >= d.hasher.size
    ensures var h, k := d.hasher, KeyBlock(d.hasher, key);
            var r := ComputeHmac(d, key, input, outLen);
            r.written == h.size && r.digest.pending == [] &&
            r.output == h.hash(Salt(k, OPAD) + h.hash(Salt(k, IPAD) + input))
  {
    var h, k := d.hasher, KeyBlock(d.hasher, key);
    assert [] + Salt(k, IPAD) + input == Salt(k, IPAD) + input;
    assert [] + Salt(k, OPAD) + h.hash(Salt(k, IPAD) + input) == Salt(k, OPAD) + h.hash(Salt(k, IPAD) + input);
    if |key| > BLOCK_LEN {
      assert [] + key == key;
    }
  }

  /** The by-name `compute_hmac`: an algorithm the factory does not know
      gives 0; otherwise HMAC on a fresh object. */
  function ComputeHmacByName(alg: string, md5: seq<byte> -> seq<byte>, key: seq<byte>, input: seq<byte>, outLen: nat): (r: nat)
    requires forall m :: |md5(m)| == MD5_SIZE
    ensures Create(alg, md5).None? ==> r == 0
    ensures alg == DIGEST_SHA_1 && outLen >= Sha1.DIGEST_SIZE ==> r == Sha1.DIGEST_SIZE
  {
    match Create(alg, md5)
    case None => 0
    case Some(d) =>
      var r := ComputeHmac(d, key, input, outLen);
      if alg == DIGEST_SHA_1 && outLen >= Sha1.DIGEST_SIZE then
        HmacIsRfc2104(d, key, input, outLen);
        r.written
      else r.written
  }
}
