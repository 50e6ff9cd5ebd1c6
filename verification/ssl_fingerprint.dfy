/** `SSLFingerprint`: a digest algorithm name and the digest of a
    certificate, with its text form of RFC 4572 section 5 (uppercase hex
    pairs joined by ':'). */
module SslFingerprint {
  import opened Ints
  import opened Wrappers
  import opened StringEncode
  import MessageDigest

  /** The largest digest any supported algorithm produces (SHA-512). */
  const MAX_DIGEST_SIZE := 64
  const FINGERPRINT_DELIMITER: char := ':'

  datatype Fingerprint = Fingerprint(algorithm: string, digest: seq<byte>)

  /** A certificate, seen only through its digest computation: the digest
      under a named algorithm, or None when the computation fails (unknown
      algorithm, or a digest that does not fit 64 bytes). */
  datatype Certificate = Certificate(computeDigest: string -> Option<seq<byte>>)

  /** An identity holds a certificate. */
  datatype Identity = Identity(certificate: Certificate)

  /** `create(algorithm, cert)`: the fingerprint of the certificate's
      digest, or None when the digest cannot be computed. */
  function CreateFromCertificate(algorithm: string, cert: Certificate): (r: Option<Fingerprint>)
    ensures r.Some? <==> cert.computeDigest(algorithm).Some?
    ensures r.Some? ==> r.value.algorithm == algorithm && r.value.digest == cert.computeDigest(algorithm).value
  {
    match cert.computeDigest(algorithm)
    case None => None
    case Some(value) => Some(Fingerprint(algorithm, value))
  }

  /** `create(algorithm, identity)`: None for a missing identity, otherwise
      the fingerprint of its certificate. */
  function Create(algorithm: string, identity: Option<Identity>): (r: Option<Fingerprint>)
    ensures identity.None? ==> r.None?
    ensures identity.Some? ==> r == CreateFromCertificate(algorithm, identity.value.certificate)
  {
    match identity
    case None => None
    case Some(id) => CreateFromCertificate(algorithm, id.certificate)
  }

  /** `create_from_rfc4572`: None for an empty or non-FIPS 180 algorithm,
      for empty text, or when the colon-separated text does not decode (as
      the source's decoder reads it) into at most 64 bytes or decodes to
      nothing. */
  function CreateFromRfc4572(algorithm: string, fingerprint: string): (r: Option<Fingerprint>)
    ensures algorithm == [] || !MessageDigest.IsFips180(algorithm) || fingerprint == [] ==> r.None?
    ensures var d := DecodeTextAsWritten(fingerprint, FINGERPRINT_DELIMITER);
            r.Some? <==> MessageDigest.IsFips180(algorithm) && d.Some? && 1 <= |d.value| <= MAX_DIGEST_SIZE
    ensures r.Some? ==> r.value == Fingerprint(algorithm, DecodeTextAsWritten(fingerprint, FINGERPRINT_DELIMITER).value)
  {
    if algorithm == [] || !MessageDigest.IsFips180(algorithm) then None
    else if fingerprint == [] then None
    else
      match HexDecodeBuffer(true, MAX_DIGEST_SIZE, fingerprint, FINGERPRINT_DELIMITER)
      case None => None
      case Some(value) => if |value| == 0 then None else Some(Fingerprint(algorithm, value))
  }

  /** `::toupper` in the C locale. */
  function ToUpper(c: char): (u: char)
    ensures 'a' <= c <= 'z' ==> 'A' <= u <= 'Z' && u as int - 'A' as int == c as int - 'a' as int
    ensures !('a' <= c <= 'z') ==> u == c
  {
    if 'a' <= c <= 'z' then (c as int - 'a' as int + 'A' as int) as char else c
  }

  function ToUpperText(s: string): (r: string)
    ensures |r| == |s| && forall i :: 0 <= i < |s| ==> r[i] == ToUpper(s[i])
  {
    seq(|s|, i requires 0 <= i < |s| => ToUpper(s[i]))
  }

  /** `get_rfc4572_fingerprint`: the colon-separated hex text, uppercased. */
  function Rfc4572(fp: Fingerprint): (text: string)
    ensures |fp.digest| > 0 ==> |text| == 3 * |fp.digest| - 1
  {
    ToUpperText(HexEncodeWithDelimiter(fp.digest, FINGERPRINT_DELIMITER))
  }

  predicate IsUpperHexDigit(c: char) {
    '0' <= c <= '9' || 'A' <= c <= 'F'
  }

  predicate IsLowerHexDigit(c: char) {
    '0' <= c <= '9' || 'a' <= c <= 'f'
  }

  /** Position i of a colon-separated pair text: a colon exactly at the
      positions 3k+2, a lowercase hex digit elsewhere. */
  predicate ShapedAt(t: string, i: nat)
    requires i < |t|
  {
    (t[i] == ':' <==> i % 3 == 2) && (i % 3 != 2 ==> IsLowerHexDigit(t[i]))
  }

  predicate ColonPairs(t: string) {
    forall i: nat :: i < |t| ==> ShapedAt(t, i)
  }

  /** The RFC 4572 text is uppercase hex pairs with a colon between
      consecutive pairs and nowhere else. */
  lemma Rfc4572Shape(fp: Fingerprint)
    ensures var t := Rfc4572(fp);
            forall i :: 0 <= i < |t| ==> (t[i] == ':' <==> i % 3 == 2)
    ensures var t := Rfc4572(fp);
            forall i :: 0 <= i < |t| && i % 3 != 2 ==> IsUpperHexDigit(t[i])
  {
    var e := EncodeText(fp.digest, FINGERPRINT_DELIMITER);
    EncodeShape(fp.digest);
    var t := Rfc4572(fp);
    forall i | 0 <= i < |t|
      ensures (t[i] == ':' <==> i % 3 == 2) && (i % 3 != 2 ==> IsUpperHexDigit(t[i]))
    {
      assert ShapedAt(e, i);
      assert t[i] == ToUpper(e[i]);
    }
  }

  /** The colon-delimited encoding has that shape, by induction on the
      bytes. */
  lemma {:induction false} EncodeShape(x: seq<byte>)
    ensures ColonPairs(EncodeText(x, FINGERPRINT_DELIMITER))
    decreases |x|
  {
    if |x| > 0 {
      var b, xs := x[0], x[1..];
      assert x == [b] + xs;
      EncodeShape(xs);
      EncodeTextCons(b, xs, FINGERPRINT_DELIMITER);
      HexPairDecodes(b);
      var p := HexPair(b);
      assert IsLowerHexDigit(p[0]) && IsLowerHexDigit(p[1]);
      var tail := EncodeText(xs, FINGERPRINT_DELIMITER);
      if |xs| > 0 {
        assert EncodeText(x, FINGERPRINT_DELIMITER) == p + [':'] + tail;
        ColonPairsCons(p, tail);
      } else {
        assert EncodeText(x, FINGERPRINT_DELIMITER) == p;
        assert ShapedAt(p, 0) && ShapedAt(p, 1);
      }
    }
  }

  lemma ColonPairsCons(p: string, tail: string)
    requires |p| == 2 && IsLowerHexDigit(p[0]) && IsLowerHexDigit(p[1])
    requires ColonPairs(tail)
    ensures ColonPairs(p + [':'] + tail)
  {
    var t := p + [':'] + tail;
    forall i: nat | i < |t|
      ensures ShapedAt(t, i)
    {
      if i >= 3 {
        assert t[i] == tail[i - 3] && ShapedAt(tail, i - 3);
        assert i % 3 == (i - 3) % 3;
      }
    }
  }

  /** Uppercasing keeps hex digits hex digits of the same value and leaves
      a non-letter delimiter alone. */
  lemma UpperChar(c: char, d: char)
    requires !('a' <= d <= 'z') && !('A' <= d <= 'Z')
    ensures IsHexDigit(ToUpper(c)) <==> IsHexDigit(c)
    ensures IsHexDigit(c) ==> HexDecodeChar(ToUpper(c)) == HexDecodeChar(c)
    ensures ToUpper(c) == d <==> c == d
  {
  }

  lemma UpperDrop(s: string, k: nat)
    requires k <= |s|
    ensures ToUpperText(s)[k..] == ToUpperText(s[k..])
  {
  }

  /** Uppercasing does not change what a text decodes to, for a delimiter
      that is not a letter. */
  lemma {:induction false} DecodeIgnoresCase(s: string, d: char)
    requires !('a' <= d <= 'z') && !('A' <= d <= 'Z')
    ensures DecodeText(ToUpperText(s), d) == DecodeText(s, d)
    decreases |s|
  {
    if |s| >= 2 {
      UpperChar(s[0], d);
      UpperChar(s[1], d);
      if IsHexDigit(s[0]) && IsHexDigit(s[1]) {
        UpperDrop(s, 2);
        var r := s[2..];
        if SkipsDelimiter(r, d) {
          UpperChar(r[0], d);
          UpperDrop(r, 1);
        }
        DecodeIgnoresCase(AfterPair(r, d), d);
      }
    }
  }

  /** Parsing the RFC 4572 text of a fingerprint gives the fingerprint
      back, for a FIPS 180 algorithm and a digest of 1 to 64 bytes. */
  lemma Rfc4572RoundTrip(fp: Fingerprint)
    requires MessageDigest.IsFips180(fp.algorithm)
    requires 1 <= |fp.digest| <= MAX_DIGEST_SIZE
    ensures CreateFromRfc4572(fp.algorithm, Rfc4572(fp)) == Some(fp)
  {
    var text := HexEncodeWithDelimiter(fp.digest, FINGERPRINT_DELIMITER);
    DecodeEncode(fp.digest, FINGERPRINT_DELIMITER);
    DecodeIgnoresCase(text, FINGERPRINT_DELIMITER);
    DecodeTextAgrees(Rfc4572(fp), FINGERPRINT_DELIMITER);
  }

  /** The source's decoder takes letters past 'f': "gg" is accepted as a
      one-byte SHA-1 fingerprint, although it is not hexadecimal. */
  lemma CreateFromRfc4572AcceptsNonHex()
    ensures CreateFromRfc4572(MessageDigest.DIGEST_SHA_1, "gg") == Some(Fingerprint(MessageDigest.DIGEST_SHA_1, [0x10]))
  {
    HexDecodeCharAcceptsNonHexLetters();
    var src := "gg";
    assert IsDigitOrLetter(src[0]) && IsDigitOrLetter(src[1]);
    assert AfterPair(src[2..], FINGERPRINT_DELIMITER) == [];
    assert DecodeTextAsWritten(src, FINGERPRINT_DELIMITER) == Some([CombineAsWritten(16, 16)] + []);
    assert [CombineAsWritten(16, 16)] + [] == [0x10];
  }

  /** `to_string`: the algorithm, a space, and the RFC 4572 text. */
  function ToString(fp: Fingerprint): (s: string)
    ensures |s| == |fp.algorithm| + 1 + |Rfc4572(fp)|
    ensures s[..|fp.algorithm|] == fp.algorithm && s[|fp.algorithm|] == ' '
    ensures s[|fp.algorithm| + 1..] == Rfc4572(fp)
  {
    fp.algorithm + " " + Rfc4572(fp)
  }

  /** `operator==`: equal algorithms, equal lengths and byte-equal digests
      (memcmp over the common length). */
  function Equal(a: Fingerprint, b: Fingerprint): (r: bool)
    ensures r <==> a == b
  {
    a.algorithm == b.algorithm && |a.digest| == |b.digest| &&
    forall i :: 0 <= i < |a.digest| ==> a.digest[i] == b.digest[i]
  }

  /** The copy constructor: the same algorithm and a fresh copy of the
      digest bytes. */
  function Copy(from: Fingerprint): (r: Fingerprint)
    ensures Equal(r, from)
  {
    Fingerprint(from.algorithm, seq(|from.digest|, i requires 0 <= i < |from.digest| => from.digest[i]))
  }
}
