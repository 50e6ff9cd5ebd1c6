/** Hex encoding and decoding with an optional delimiter between byte pairs,
    and the field splitters of string_encode.cpp. A delimiter of '\0' means
    "no delimiter", as in the source. */
module StringEncode {
  import opened Ints
  import opened Wrappers

  const HEX_DIGITS: string := "0123456789abcdef"
  const NO_DELIMITER: char := '\0'

  /** `hex_encode(val)`: the lowercase hex digit of a nibble, '!' otherwise. */
  function HexEncodeNibble(v: byte): (c: char)
    ensures v < 16 ==> HexDecodeChar(c) == Some(v) && !('A' <= c <= 'F')
    ensures v >= 16 ==> c == '!'
  {
    if v < 10 then ('0' as int + v) as char
    else if v < 16 then ('a' as int + v - 10) as char
    else '!'
  }

  /** The encoder's digits are those of the table "0123456789abcdef". */
  lemma HexEncodeNibbleTable(v: byte)
    requires v < 16
    ensures HexEncodeNibble(v) == HEX_DIGITS[v]
  {
  }

  /** `hex_decode(ch)` exactly as written: any ASCII letter is accepted, with
      value ch - 'A' + 10 (or ch - 'a' + 10), so 'g' decodes to 16 and 'z'
      to 35. */
  function HexDecodeCharAsWritten(ch: char): (r: Option<nat>)
    ensures r.Some? <==> ('0' <= ch <= '9' || 'A' <= ch <= 'Z' || 'a' <= ch <= 'z')
    ensures r.Some? ==> r.value < 36
  {
    if '0' <= ch <= '9' then Some(ch as int - '0' as int)
    else if 'A' <= ch <= 'Z' then Some(ch as int - 'A' as int + 10)
    else if 'a' <= ch <= 'z' then Some(ch as int - 'a' as int + 10)
    else None
  }

  predicate IsHexDigit(ch: char) {
    '0' <= ch <= '9' || 'A' <= ch <= 'F' || 'a' <= ch <= 'f'
  }

  /** `hex_decode(ch)` restricted to the sixteen hex digits in either case. */
  function HexDecodeChar(ch: char): (r: Option<byte>)
    ensures r.Some? <==> IsHexDigit(ch)
    ensures r.Some? ==> r.value < 16
  {
    if '0' <= ch <= '9' then Some(ch as int - '0' as int)
    else if 'A' <= ch <= 'F' then Some(ch as int - 'A' as int + 10)
    else if 'a' <= ch <= 'f' then Some(ch as int - 'a' as int + 10)
    else None
  }

  /** Bitwise or of two non-negative integers, one bit at a time from the
      lowest. */
  function BitOr(a: nat, b: nat): nat
    decreases a + b
  {
    if a == 0 then b
    else if b == 0 then a
    else 2 * BitOr(a / 2, b / 2) + (if a % 2 == 1 || b % 2 == 1 then 1 else 0)
  }

  /** Or-ing a number below 2^k into a multiple of 2^k is adding it. */
  lemma {:induction false} BitOrBelowShift(a: nat, b: nat, k: nat)
    requires b < Pow2(k)
    ensures BitOr(a * Pow2(k), b) == a * Pow2(k) + b
    decreases k
  {
    if k == 0 {
      assert b == 0;
    } else if a != 0 && b != 0 {
      var p := Pow2(k - 1);
      assert a * Pow2(k) == 2 * (a * p);
      BitOrBelowShift(a, b / 2, k - 1);
    }
  }

  /** The value of a decoded pair as written: `(h1 << 4) | h2` on the
      promoted digits, stored into a byte. For digits above 15 the two
      halves overlap. */
  function CombineAsWritten(h1: nat, h2: nat): (b: byte)
    requires h1 < 36 && h2 < 36
  {
    BitOr(h1 * 16, h2) % 256
  }

  /** The as-written decoder accepts a non-hex pair: "gg" gives the byte
      0x10 although 'g' is not a hexadecimal digit. */
  lemma HexDecodeCharAcceptsNonHexLetters()
    ensures HexDecodeCharAsWritten('g') == Some(16)
    ensures !IsHexDigit('g')
    ensures CombineAsWritten(16, 16) == 0x10
  {
    assert BitOr(16, 1) == 17;
    assert BitOr(256, 16) == 16 * BitOr(16, 1);
  }

  /** On the sixteen hex digits the as-written and the restricted decoders
      agree; they differ exactly on the letters g..z and G..Z. */
  lemma HexDecodeCharAgreesOnHexDigits(ch: char)
    ensures IsHexDigit(ch) ==> HexDecodeCharAsWritten(ch) == HexDecodeChar(ch)
    ensures HexDecodeCharAsWritten(ch).Some? && HexDecodeChar(ch).None? <==>
              ('G' <= ch <= 'Z' || 'g' <= ch <= 'z')
  {
  }

  /** Decoding an encoded nibble gives it back. */
  lemma HexDecodeEncodeNibble(v: byte)
    requires v < 16
    ensures HexDecodeChar(HexEncodeNibble(v)) == Some(v)
  {
  }

  /** The two digits the encoder writes for one byte, high nibble first. */
  function HexPair(b: byte): (p: seq<char>)
    ensures |p| == 2
  {
    [HexEncodeNibble(b / 16), HexEncodeNibble(b % 16)]
  }

  /** Both digits of a pair decode, and together they give the byte back. */
  lemma HexPairDecodes(b: byte)
    ensures IsHexDigit(HexPair(b)[0]) && IsHexDigit(HexPair(b)[1])
    ensures PairValue(HexPair(b)[0], HexPair(b)[1]) == b
  {
    HexDecodeEncodeNibble(b / 16);
    HexDecodeEncodeNibble(b % 16);
  }

  /** Number of characters the encoder writes before the terminating NUL. */
  function EncodedLength(n: nat, delimiter: char): nat {
    if n == 0 then 0
    else if delimiter == NO_DELIMITER then 2 * n
    else 3 * n - 1
  }

  /** The text of `hex_encode_with_delimiter`: two lowercase digits per byte,
      high nibble first, the delimiter between pairs only. */
  function EncodeText(src: seq<byte>, delimiter: char): (t: seq<char>)
    ensures |t| == EncodedLength(|src|, delimiter)
    decreases |src|
  {
    if |src| == 0 then []
    else
      var sep := if delimiter != NO_DELIMITER && |src| > 1 then [delimiter] else [];
      HexPair(src[0]) + sep + EncodeText(src[1..], delimiter)
  }

  /** The decoding loop of `hex_decode_with_delimiter` with the corrected
      character decoder, which takes only the sixteen hex digits: None for
      an odd trailing character, a character that is not a hex digit, or a
      missing delimiter. */
  function DecodeText(src: seq<char>, delimiter: char): (r: Option<seq<byte>>)
    ensures r.Some? ==> |src| == EncodedLength(|r.value|, delimiter)
    decreases |src|
  {
    if |src| == 0 then Some([])
    else if |src| < 2 || !IsHexDigit(src[0]) || !IsHexDigit(src[1]) then None
    else if SkipsDelimiter(src[2..], delimiter) && src[2] != delimiter then None
    else
      match DecodeText(AfterPair(src[2..], delimiter), delimiter)
      case None => None
      case Some(tail) => Some([PairValue(src[0], src[1])] + tail)
  }

  /** The byte a pair of hex digits stands for, high nibble first. */
  function PairValue(c1: char, c2: char): byte
    requires IsHexDigit(c1) && IsHexDigit(c2)
  {
    HexDecodeChar(c1).value * 16 + HexDecodeChar(c2).value
  }

  /** A character the as-written decoder accepts: a decimal digit or an
      ASCII letter. */
  predicate IsDigitOrLetter(ch: char) {
    HexDecodeCharAsWritten(ch).Some?
  }

  /** The decoding loop of `hex_decode_with_delimiter` as written: each pair
      of digits or letters becomes `(h1 << 4) | h2` truncated to a byte.
      None where the source returns 0: an odd trailing character, a
      character that is neither a digit nor a letter, or a missing
      delimiter. */
  function DecodeTextAsWritten(src: seq<char>, delimiter: char): (r: Option<seq<byte>>)
    ensures r.Some? ==> |src| == EncodedLength(|r.value|, delimiter)
    decreases |src|
  {
    if |src| == 0 then Some([])
    else if |src| < 2 || !IsDigitOrLetter(src[0]) || !IsDigitOrLetter(src[1]) then None
    else if SkipsDelimiter(src[2..], delimiter) && src[2] != delimiter then None
    else
      match DecodeTextAsWritten(AfterPair(src[2..], delimiter), delimiter)
      case None => None
      case Some(tail) =>
        var h1, h2 := HexDecodeCharAsWritten(src[0]).value, HexDecodeCharAsWritten(src[1]).value;
        Some([CombineAsWritten(h1, h2)] + tail)
  }

  /** On two nibbles the as-written combination is the byte h1·16 + h2. */
  lemma CombineNibbles(h1: nat, h2: nat)
    requires h1 < 16 && h2 < 16
    ensures CombineAsWritten(h1, h2) == h1 * 16 + h2
  {
    assert Pow2(4) == 16;
    BitOrBelowShift(h1, h2, 4);
  }

  /** No letter past 'f' or 'F': the only text on which the two decoders
      could read a character differently is ruled out. */
  predicate NoLetterPastF(src: seq<char>) {
    forall i :: 0 <= i < |src| ==> !('G' <= src[i] <= 'Z' || 'g' <= src[i] <= 'z')
  }

  /** The source accepts everything the corrected decoder accepts, with the
      same bytes, and on text with no letter past 'f' the two are the same
      function. */
  lemma {:induction false} DecodeTextAgrees(src: seq<char>, delimiter: char)
    ensures DecodeText(src, delimiter).Some? ==> DecodeTextAsWritten(src, delimiter) == DecodeText(src, delimiter)
    ensures NoLetterPastF(src) ==> DecodeTextAsWritten(src, delimiter) == DecodeText(src, delimiter)
    decreases |src|
  {
    if |src| >= 2 {
      HexDecodeCharAgreesOnHexDigits(src[0]);
      HexDecodeCharAgreesOnHexDigits(src[1]);
      var rest := AfterPair(src[2..], delimiter);
      DecodeTextAgrees(rest, delimiter);
      if NoLetterPastF(src) {
        assert NoLetterPastF(rest) by {
          forall i | 0 <= i < |rest|
            ensures !('G' <= rest[i] <= 'Z' || 'g' <= rest[i] <= 'z')
          {
            assert rest[i] == src[|src| - |rest| + i];
          }
        }
        assert src[0] == src[0 + 0] && src[1] == src[1 + 0];
      }
      if IsHexDigit(src[0]) && IsHexDigit(src[1]) {
        CombineNibbles(HexDecodeChar(src[0]).value, HexDecodeChar(src[1]).value);
      }
    }
  }

  /** The source decodes "gg" to the byte 0x10, which the corrected decoder
      refuses; re-encoding that byte gives "10", not the text it came
      from. */
  lemma DecodeTextAsWrittenAcceptsNonHex()
    ensures DecodeTextAsWritten("gg", NO_DELIMITER) == Some([0x10])
    ensures DecodeText("gg", NO_DELIMITER).None?
    ensures EncodeText([0x10], NO_DELIMITER) == "10" != LowerHexText("gg")
  {
    HexDecodeCharAcceptsNonHexLetters();
    var src := "gg";
    assert IsDigitOrLetter(src[0]) && IsDigitOrLetter(src[1]);
    assert AfterPair(src[2..], NO_DELIMITER) == [];
    assert DecodeTextAsWritten([], NO_DELIMITER) == Some([]);
    assert HexDecodeCharAsWritten(src[0]).value == 16 && HexDecodeCharAsWritten(src[1]).value == 16;
    assert DecodeTextAsWritten(src, NO_DELIMITER) == Some([CombineAsWritten(16, 16)] + []);
    assert [CombineAsWritten(16, 16)] + [] == [0x10];
    assert EncodeText([], NO_DELIMITER) == [];
    assert LowerHexText("gg")[0] == 'g';
  }

  /** The decoders' failure cases: an odd trailing character, a missing
      delimiter between pairs, and a character that is not a digit or a
      letter (as written) or not a hex digit (corrected). */
  lemma DecodeTextRejects(src: seq<char>, delimiter: char)
    ensures |src| == 1 ==> DecodeTextAsWritten(src, delimiter).None? && DecodeText(src, delimiter).None?
    ensures |src| >= 2 && !(IsDigitOrLetter(src[0]) && IsDigitOrLetter(src[1])) ==>
              DecodeTextAsWritten(src, delimiter).None?
    ensures |src| >= 2 && !(IsHexDigit(src[0]) && IsHexDigit(src[1])) ==> DecodeText(src, delimiter).None?
    ensures |src| > 3 && delimiter != NO_DELIMITER && src[2] != delimiter ==>
              DecodeTextAsWritten(src, delimiter).None? && DecodeText(src, delimiter).None?
  {
  }

  /** One step of the decoding loop: a leading pair of hex digits followed
      by the rest of the text. */
  lemma DecodeTextCons(pair: seq<char>, rest: seq<char>, delimiter: char)
    requires |pair| == 2 && IsHexDigit(pair[0]) && IsHexDigit(pair[1])
    ensures DecodeText(pair + rest, delimiter).Some? <==>
              (SkipsDelimiter(rest, delimiter) ==> rest[0] == delimiter) &&
              DecodeText(AfterPair(rest, delimiter), delimiter).Some?
    ensures DecodeText(pair + rest, delimiter).Some? ==>
              DecodeText(pair + rest, delimiter).value ==
              [PairValue(pair[0], pair[1])] + DecodeText(AfterPair(rest, delimiter), delimiter).value
  {
    assert (pair + rest)[2..] == rest;
  }

  /** Whether the loop expects a delimiter after a pair: one is configured
      and more than one character remains. */
  predicate SkipsDelimiter(rest: seq<char>, delimiter: char) {
    delimiter != NO_DELIMITER && |rest| > 1
  }

  /** Where the loop resumes after a pair. */
  function AfterPair(rest: seq<char>, delimiter: char): seq<char> {
    if SkipsDelimiter(rest, delimiter) then rest[1..] else rest
  }

  /** Decoding what the encoder wrote gives the bytes back, for every
      delimiter including none. */
  lemma {:induction false} DecodeEncode(x: seq<byte>, delimiter: char)
    ensures DecodeText(EncodeText(x, delimiter), delimiter) == Some(x)
    decreases |x|
  {
    if |x| > 0 {
      var b, xs := x[0], x[1..];
      assert x == [b] + xs;
      DecodeEncode(xs, delimiter);
      EncodeTextCons(b, xs, delimiter);
      var rest := EncodedRest(xs, delimiter);
      HexPairDecodes(b);
      DecodeTextCons(HexPair(b), rest, delimiter);
    }
  }

  /** What the encoder writes after the first pair: the delimiter (when one
      is configured and more bytes follow) and the encoding of the rest. */
  function EncodedRest(xs: seq<byte>, delimiter: char): (rest: seq<char>)
    ensures AfterPair(rest, delimiter) == EncodeText(xs, delimiter)
    ensures SkipsDelimiter(rest, delimiter) ==> rest[0] == delimiter
  {
    var tail := EncodeText(xs, delimiter);
    if delimiter != NO_DELIMITER && |xs| > 0 then
      assert ([delimiter] + tail)[1..] == tail;
      [delimiter] + tail
    else tail
  }

  /** The lowercase form of a hex digit; other characters are unchanged. */
  function LowerHex(c: char): (l: char)
    ensures !('A' <= c <= 'F') ==> l == c
    ensures IsHexDigit(c) ==> IsHexDigit(l) && HexDecodeChar(l) == HexDecodeChar(c)
  {
    if 'A' <= c <= 'F' then (c as int - 'A' as int + 'a' as int) as char else c
  }

  function LowerHexText(s: seq<char>): (r: seq<char>)
    ensures |r| == |s|
    ensures forall i :: 0 <= i < |s| ==> r[i] == LowerHex(s[i])
  {
    seq(|s|, i requires 0 <= i < |s| => LowerHex(s[i]))
  }

  lemma EncodeDecodedNibble(c: char)
    requires IsHexDigit(c)
    ensures HexEncodeNibble(HexDecodeChar(c).value) == LowerHex(c)
  {
  }

  /** Re-encoding a decoded pair gives the pair in lowercase. */
  lemma EncodeDecodedPair(pair: seq<char>)
    requires |pair| == 2 && IsHexDigit(pair[0]) && IsHexDigit(pair[1])
    ensures HexPair(PairValue(pair[0], pair[1])) == LowerHexText(pair)
  {
    var h1, h2 := HexDecodeChar(pair[0]).value, HexDecodeChar(pair[1]).value;
    assert PairValue(pair[0], pair[1]) == h1 * 16 + h2;
    EncodeDecodedNibble(pair[0]);
    EncodeDecodedNibble(pair[1]);
    HexPairOfNibbles(h1, h2);
    var l := LowerHexText(pair);
    assert l == [l[0], l[1]];
  }

  lemma HexPairOfNibbles(h1: byte, h2: byte)
    requires h1 < 16 && h2 < 16
    ensures HexPair(h1 * 16 + h2) == [HexEncodeNibble(h1), HexEncodeNibble(h2)]
  {
    assert (h1 * 16 + h2) / 16 == h1 && (h1 * 16 + h2) % 16 == h2;
  }

  /** Conversely, text that decodes is the encoding of the decoded bytes, up
      to the case of its hex digits (when the delimiter is not itself an
      uppercase hex digit). */
  lemma {:induction false} EncodeDecode(src: seq<char>, delimiter: char)
    requires !('A' <= delimiter <= 'F')
    requires DecodeText(src, delimiter).Some?
    ensures EncodeText(DecodeText(src, delimiter).value, delimiter) == LowerHexText(src)
    decreases |src|
  {
    if |src| > 0 {
      var pair, rest := src[..2], src[2..];
      assert src == pair + rest;
      DecodeTextCons(pair, rest, delimiter);
      var next := AfterPair(rest, delimiter);
      var tail := DecodeText(next, delimiter).value;
      EncodeDecode(next, delimiter);
      EncodeDecodedPair(pair);
      EncodeTextCons(PairValue(pair[0], pair[1]), tail, delimiter);
      LowerHexTextConcat(pair, rest);
      LowerHexTextAfterPair(rest, delimiter);
    }
  }

  /** What follows a decoded pair, lowercased, is the delimiter the encoder
      would write (if any) followed by the lowercased remainder. */
  lemma LowerHexTextAfterPair(rest: seq<char>, delimiter: char)
    requires !('A' <= delimiter <= 'F')
    requires SkipsDelimiter(rest, delimiter) ==> rest[0] == delimiter
    requires DecodeText(AfterPair(rest, delimiter), delimiter).Some?
    ensures LowerHexText(rest) ==
              EncodedRestShape(DecodeText(AfterPair(rest, delimiter), delimiter).value, delimiter,
                               LowerHexText(AfterPair(rest, delimiter)))
  {
    var next := AfterPair(rest, delimiter);
    if SkipsDelimiter(rest, delimiter) {
      assert rest == [delimiter] + next;
      LowerHexTextConcat([delimiter], next);
    }
  }

  /** `EncodedRest` with the encoding of the remaining bytes given. */
  function EncodedRestShape(xs: seq<byte>, delimiter: char, tail: seq<char>): seq<char> {
    if delimiter != NO_DELIMITER && |xs| > 0 then [delimiter] + tail else tail
  }

  lemma EncodeTextCons(b: byte, tail: seq<byte>, delimiter: char)
    ensures EncodeText([b] + tail, delimiter) == HexPair(b) + EncodedRest(tail, delimiter)
  {
    assert ([b] + tail)[1..] == tail;
  }

  lemma LowerHexTextConcat(a: seq<char>, b: seq<char>)
    ensures LowerHexText(a + b) == LowerHexText(a) + LowerHexText(b)
  {
  }

  /** `hex_encode_with_delimiter` into a caller buffer: None where the source
      returns 0 without writing (no buffer, zero length, or less room than
      2n+1 without a delimiter, 3n with one); otherwise the characters written
      before the terminating NUL, whose count is the return value. */
  function HexEncodeBuffer(hasBuffer: bool, buflen: nat, src: seq<byte>, delimiter: char): (r: Option<seq<char>>)
    ensures r.None? <==> (!hasBuffer || buflen == 0 ||
                          buflen < (if delimiter == NO_DELIMITER then 2 * |src| + 1 else 3 * |src|))
    ensures r.Some? ==> |r.value| + 1 <= buflen && DecodeText(r.value, delimiter) == Some(src)
  {
    var needed := if delimiter == NO_DELIMITER then 2 * |src| + 1 else 3 * |src|;
    if !hasBuffer || buflen == 0 || buflen < needed then None
    else
      DecodeEncode(src, delimiter);
      Some(EncodeText(src, delimiter))
  }

  /** The string form of `hex_encode_with_delimiter`: its 3n-character buffer
      always suffices, so the result is the whole encoding. */
  function HexEncodeWithDelimiter(src: seq<byte>, delimiter: char): (t: seq<char>)
    ensures t == EncodeText(src, delimiter)
    ensures |src| > 0 && delimiter != NO_DELIMITER ==> |t| == 3 * |src| - 1
    ensures delimiter == NO_DELIMITER ==> |t| == 2 * |src|
  {
    match HexEncodeBuffer(|src| > 0, 3 * |src|, src, delimiter)
    case None => []
    case Some(text) => text
  }

  /** The room the buffer decoder asks for before decoding: a third of the
      text (rounded up past a missing last delimiter) with a delimiter, half
      of it without. Text that decodes needs exactly this many bytes. */
  function DecodedBound(n: nat, delimiter: char): (k: nat)
    ensures forall m: nat :: EncodedLength(m, delimiter) == n ==> k == m
  {
    if delimiter == NO_DELIMITER then n / 2 else (n + 1) / 3
  }

  /** `hex_decode_with_delimiter` into a caller buffer, as written: None
      where the source returns 0 on failure; the decoded bytes, whose count
      is the return value, otherwise. The decoded bytes always fit the
      buffer, and where the buffer is large enough the source decodes all
      that the corrected decoder does, to the same bytes. */
  function HexDecodeBuffer(hasBuffer: bool, buflen: nat, src: seq<char>, delimiter: char): (r: Option<seq<byte>>)
    ensures !hasBuffer || buflen == 0 ==> r.None?
    ensures buflen < DecodedBound(|src|, delimiter) ==> r.None?
    ensures r.Some? ==> |r.value| <= buflen && r == DecodeTextAsWritten(src, delimiter)
    ensures hasBuffer && buflen > 0 && buflen >= DecodedBound(|src|, delimiter) ==>
              r == DecodeTextAsWritten(src, delimiter)
    ensures hasBuffer && buflen > 0 && buflen >= DecodedBound(|src|, delimiter) && DecodeText(src, delimiter).Some? ==>
              r == DecodeText(src, delimiter)
  {
    if !hasBuffer || buflen == 0 || buflen < DecodedBound(|src|, delimiter) then None
    else
      DecodeTextAgrees(src, delimiter);
      DecodeTextAsWritten(src, delimiter)
  }

  // ---------------------------------------------------------------------
  // split / tokenize / tokenize_first

  function CountOf(s: string, d: char): nat {
    if |s| == 0 then 0 else CountOf(s[..|s| - 1], d) + (if s[|s| - 1] == d then 1 else 0)
  }

  /** The fields of s between delimiters, possibly empty; defined by the
      characters read so far, as the source's loop reads them. */
  function SplitFields(s: string, d: char): (fields: seq<string>)
    ensures |fields| == CountOf(s, d) + 1
    decreases |s|
  {
    if |s| == 0 then [""]
    else
      var p := SplitFields(s[..|s| - 1], d);
      var c := s[|s| - 1];
      if c == d then p + [""] else p[..|p| - 1] + [p[|p| - 1] + [c]]
  }

  function Join(fields: seq<string>, d: char): string
    requires |fields| > 0
    decreases |fields|
  {
    if |fields| == 1 then fields[0] else Join(fields[..|fields| - 1], d) + [d] + fields[|fields| - 1]
  }

  /** Joining the fields with the delimiter gives back the source. */
  lemma {:induction false} JoinSplit(s: string, d: char)
    ensures Join(SplitFields(s, d), d) == s
    decreases |s|
  {
    if |s| > 0 {
      var s' := s[..|s| - 1];
      var c := s[|s| - 1];
      JoinSplit(s', d);
      if c == d {
        JoinNewField(SplitFields(s', d), d);
      } else {
        JoinExtendField(SplitFields(s', d), d, c);
      }
      assert s == s' + [c];
    }
  }

  /** Opening an empty field adds one delimiter to the joined text. */
  lemma JoinNewField(p: seq<string>, d: char)
    requires |p| > 0
    ensures Join(p + [""], d) == Join(p, d) + [d]
  {
    assert (p + [""])[..|p|] == p;
  }

  /** Extending the last field extends the joined text. */
  lemma JoinExtendField(p: seq<string>, d: char, c: char)
    requires |p| > 0
    ensures Join(p[..|p| - 1] + [p[|p| - 1] + [c]], d) == Join(p, d) + [c]
  {
    var q := p[..|p| - 1] + [p[|p| - 1] + [c]];
    assert q[..|q| - 1] == p[..|p| - 1];
  }

  /** Reading one more character either closes the current field (at a
      delimiter) or extends it. */
  lemma SplitFieldsSnoc(s: string, i: nat, done: seq<string>, last: nat, d: char)
    requires last <= i < |s|
    requires done + [s[last..i]] == SplitFields(s[..i], d)
    ensures s[i] == d ==> done + [s[last..i]] + [s[i + 1..i + 1]] == SplitFields(s[..i + 1], d)
    ensures s[i] != d ==> done + [s[last..i + 1]] == SplitFields(s[..i + 1], d)
  {
    assert s[..i + 1][..i] == s[..i];
    var p := done + [s[last..i]];
    assert p[..|p| - 1] == done;
    assert s[i + 1..i + 1] == "";
    assert s[last..i + 1] == s[last..i] + [s[i]];
  }

  /** `split`: the loop collects a field at every delimiter, then the final
      piece; the result is `SplitFields`, so its count is the number of
      delimiters plus one. */
  method Split(source: string, d: char) returns (fields: seq<string>)
    ensures fields == SplitFields(source, d)
    ensures |fields| == CountOf(source, d) + 1
  {
    fields := [];
    var last := 0;
    var i := 0;
    while i < |source|
      invariant 0 <= last <= i <= |source|
      invariant fields + [source[last..i]] == SplitFields(source[..i], d)
    {
      SplitFieldsSnoc(source, i, fields, last, d);
      if source[i] == d {
        fields := fields + [source[last..i]];
        last := i + 1;
      }
      i := i + 1;
    }
    fields := fields + [source[last..|source|]];
    assert source[..|source|] == source;
  }

  function NonEmpty(fields: seq<string>): (r: seq<string>)
    ensures forall k :: 0 <= k < |r| ==> |r[k]| > 0
    ensures |r| <= |fields|
  {
    if |fields| == 0 then []
    else NonEmpty(fields[..|fields| - 1]) + (if |fields[|fields| - 1]| > 0 then [fields[|fields| - 1]] else [])
  }

  /** `tokenize`: exactly the non-empty fields of `split`, in order. */
  method Tokenize(source: string, d: char) returns (fields: seq<string>)
    ensures fields == NonEmpty(SplitFields(source, d))
  {
    hide TokenizeState;
    fields := [];
    var last := 0;
    var i := 0;
    ghost var done: seq<string> := [];
    TokenizeStart(source, d);
    while i < |source|
      invariant last <= i <= |source| && TokenizeState(source, d, i, last, done, fields)
    {
      TokenizeStep(source, d, i, last, done, fields);
      if source[i] == d {
        if i != last {
          fields := fields + [source[last..i]];
        } else {
          assert fields + [] == fields;
        }
        done := done + [source[last..i]];
        last := i + 1;
      }
      i := i + 1;
    }
    TokenizeFinish(source, d, last, done, fields);
    if last != |source| {
      fields := fields + [source[last..|source|]];
    }
  }

  lemma TokenizeStart(source: string, d: char)
    ensures TokenizeState(source, d, 0, 0, [], [])
  {
  }

  /** After the loop, the open field is the last one, kept when non-empty. */
  lemma TokenizeFinish(source: string, d: char, last: nat, done: seq<string>, fields: seq<string>)
    requires TokenizeState(source, d, |source|, last, done, fields)
    ensures last <= |source|
    ensures fields + (if last != |source| then [source[last..|source|]] else []) == NonEmpty(SplitFields(source, d))
  {
    NonEmptySnoc(done, source[last..|source|]);
    assert source[..|source|] == source;
  }

  /** The loop state of `tokenize` after reading i characters: the fields
      closed so far, the open one from `last`, and the tokens kept. */
  predicate TokenizeState(source: string, d: char, i: nat, last: nat, done: seq<string>, fields: seq<string>) {
    last <= i <= |source| &&
    done + [source[last..i]] == SplitFields(source[..i], d) &&
    fields == NonEmpty(done)
  }

  /** One character of the `tokenize` loop: a delimiter closes the open
      field, keeping it only when it is non-empty; any other character
      extends it. */
  lemma TokenizeStep(source: string, d: char, i: nat, last: nat, done: seq<string>, fields: seq<string>)
    requires i < |source| && TokenizeState(source, d, i, last, done, fields)
    ensures source[i] == d ==>
      TokenizeState(source, d, i + 1, i + 1, done + [source[last..i]],
                    fields + (if i != last then [source[last..i]] else []))
    ensures source[i] != d ==> TokenizeState(source, d, i + 1, last, done, fields)
    ensures last <= i
  {
    SplitFieldsSnoc(source, i, done, last, d);
    if source[i] == d {
      NonEmptySnoc(done, source[last..i]);
    }
  }

  lemma NonEmptySnoc(fields: seq<string>, f: string)
    ensures NonEmpty(fields + [f]) == NonEmpty(fields) + (if |f| > 0 then [f] else [])
  {
    assert (fields + [f])[..|fields|] == fields;
  }

  /** Every token is non-empty and free of the delimiter. */
  lemma TokensAreClean(source: string, d: char)
    ensures forall k :: 0 <= k < |NonEmpty(SplitFields(source, d))| ==>
              |NonEmpty(SplitFields(source, d))[k]| > 0 && d !in NonEmpty(SplitFields(source, d))[k]
  {
    SplitFieldsFree(source, d);
    NonEmptyKeepsFree(SplitFields(source, d), d);
  }

  /** No field of `split` contains the delimiter. */
  lemma {:induction false} SplitFieldsFree(s: string, d: char)
    ensures forall k :: 0 <= k < |SplitFields(s, d)| ==> d !in SplitFields(s, d)[k]
    decreases |s|
  {
    if |s| > 0 {
      SplitFieldsFree(s[..|s| - 1], d);
    }
  }

  lemma {:induction false} NonEmptyKeepsFree(fields: seq<string>, d: char)
    requires forall k :: 0 <= k < |fields| ==> d !in fields[k]
    ensures forall k :: 0 <= k < |NonEmpty(fields)| ==> d !in NonEmpty(fields)[k]
    decreases |fields|
  {
    if |fields| > 0 {
      NonEmptyKeepsFree(fields[..|fields| - 1], d);
    }
  }

  /** Index of the first occurrence of d in s, if any (`std::string::find`). */
  function Find(s: string, d: char): (r: Option<nat>)
    ensures r.Some? <==> d in s
    ensures r.Some? ==> r.value < |s| && s[r.value] == d && d !in s[..r.value]
  {
    if |s| == 0 then None
    else if s[0] == d then Some(0)
    else match Find(s[1..], d)
      case None => None
      case Some(k) => assert s[1..][..k] == s[1..k + 1]; Some(k + 1)
  }

  /** The end of the run of d starting at i. */
  function SkipRun(s: string, d: char, i: nat): (j: nat)
    requires i <= |s|
    ensures i <= j <= |s|
    ensures forall k :: i <= k < j ==> s[k] == d
    ensures j < |s| ==> s[j] != d
    decreases |s| - i
  {
    if i < |s| && s[i] == d then SkipRun(s, d, i + 1) else i
  }

  /** `tokenize_first`: None without a delimiter; otherwise the text before
      the first delimiter and the text after the run of delimiters that
      starts there. */
  function TokenizeFirst(source: string, d: char): (r: Option<(string, string)>)
    ensures r.None? <==> d !in source
    ensures r.Some? ==> d !in r.value.0
    ensures r.Some? ==> |r.value.0| + |r.value.1| < |source|
    ensures r.Some? ==> source[..|r.value.0|] == r.value.0 && source[|source| - |r.value.1|..] == r.value.1
    ensures r.Some? ==> forall m :: |r.value.0| <= m < |source| - |r.value.1| ==> source[m] == d
    ensures r.Some? ==> |r.value.1| == 0 || r.value.1[0] != d
  {
    match Find(source, d)
    case None => None
    case Some(left) =>
      var right := SkipRun(source, d, left + 1);
      Some((source[..left], source[right..]))
  }
}
