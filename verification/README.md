# librtcbase in Dafny

librtcbase is a base library derived from WebRTC's `rtc_base`. This project
models the parts of it whose behaviour can be stated directly from the code,
and proves properties of those models. Each source area is one Dafny module.

- **DTLS/TLS session** (`OpenSslStream`): the `OpenSSLStreamAdapter` state
  machine, from `SSL_NONE` through `SSL_WAIT` and `SSL_CONNECTING` to
  `SSL_CONNECTED`, plus the two closed states `SSL_ERROR` and `SSL_CLOSED`.
  It covers the stream-event dispatch, the handshake timer, peer-certificate
  digest checking in the verify callback, and the DTLS-SRTP profile list.
  - The OpenSSL engine is a parameter: each handshake step returns
    success, want-read with a delay, want-write, or a fatal error with a
    reason.
  - Certificate digests are an uninterpreted function.
- **Tables and digests**:
  - the SRTP protection profiles of section 4.1.2 of RFC 5764 and
    section 12 of RFC 7714 (`SrtpSuites`);
  - RFC 4572 fingerprints (`SslFingerprint`);
  - the FIPS 180 allow-list, the digest factory and the HMAC of
    section 2 of RFC 2104 (`MessageDigest`);
  - SHA-1 as in sections 5.1.1, 5.3.1 and 6.1.2 of FIPS 180-4 (`Sha1`,
    `Sha1Context`, `Sha1Digest`);
  - the CRC-32 of section 8 of RFC 1952 (`Crc32`). The table-driven loop
    is proved equal to the bit-at-a-time definition.
- **Codecs and strings**:
  - hex encoding with an optional delimiter, `split`, `tokenize` and
    `tokenize_first` (`StringEncode`). The hex decoder appears twice:
    as written, where every ASCII letter is a digit, and corrected to the
    sixteen hex digits (see "Findings");
  - `string_trim` (`StringUtils`);
  - big- and little-endian packing (`ByteOrder`);
  - the byte-buffer writer and reader with unsigned varints (`ByteBuffer`).
- **Buffers**:
  - `BufferT`'s size/capacity invariant and 1.5x growth (`Buffer`);
  - the bounded packet FIFO `BufferQueue`;
  - `write_all` and the stream adapter (`Stream`).
- **Addressing**:
  - `IPAddress` order, classification, truncation and mask counting
    (`IpAddress`);
  - `SocketAddress` parsing and comparison (`SocketAddress`);
  - the network manager's list merge, filtering, best-IP choice and cost
    (`Network`).
- **Time and statistics**:
  - `tm_to_seconds`, time differences and 32-bit timestamp unwrapping
    (`TimeUtils`);
  - ASN.1 UTCTime/GeneralizedTime parsing after section 4.1.2.5 of
    RFC 5280, and key parameters (`SslIdentity`);
  - certificate expiry and generation (`RtcCertificate`);
  - the xorshift64* generator with its range mappings, random strings and
    UUIDs (`Random`);
  - the bucketed rate window (`RateStatistics`);
  - the percentile and moving-median filters (`PercentileFilter`,
    `MovingMedianFilter`).

Objects are immutable datatypes, and each operation is a function from the
old state to the new state and its result. Loops are methods with
invariants. Effects the code has on the outside world appear as explicit
results: signals raised, timers armed, bytes written. Integer widths are
written out wherever they matter:
- `byte`, `u16`, `u32`, `u64`, `i32` and `i64` are subset types of `int`;
- a wrap-around is an explicit `%`;
- the xor-shifts use `bv64`, and SHA-1 and CRC-32 use `bv32`.

Shared definitions live in `Wrappers` (`Option`, `Result`) and `Ints`
(fixed-width integers and powers).

## Model

Predicates and comparisons that carry no contract of their own are
stated by the rows about them:
- `IpAddress.Less` and `Greater`: `LessIsStrictTotalOrder` and `GreaterIsConverse`.
- `IpAddress.IsPrivateV4`: `PrivateV4Ranges`.
- `IsAny`, `IsLoopback` and `IsUnspec`: `V4Classification`, `V6PrivateTests` and `MappedAnyNotLoopback`.
- `Is6Bone`, `Is6To4` and `IsTeredo`: `V6PrefixTests`.
- `IsV4Mapped` and `IsV4Compatibility`: `V6EmbeddedV4Tests` and `V4MappedIsMappedForm`.
- `IsLinkLocal` and `IsPrivate`: `V6PrivateTests` and `V4Classification`.
- `IsUla`, `IsSiteLocal` and `IsMacBased`: `BitTestRanges`.
- `IpAddress.TruncateV6`: `TruncateV6Value`.
- `SocketAddress.IsNil` and `IsUnresolved`: `ClearIsNil` and `ResolvedState`.
- `SocketAddress.Less`: `LessAgreesWithEqual` and `LessIsTransitive`.
- `Network.IsTemporary` and `IsDeprecated`: `FlagBits`.
- `Network.CompareNetworks`: `CompareNetworksIncomparabilityNotTransitive`.
- `Network.SortBefore`: `SortBeforeIsStrictTotalOrder`.
- `OpenSslStream.OnEvent`: the six `OnEvent…` lemmas.
- `WaitingToVerify` and `HasPeerCertificateDigest`: `New`, `ContinueSsl` and `VerifyPeerCertificate`.
- `MessageDigest.IsFips180`: `Fips180Names` and `SslFingerprint.CreateFromRfc4572`.
- `SslIdentity.IsValid`: `ValidKeyParams`, `DefaultsValid` and `RtcCertificate.GenerateCertificate`.
- `RtcCertificate.HasExpiredAt` and `HasExpired`: `UnknownExpiryAlwaysExpired`, `ExpiredFrom` and `ExpiresAtNotAfter`.
- `RateStatistics.IsInitialized`: `NewRateStats`, `EraseOld` and `Update`.
- `Buffer.IsConsistent`: every `Buffer` operation keeps it.

| member | source | states |
|---|---|---|
| StringUtils.FirstNonWhitespace | src/string_utils.cpp:21-24 | absent exactly when the text is all whitespace; otherwise the index of a non-whitespace character with only whitespace before it |
| StringUtils.LastNonWhitespace | src/string_utils.cpp:21-25 | absent exactly when the text is all whitespace; otherwise the index of a non-whitespace character with only whitespace after it |
| StringUtils.Trim | src/string_utils.cpp:23-32 | empty exactly for all-whitespace input; otherwise a slice of the input, preceded and followed only by whitespace, that neither starts nor ends with whitespace |
| StringUtils.TrimIdempotent | src/string_utils.cpp:23-32 | trimming a trimmed text changes nothing |
| StringUtils.TrimKeepsInterior | src/string_utils.cpp:23-32 | a text that starts and ends with non-whitespace is its own trim, interior whitespace included |
| ByteOrder.SetBE | src/byte_order.h:37-58 | the width bytes of the value, the last one its low byte |
| ByteOrder.SetLE | src/byte_order.h:82-103 | the width bytes of the value, the first one its low byte |
| ByteOrder.GetBE | src/byte_order.h:60-80 | a value below 256^width |
| ByteOrder.GetLE | src/byte_order.h:105-125 | a value below 256^width |
| ByteOrder.GetSetBE | src/byte_order.h:37-80 | reading big-endian bytes back gives the value written |
| ByteOrder.SetGetBE | src/byte_order.h:37-80 | writing back the big-endian value read gives the bytes |
| ByteOrder.GetSetLE | src/byte_order.h:82-125 | reading little-endian bytes back gives the value written |
| ByteOrder.SetGetLE | src/byte_order.h:82-125 | writing back the little-endian value read gives the bytes |
| ByteOrder.SetBEFirstByte | src/byte_order.h:37-58 | the first big-endian byte is the value's most significant byte |
| ByteOrder.SetLEIsReversedSetBE | src/byte_order.h:37-103 | little-endian bytes are the big-endian bytes reversed |
| ByteOrder.HostToNetwork | src/byte_order.h:133-149 | a value of the same width whose in-memory bytes on the host are the big-endian bytes of the input |
| ByteOrder.NetworkToHost | src/byte_order.h:151-162 | a value of the same width whose big-endian bytes are the input's in-memory bytes on the host |
| ByteOrder.NetworkToHostInvertsHostToNetwork | src/byte_order.h:133-162 | network-to-host undoes host-to-network on either host order |
| ByteOrder.HostToNetworkOnBigEndianHost | src/byte_order.h:128-149 | on a big-endian host the conversion is the identity |
| ByteOrder.HostToNetworkOnLittleEndianHost | src/byte_order.h:128-149 | on a little-endian host the conversion reverses the bytes |
| Crc32.LastEntryNonZero | src/crc32.cpp:29-32 | the filled table's last entry is non-zero, so the lazy initialisation's test can tell a filled table from the zeroed one |
| Crc32.BuildTable | src/crc32.cpp:33-43 | every entry is its index put through eight rounds of shift and conditional xor with the reversed polynomial 0xEDB88320 |
| Crc32.EnsureTable | src/crc32.cpp:29-44 | a table with a non-zero last entry is kept; a zeroed one is filled |
| Crc32.EnsureTableIdempotent | src/crc32.cpp:29-32 | a filled table passes the test, so initialising twice does nothing more |
| Crc32.RoundsXorHigh | src/crc32.cpp:35-41 | the rounds are linear in the register bits above the lowest n: over n rounds those bits pass through shifted right by n |
| Crc32.StepIsRounds | src/crc32.cpp:33-53 | one table-driven step (look up the low byte of register xor byte, xor with the register shifted by eight) equals eight bit-at-a-time rounds of register xor byte |
| Crc32.FeedIsBitSerial | src/crc32.cpp:51-53 | with a filled table the byte-at-a-time loop computes the same register as the bit-at-a-time CRC of RFC 1952, section 8 |
| Crc32.KnownValue | src/crc32.cpp:46-55 | the bit-at-a-time reference gives the known CRC-32 0xE8B7BE43 for the single byte "a" |
| Crc32.Update | src/crc32.cpp:46-55 | continuing a CRC over no data returns it unchanged; with a filled table the result is the bit-at-a-time CRC-32 (conditioned with 0xFFFFFFFF before and after) continued from the previous value |
| Crc32.UpdateCrc32 | src/crc32.cpp:46-55 | the loop over the buffer returns the bit-at-a-time CRC-32 of the bytes continued from `start` |
| Crc32.ComputeCrc32 | src/crc32.cpp:46-55 | the CRC of a whole buffer is the bit-at-a-time CRC-32 of its bytes started from 0 |
| Crc32.FeedAppend | src/crc32.cpp:51-53 | the table loop over two pieces equals the loop over their concatenation |
| Crc32.UpdateAppend | src/crc32.cpp:46-55 | updating with a and then with b gives the CRC of a followed by b |
| Crc32.ConditionTwice | src/crc32.cpp:49-54 | xor with 0xFFFFFFFF before and after cancels out |
| StringEncode.HexEncodeNibble | src/string_encode.cpp:23-27 | a nibble becomes a lowercase digit that decodes back to it; anything from 16 up becomes '!' |
| StringEncode.HexEncodeNibbleTable | src/string_encode.cpp:23-27 | the digit is the nibble's entry of the table "0123456789abcdef" |
| StringEncode.HexDecodeCharAsWritten | src/string_encode.cpp:29-40 | accepts exactly the decimal digits and all ASCII letters, with values up to 35 |
| StringEncode.HexDecodeChar | src/string_encode.cpp:29-40 | accepts exactly the sixteen hex digits in either case, with values below 16 |
| StringEncode.HexDecodeCharAcceptsNonHexLetters | src/string_encode.cpp:32-35 | the character decoder as written reads 'g' as 16, and 16 shifted left by four, or-ed with 16 and stored in a byte, is 0x10 |
| StringEncode.HexDecodeCharAgreesOnHexDigits | src/string_encode.cpp:29-40 | the as-written and the corrected character decoders agree on hex digits and differ exactly on g to z and G to Z |
| StringEncode.HexDecodeEncodeNibble | src/string_encode.cpp:25-40 | decoding an encoded nibble gives it back |
| StringEncode.HexPair | src/string_encode.cpp:66-68 | one byte is written as two characters |
| StringEncode.HexPairDecodes | src/string_encode.cpp:66-68 | both characters are hex digits and together decode to the byte, high nibble first |
| StringEncode.EncodeText | src/string_encode.cpp:65-76 | the encoding has two characters per byte plus one delimiter between pairs |
| StringEncode.DecodeText | src/string_encode.cpp:121-145 | the decoding loop with the corrected character decoder: text that decodes has the length of the encoding of its result |
| StringEncode.DecodeTextAsWritten | src/string_encode.cpp:121-145 | the decoding loop as written, letters g to z included: text that decodes has the length of the encoding of its result |
| StringEncode.CombineNibbles | src/string_encode.cpp:133 | on two hex nibbles, h1 shifted left by four and or-ed with h2 is the byte h1·16 + h2 |
| StringEncode.DecodeTextAgrees | src/string_encode.cpp:29-40 | the source accepts all text the corrected decoder accepts, with the same bytes; on text with no letter past f or F the two decoders are equal |
| StringEncode.DecodeTextAsWrittenAcceptsNonHex | src/string_encode.cpp:128-133 | the source decodes "gg" to the byte 0x10, which the corrected decoder refuses, and that byte re-encodes as "10" |
| StringEncode.DecodeTextRejects | src/string_encode.cpp:122-140 | both decoders fail on an odd trailing character and on a missing delimiter between pairs; the source fails on a character that is neither a digit nor a letter, the corrected decoder on any character that is not a hex digit |
| StringEncode.DecodeTextCons | src/string_encode.cpp:121-143 | one pass of the corrected loop: a hex pair, an optional delimiter, and the rest decoded the same way |
| StringEncode.DecodeEncode | src/string_encode.cpp:48-146 | decoding what the encoder wrote gives the bytes back, with or without a delimiter |
| StringEncode.EncodedRest | src/string_encode.cpp:71-75 | after the first pair the encoder writes the delimiter when more bytes follow, then the rest's encoding |
| StringEncode.EncodeDecodedPair | src/string_encode.cpp:66-68 | re-encoding a decoded pair gives it in lowercase |
| StringEncode.EncodeDecode | src/string_encode.cpp:48-146 | text the corrected decoder accepts is the encoding of what it decodes to, up to the case of its hex digits |
| StringEncode.LowerHexTextAfterPair | src/string_encode.cpp:136-142 | after a decoded pair comes the delimiter the encoder would write, then the rest |
| StringEncode.HexEncodeBuffer | src/string_encode.cpp:48-81 | writes nothing exactly when there is no buffer, no room or less room than 2n+1 (3n with a delimiter); otherwise text that fits with its NUL and decodes to the input |
| StringEncode.HexEncodeWithDelimiter | src/string_encode.cpp:91-102 | the whole encoding: 3n-1 characters with a delimiter, 2n without |
| StringEncode.DecodedBound | src/string_encode.cpp:116 | the room asked for, a third of the text rounded up with a delimiter and half of it without, is the byte count of any text that decodes |
| StringEncode.HexDecodeBuffer | src/string_encode.cpp:104-146 | fails with no buffer, a zero-length buffer or one smaller than the room asked for; otherwise it is the as-written decoding, which fits the buffer and equals the corrected decoding whenever that succeeds |
| StringEncode.SplitFields | src/string_encode.cpp:148-165 | one more field than there are delimiters |
| StringEncode.JoinSplit | src/string_encode.cpp:148-165 | joining the fields with the delimiter gives back the text |
| StringEncode.SplitFieldsSnoc | src/string_encode.cpp:157-162 | each character of the loop closes a field at a delimiter or extends the open one |
| StringEncode.Split | src/string_encode.cpp:148-165 | the loop's fields are the text's fields, one more than its delimiters |
| StringEncode.Tokenize | src/string_encode.cpp:167-184 | the loop keeps exactly the non-empty fields, in order |
| StringEncode.TokenizeFinish | src/string_encode.cpp:180-183 | the open field ends the list when it is non-empty |
| StringEncode.TokenizeStep | src/string_encode.cpp:172-179 | a delimiter closes the open field, keeping it only when non-empty; any other character extends it |
| StringEncode.TokensAreClean | src/string_encode.cpp:167-184 | every token is non-empty and free of the delimiter |
| StringEncode.SplitFieldsFree | src/string_encode.cpp:148-165 | no field contains the delimiter |
| StringEncode.Find | src/string_encode.cpp:192 | the index of the first occurrence, absent exactly when the character does not occur |
| StringEncode.SkipRun | src/string_encode.cpp:198-201 | the end of the run of delimiters starting at a position |
| StringEncode.TokenizeFirst | src/string_encode.cpp:186-206 | fails exactly without a delimiter; otherwise the delimiter-free text before the first delimiter and the text after the run of delimiters there |
| Sha1.FIsStandard | src/sha1.cpp:45-59 | the round macros' boolean expressions are the standard Ch, Parity and Maj functions for their step ranges |
| Sha1.ChoiceShortcut | src/sha1.cpp:46-49 | the shortcut `(w & (x ^ y)) ^ y` is the choice function |
| Sha1.MajorityShortcut | src/sha1.cpp:55 | the shortcut that or-s x into w, masks with y and or-s in w and x is the majority function |
| Sha1.Transform | src/sha1.cpp:75-128 | the 80 unrolled steps over a 16-word circular buffer compute the FIPS 180-4 compression of the block |
| Sha1.WindowStart | src/sha1.cpp:36-39 | before step 16 the circular buffer holds the block's words |
| Sha1.WindowNext | src/sha1.cpp:41-42 | `blk(i)` computes schedule word i from the four slots holding words i-3, i-8, i-14 and i-16 |
| Sha1.WindowStep | src/sha1.cpp:41-42 | writing word i into slot i mod 16 keeps the buffer holding the last sixteen schedule words |
| Sha1.CompressAllAppend | src/sha1.cpp:164-172 | compressing two runs of blocks in turn equals compressing them together |
| Sha1.CompressAllSnoc | src/sha1.cpp:167-170 | one more block compresses on top of the hash value so far |
| Sha1.PadZeros | src/sha1.cpp:189-191 | the zero bytes that bring a message length plus the marker to 56 modulo 64 |
| Sha1.PaddedLength | src/sha1.cpp:188-192 | the marker, the zeros and the eight length bytes complete a whole number of blocks |
| Sha1.Pad | src/sha1.cpp:181-192 | the padded message is a whole number of blocks longer than the message |
| Sha1.DigestBytes | src/sha1.cpp:193-196 | the digest is 20 bytes |
| Sha1Context.BufferIndex | src/sha1.cpp:152 | the buffer position read from the bit count is below 64 |
| Sha1Context.AddBits | src/sha1.cpp:159-163 | the two count words with the carry and the high bits form one 64-bit bit counter increased by 8·n |
| Sha1Context.AddBitsCarry | src/sha1.cpp:159-163 | the low word's wrap-around is exactly the carry the high word receives |
| Sha1Context.Init | src/sha1.cpp:133-141 | a fresh context represents the empty message |
| Sha1Context.Update | src/sha1.cpp:144-178 | update keeps the context well formed |
| Sha1Context.BufferInput | src/sha1.cpp:173 | input that does not complete a block is copied behind the buffered bytes |
| Sha1Context.BlocksEnd | src/sha1.cpp:168-170 | the loop ends after the last whole block of the input, fewer than 64 bytes before its end |
| Sha1Context.CompressInput | src/sha1.cpp:164-173 | completing the buffer, compressing it and the whole input blocks, then copying the input left after the last whole block to the front of the buffer: five words and a 64-byte buffer whose first bytes are that leftover input |
| Sha1Context.IndexFromCount | src/sha1.cpp:152 | the buffer index from the count is the message length modulo 64 |
| Sha1Context.UpdateCount | src/sha1.cpp:159-163 | after update the count is eight times the extended message's length, modulo 2^64 |
| Sha1Context.AbsorbShort | src/sha1.cpp:173 | input that does not complete a block is absorbed into the buffer |
| Sha1Context.AbsorbLong | src/sha1.cpp:164-173 | input that completes a block is absorbed: every whole block compressed in order, the rest buffered |
| Sha1Context.UpdateRepresents | src/sha1.cpp:144-178 | after update the context represents the message extended by the input |
| Sha1Context.IndexAdvance | src/sha1.cpp:152-163 | one byte moves the buffer index one place on, wrapping at 64 |
| Sha1Context.PadWithZeros | src/sha1.cpp:189-191 | the zero-feeding loop stops with 56 bytes buffered |
| Sha1Context.ZerosNeeded | src/sha1.cpp:189-191 | the number of zero bytes that take the buffer index to 56 |
| Sha1Context.PadWithZerosRepresents | src/sha1.cpp:189-191 | the loop extends the message by exactly the zeros that bring its length to 56 modulo 64 |
| Sha1Context.Wiped | src/sha1.cpp:198-206 | after final the count and buffer are zero and the state is the transform of the zero buffer |
| Sha1Context.Final | src/sha1.cpp:181-207 | final writes 20 bytes and leaves the wiped context |
| Sha1Context.FinalDigest | src/sha1.cpp:181-207 | a context that absorbed a message finishes with that message's SHA-1 |
| Sha1Context.FinalPadding | src/sha1.cpp:182-192 | the marker, the zeros and the saved count complete the message to its padded form |
| Sha1Context.WholeMessage | src/sha1.cpp:164-172 | with a whole number of blocks absorbed, the state is their hash value |
| Sha1Context.RepresentsUnique | src/sha1.cpp:144-178 | the message determines the state, the count and the live buffer bytes |
| Sha1Context.UpdateSplit | src/sha1.cpp:144-178 | two updates reach the same state, count and digest as one update of the concatenation |
| Sha1Digest.New | src/sha1_digest.cpp:17-19 | a new digest object represents the empty message |
| Sha1Digest.Size | src/sha1_digest.cpp:21-23 | the size is the length of every SHA-1 digest |
| Sha1Digest.UpdateDigest | src/sha1_digest.cpp:25-27 | update keeps the context well formed |
| Sha1Digest.Finish | src/sha1_digest.cpp:29-36 | too small a buffer returns 0 and changes nothing; otherwise 20 bytes are written and the context starts over |
| Sha1Digest.FinishIsHash | src/sha1_digest.cpp:29-36 | finish writes the SHA-1 of the bytes fed since the last start |
| Sha1Digest.RefinesMessageDigest | src/sha1_digest.cpp:21-36 | update and finish agree with the abstract digest object whose hash is SHA-1 |
| Sha1Digest.ConsecutiveDigests | src/sha1_digest.cpp:29-36 | after a finish the object starts over, so consecutive uses give each input's own digest |
| MessageDigest.Update | src/message_digest.cpp:75-79 | the pending bytes are extended by the input, in order |
| MessageDigest.Finish | src/message_digest.cpp:75-80 | too small a buffer gets nothing and the object is untouched; otherwise the digest of the pending bytes is written and the object reset |
| MessageDigest.ComputeDigest | src/message_digest.cpp:75-80 | the digest of the pending bytes and the input, or 0 with the input left pending |
| MessageDigest.Create | src/message_digest.cpp:50-58 | without OpenSSL, an object exactly for "md5" and "sha-1", with nothing pending |
| MessageDigest.Fips180Names | src/message_digest.cpp:62-73 | of the names the factory knows only "sha-1" is a FIPS 180 algorithm; "md5" is not one |
| MessageDigest.Salt | src/message_digest.cpp:105-110 | each key byte xor-ed with the pad byte |
| MessageDigest.KeyBlock | src/message_digest.cpp:94-103 | a key no longer than 64 bytes is zero-padded to 64; a longer key is replaced by its digest, zero-padded |
| MessageDigest.ComputeHmac | src/message_digest.cpp:83-120 | a digest wider than 32 bytes gives 0 and is untouched; the object keeps its algorithm |
| MessageDigest.HmacIsRfc2104 | src/message_digest.cpp:82-120 | the output is H((K xor opad) ‖ H((K xor ipad) ‖ input)) of RFC 2104, the size is returned and the object is left reset |
| MessageDigest.ComputeHmacByName | src/message_digest.cpp:122-132 | an unknown name gives 0; SHA-1 with room for its digest gives 20 |
| SrtpSuites.SuiteToName | src/ssl_stream_adapter.cpp:23-36 | a name exactly for the four known suites, and it is a known name |
| SrtpSuites.SuiteFromName | src/ssl_stream_adapter.cpp:38-52 | a valid id exactly for the four known names, and it is a known suite |
| SrtpSuites.NameRoundTrip | src/ssl_stream_adapter.cpp:23-52 | the two tables are inverse on the known ids and names; an unknown id maps to the invalid suite |
| SrtpSuites.KeyAndSaltLengths | src/ssl_stream_adapter.cpp:54-81 | lengths exactly for the known suites: a 32-byte key only for AES-256-GCM, otherwise 16; a 12-byte salt for GCM, otherwise 14 |
| SrtpSuites.IsGcmName | src/ssl_stream_adapter.cpp:83-86 | true exactly for the names of the GCM suites |
| SrtpSuites.DefaultOptions | src/ssl_stream_adapter.h:78 | GCM suites are off by default |
| SrtpSuites.NoGcm | src/ssl_stream_adapter.cpp:89-93 | the options have GCM off |
| SrtpSuites.SupportedSuites | src/ssl_stream_adapter.cpp:95-109 | the two GCM suites first (256 then 128) only when enabled, then AES-CM with the 32-bit tag and with the 80-bit tag |
| SrtpSuites.SupportedSuitesUsable | src/ssl_stream_adapter.cpp:23-109 | every offered suite has a name and key lengths, and none is offered twice |
| SslFingerprint.CreateFromCertificate | src/ssl_fingerprint.cpp:38-51 | a fingerprint exactly when the certificate's digest can be computed, holding that digest and the algorithm |
| SslFingerprint.Create | src/ssl_fingerprint.cpp:27-36 | none without an identity; otherwise the fingerprint of its certificate |
| SslFingerprint.CreateFromRfc4572 | src/ssl_fingerprint.cpp:53-75 | none for an empty or non-FIPS 180 algorithm or empty text; otherwise a fingerprint exactly when the colon-separated text decodes as written (letters g to z included) to 1 to 64 bytes, and then it holds those bytes |
| SslFingerprint.ToUpper | src/ssl_fingerprint.cpp:111-112 | lowercase ASCII letters become the matching uppercase ones; everything else is unchanged |
| SslFingerprint.Rfc4572 | src/ssl_fingerprint.cpp:108-114 | three characters per digest byte, less one |
| SslFingerprint.Rfc4572Shape | src/ssl_fingerprint.cpp:108-114 | uppercase hex pairs with a colon between consecutive pairs and nowhere else |
| SslFingerprint.EncodeShape | src/string_encode.cpp:65-76 | the colon-delimited encoding is lowercase pairs separated by colons |
| SslFingerprint.UpperChar | src/ssl_fingerprint.cpp:111-112 | uppercasing keeps hex digits and their values and leaves the colon alone |
| SslFingerprint.DecodeIgnoresCase | src/ssl_fingerprint.cpp:108-114 | uppercasing does not change what the corrected decoder makes of a colon-delimited text |
| SslFingerprint.Rfc4572RoundTrip | src/ssl_fingerprint.cpp:53-114 | parsing a fingerprint's RFC 4572 text gives the fingerprint back |
| SslFingerprint.CreateFromRfc4572AcceptsNonHex | src/ssl_fingerprint.cpp:53-75 | the SHA-1 fingerprint text "gg", which is not hex, is accepted as the one-byte digest 0x10 |
| SslFingerprint.ToString | src/ssl_fingerprint.cpp:116-121 | the algorithm, a space, then the RFC 4572 text |
| SslFingerprint.Equal | src/ssl_fingerprint.cpp:102-106 | equal exactly when the algorithms and digests are equal |
| SslFingerprint.Copy | src/ssl_fingerprint.cpp:77-83 | the copy equals the original |
| Buffer.IsEmpty | src/buffer.h:136-138 | empty exactly when the size is zero |
| Buffer.Empty | src/buffer.h:67-69 | a consistent buffer with no elements and no allocation |
| Buffer.WithCapacity | src/buffer.h:86-94 | size elements and a capacity of the larger of size and capacity |
| Buffer.FromData | src/buffer.h:97-108 | a consistent copy of the elements whose capacity is the larger of their count and the requested capacity |
| Buffer.EnsureCapacityWithHeadroom | src/buffer.h:317-337 | the elements are kept; a sufficient capacity changes nothing; otherwise exactly the request, or with headroom the larger of the request and one and a half times the old capacity |
| Buffer.EnsureCapacity | src/buffer.h:295-299 | the elements are kept and the capacity becomes the larger of the old one and the request |
| Buffer.AppendData | src/buffer.h:229-257 | the old elements followed by the new ones, in a buffer whose capacity did not shrink |
| Buffer.SetData | src/buffer.h:191-208 | exactly the new elements, keeping the capacity when they fit |
| Buffer.SetSize | src/buffer.h:287-290 | shrinking keeps a prefix; growing exposes uninitialised elements after the old ones; the capacity grows as with headroom |
| Buffer.AppendWith | src/buffer.h:266-281 | the setter's elements follow the old ones and their count is returned; room is made as set_size does |
| Buffer.SetDataWith | src/buffer.h:217-225 | exactly the setter's elements, whose count is returned |
| Buffer.Clear | src/buffer.h:303-306 | no elements, the allocation kept |
| Buffer.Equal | src/buffer.h:160-175 | equal exactly when the sizes and elements are equal |
| Buffer.AppendTwice | src/buffer.h:229-240 | two appends hold the same elements as one append of both |
| Buffer.SetSizeUndoesAppend | src/buffer.h:229-290 | shrinking to the old size undoes an append and keeps the capacity it reached |
| Buffer.SetDataTwice | src/buffer.h:191-198 | replacing the contents twice leaves the second contents and never shrinks the capacity |
| Buffer.HeadroomGrowth | src/buffer.h:328-330 | a reallocation with headroom grows the capacity by at least half, so repeated appends reallocate a logarithmic number of times |
| Buffer.ClearThenAppend | src/buffer.h:194-198 | clearing and then appending is setting the data |
| BufferQueue.Contents | src/buffer_queue.cpp:40-43 | one entry per queued packet |
| BufferQueue.New | src/buffer_queue.cpp:24-27 | an empty queue with the given capacity |
| BufferQueue.Size | src/buffer_queue.cpp:40-43 | the number of queued packets |
| BufferQueue.Clear | src/buffer_queue.cpp:45-51 | no packets queued; every one moved to the free list |
| BufferQueue.ReadFront | src/buffer_queue.cpp:53-73 | fails, changing nothing, exactly on an empty queue; otherwise removes the oldest packet and returns its first min(bytes, size) bytes, notifying writability exactly when the queue was full |
| BufferQueue.WriteBack | src/buffer_queue.cpp:75-101 | fails, changing nothing, exactly on a full queue; otherwise queues a copy of the bytes at the back, notifying readability exactly when the queue was empty |
| BufferQueue.WriteThenRead | src/buffer_queue.cpp:53-101 | a packet written to an empty queue is read back whole |
| BufferQueue.FifoOrder | src/buffer_queue.cpp:53-101 | two packets are read back in the order written |
| BufferQueue.DrainIsContents | src/buffer_queue.cpp:53-73 | reading whole packets until any valid queue is empty returns its packets, oldest first |
| BufferQueue.WriteThenDrain | src/buffer_queue.cpp:53-101 | on any queue with room, a write followed by reading everything returns the queued packets and then the new one |
| Stream.EventMask | src/stream.h:41 | the events as a bit mask below 16, zero exactly when no event is set |
| Stream.WriteFrom | src/stream.cpp:21-38 | the loop succeeds exactly when every byte was accepted, reports an error only on an error result, and never counts more bytes than given |
| Stream.WriteAll | src/stream.cpp:21-38 | the loop computes the recursive definition; empty data makes no call and succeeds |
| Stream.StopsAtFirstFailure | src/stream.cpp:26-31 | the first write that does not succeed ends the loop with its result and the bytes accepted before it |
| Stream.AcceptingStreamOneCall | src/stream.cpp:21-38 | a stream that accepts everything is written in one call |
| Stream.ByteAtATime | src/stream.cpp:21-38 | a stream that takes one byte per call is written in as many calls as bytes |
| Stream.AdapterOnEvent | src/stream.cpp:55-61 | a wrapped stream's event is raised again unchanged with the adapter as its source |
| Stream.AsInterface | src/stream.cpp:63-81 | the adapter's state, reads and writes are the wrapped stream's |
| Stream.WriteAllThroughAdapter | src/stream.cpp:21-81 | writing everything through the adapter has the same outcome as on the wrapped stream |
| ByteBuffer.EncodeInt | src/byte_buffer.cpp:78-100 | the integer's bytes as written: its width, and in network order the value most significant byte first |
| ByteBuffer.DecodeInt | src/byte_buffer.cpp:204-263 | the value read from the bytes stays below 256 to the power of their count |
| ByteBuffer.DecodeEncodeInt | src/byte_buffer.cpp:78-100 | reading back a 16-, 32- or 64-bit write gives the value, in either byte order |
| ByteBuffer.EncodeUint24 | src/byte_buffer.cpp:83-90 | a 24-bit write copies three bytes, in network order the low 24 bits most significant byte first |
| ByteBuffer.DecodeUint24 | src/byte_buffer.cpp:218-235 | a 24-bit read yields a 32-bit value |
| ByteBuffer.DecodeEncodeUint24 | src/byte_buffer.cpp:83-90 | a 24-bit round trip keeps exactly the low 24 bits of the value, in either byte order |
| ByteBuffer.DecodeNetworkInt | src/byte_buffer.cpp:204-216 | in network order the bytes read are taken most significant first |
| ByteBuffer.UvarintBytes | src/byte_buffer.cpp:105-114 | the varint ends with its only byte below 128; every earlier byte has the continuation bit |
| ByteBuffer.UvarintLength | src/byte_buffer.cpp:105-114 | a value below 128 to the n takes at most n bytes |
| ByteBuffer.UvarintAtMostTenBytes | src/byte_buffer.cpp:102-114 | a 64-bit value takes at most ten bytes |
| ByteBuffer.ReadUvarintFrom | src/byte_buffer.cpp:265-286 | the read loop never takes more than ten bytes nor more than the input holds |
| ByteBuffer.ReadUvarintContinues | src/byte_buffer.cpp:265-286 | every byte the read takes before its last has the continuation bit |
| ByteBuffer.ReadUvarintStops | src/byte_buffer.cpp:265-286 | the read yields a value exactly when it stopped at a byte without the continuation bit; otherwise it ran to the end of the input or to the tenth byte |
| ByteBuffer.UvarintRoundTrip | src/byte_buffer.cpp:265-286 | every 64-bit value survives a varint round trip, whatever bytes follow, consuming exactly its encoding |
| ByteBuffer.UvarintNeedsFinalByte | src/byte_buffer.cpp:265-286 | input of continuation bytes only never yields a value and is consumed up to ten bytes |
| ByteBuffer.NewWriter | src/byte_buffer.cpp:32-42 | a new writer is empty with room for the default size |
| ByteBuffer.NewWriterFrom | src/byte_buffer.cpp:44-68 | a writer built from bytes holds exactly them, with no spare room |
| ByteBuffer.Resize | src/byte_buffer.cpp:134-149 | the first min(length, size) bytes are kept; the allocation is kept when big enough and otherwise grows to exactly the larger of the size and one and a half times the old one |
| ByteBuffer.WriteBytes | src/byte_buffer.cpp:120-132 | the bytes go after those already written; the allocation is kept when they fit and otherwise grows to exactly the larger of the new length and one and a half times the old allocation, which holds them |
| ByteBuffer.WriteUint8 | src/byte_buffer.cpp:74-76 | one byte is appended |
| ByteBuffer.WriteUint16 | src/byte_buffer.cpp:78-81 | two bytes are appended after the old ones, most significant first in network order |
| ByteBuffer.WriteUint24 | src/byte_buffer.cpp:83-90 | three bytes are appended after the old ones, in network order the low 24 bits most significant byte first |
| ByteBuffer.WriteUint32 | src/byte_buffer.cpp:92-95 | four bytes are appended, most significant first in network order |
| ByteBuffer.WriteUint64 | src/byte_buffer.cpp:97-100 | eight bytes are appended, most significant first in network order |
| ByteBuffer.WriteUvarint | src/byte_buffer.cpp:105-114 | the varint encoding, one to ten bytes, is appended |
| ByteBuffer.Clear | src/byte_buffer.cpp:151-154 | nothing written; allocation and order kept |
| ByteBuffer.ReaderOf | src/byte_buffer.cpp:183-187 | a reader over a writer reads its bytes from the start |
| ByteBuffer.ReadBytes | src/byte_buffer.cpp:302-310 | fails without moving exactly when fewer bytes are left than asked; otherwise yields the next bytes and moves past them |
| ByteBuffer.ReadString | src/byte_buffer.cpp:288-300 | as a byte read, the bytes appended to the string given |
| ByteBuffer.Consume | src/byte_buffer.cpp:312-318 | skips the bytes, or fails without moving exactly when too few are left |
| ByteBuffer.ReadUint8 | src/byte_buffer.cpp:196-202 | yields the next byte, failing exactly on an empty reader |
| ByteBuffer.ReadInt | src/byte_buffer.cpp:204-263 | a fixed-width read fails exactly when too few bytes are left; otherwise it moves past them |
| ByteBuffer.ReadUint24 | src/byte_buffer.cpp:218-235 | three bytes read into a 32-bit value, failing exactly when fewer are left |
| ByteBuffer.ReadUvarint | src/byte_buffer.cpp:265-286 | the reader moves forward at most ten bytes over the same bytes |
| ByteBuffer.WriteReadBytes | src/byte_buffer.cpp:302-310 | bytes written are read back from where the write began |
| ByteBuffer.WriteReadUint16 | src/byte_buffer.cpp:204-216 | a 16-bit value is read back from where it was written |
| ByteBuffer.WriteReadUint32 | src/byte_buffer.cpp:237-249 | a 32-bit value is read back from where it was written |
| ByteBuffer.WriteReadUint64 | src/byte_buffer.cpp:251-263 | a 64-bit value is read back from where it was written |
| ByteBuffer.WriteReadUint24 | src/byte_buffer.cpp:218-235 | a 24-bit write reads back the value's low 24 bits |
| ByteBuffer.WriteReadUvarint | src/byte_buffer.cpp:265-286 | a varint write is read back, consuming exactly its bytes |
| OpenSslStream.New | src/openssl_stream_adapter.cpp:184-202 | a new adapter is in SSL_NONE as a TLS client, unverified, with the 50 ms handshake timeout and client authentication on, and holds a timer handle exactly when given an event loop |
| OpenSslStream.StopTimer | src/openssl_stream_adapter.cpp:324 | stopping disarms the timer and keeps whether a handle exists |
| OpenSslStream.StartTimer | src/openssl_stream_adapter.cpp:354 | starting arms the timer with the delay, unless there is no handle |
| OpenSslStream.Cleanup | src/openssl_stream_adapter.cpp:391-420 | an error state and its code survive, any other state ends closed with code 0; engine, identity and peer certificate go, the timer handle is released once; digest, verification and SRTP settings stay |
| OpenSslStream.CleanupIdempotent | src/openssl_stream_adapter.cpp:391-420 | a second cleanup changes nothing and releases nothing |
| OpenSslStream.ErrorInfo | src/openssl_stream_adapter.cpp:377-389 | the state becomes SSL_ERROR with the code, the session is cleaned up, and SE_CLOSE with the code is raised exactly when asked to signal |
| OpenSslStream.ContinueSsl | src/openssl_stream_adapter.cpp:321-375 | a completed handshake connects and raises SE_OPEN, SE_READ and SE_WRITE unless the peer still has to be verified; a fatal step reports the handshake error (incompatible cipher suite for no shared cipher) and returns non-zero; other steps leave the state and return 0 |
| OpenSslStream.ContinueSslTimer | src/openssl_stream_adapter.cpp:324-358 | each step stops the timer, and it is re-armed exactly when the engine wants to read with a positive delay |
| OpenSslStream.BeginSsl | src/openssl_stream_adapter.cpp:265-319 | -1 with nothing changed unless connecting with an engine that sets up; otherwise the first handshake step |
| OpenSslStream.StartSsl | src/openssl_stream_adapter.cpp:557-575 | refused unless in SSL_NONE; waits while the stream is not open; a failed begin ends in SSL_ERROR with its code and raises no SE_CLOSE |
| OpenSslStream.OnTimeout | src/openssl_stream_adapter.cpp:169-180 | the timer callback continues the handshake and ignores its result, so a fatal step reports the error but keeps the state |
| OpenSslStream.OnEventClearText | src/openssl_stream_adapter.cpp:208-263 | in SSL_NONE read and write events are passed on unchanged |
| OpenSslStream.OnEventConnected | src/openssl_stream_adapter.cpp:208-263 | once connected, read and write events are re-raised, crossed over by the blocked-on flags |
| OpenSslStream.OnEventDropped | src/openssl_stream_adapter.cpp:208-263 | read and write events are dropped while waiting and after the session ended |
| OpenSslStream.OnEventConnecting | src/openssl_stream_adapter.cpp:208-263 | while connecting, a read or write event runs one handshake step; a failed step ends in SSL_ERROR and raises SE_CLOSE with its code |
| OpenSslStream.OnEventOpen | src/openssl_stream_adapter.cpp:208-263 | SE_OPEN while waiting starts the handshake, and is passed on in any other state |
| OpenSslStream.OnEventClose | src/openssl_stream_adapter.cpp:208-263 | SE_CLOSE cleans up and passes on SE_CLOSE with the stream's error, last |
| OpenSslStream.DigestSize | src/openssl_digest.cpp:34-70 | exactly the six known algorithm names have a digest size, between 16 and 64 bytes |
| OpenSslStream.VerifyPeerCertificate | src/openssl_stream_adapter.cpp:577-605 | true exactly when a digest and a peer certificate are held and the certificate's digest equals the expected one; only then is the peer marked verified |
| OpenSslStream.SetPeerCertificateDigest | src/openssl_stream_adapter.cpp:607-652 | unknown algorithm and wrong length fail with nothing stored; otherwise the digest is stored and a held certificate is checked, a mismatch failing with VERIFICATION_FAILED in SSL_ERROR, never raising an event |
| OpenSslStream.VerifyCallback | src/openssl_stream_adapter.cpp:754-793 | chained certificates, a leaf before a digest is known and an already verified peer are accepted; otherwise the leaf is recorded and accepted exactly when its digest matches |
| OpenSslStream.LateDigestNeverOpens | src/openssl_stream_adapter.cpp:330-345 | as written, a matching digest set after the handshake leaves the peer unverified and SE_OPEN is never raised |
| OpenSslStream.VerifyCallbackRecording | src/openssl_stream_adapter.cpp:776-791 | the leaf is recorded before the check for a known digest, and accepted exactly when a known digest matches |
| OpenSslStream.SetPeerCertificateDigestSignalling | src/openssl_stream_adapter.cpp:334-337 | as the plain setter, and SE_OPEN, SE_READ and SE_WRITE are raised exactly after a successful check on a connected stream |
| OpenSslStream.LateDigestOpensWhenRecorded | src/openssl_stream_adapter.cpp:334-337 | with the leaf recorded, a matching late digest verifies the peer and raises SE_OPEN |
| OpenSslStream.LateDigestMismatchFails | src/openssl_stream_adapter.cpp:643-649 | with the leaf recorded, a late digest that does not match fails the session without raising an event |
| OpenSslStream.InternalName | src/openssl_stream_adapter.cpp:46-51 | exactly the four known SRTP profiles have an OpenSSL name, none of them empty |
| OpenSslStream.InternalNames | src/openssl_stream_adapter.cpp:689-731 | each known profile id is mapped to its OpenSSL name, in order |
| OpenSslStream.SetDtlsSrtpCryptoSuites | src/openssl_stream_adapter.cpp:689-731 | succeeds exactly in SSL_NONE for a non-empty list of known ids, storing their names joined by ':'; otherwise nothing changes |
| OpenSslStream.JoinNamesStep | src/openssl_stream_adapter.cpp:689-731 | each further profile adds ':' and its name to the string |
| OpenSslStream.GetDtlsSrtpCryptoSuite | src/openssl_stream_adapter.cpp:733-752 | the selected profile, only once connected |
| OpenSslStream.GetSslCipherSuite | src/openssl_stream_adapter.cpp:654-666 | the current cipher's id cut to 16 bits, exactly when connected with a current cipher |
| OpenSslStream.BaseClassSupports | src/ssl_stream_adapter.cpp:115-146 | the base adapter refuses cipher queries, keying-material export and SRTP configuration |
| OpenSslStream.SetServerRole | src/openssl_stream_adapter.cpp:539-541 | only the role changes |
| OpenSslStream.SetMode | src/openssl_stream_adapter.cpp:543-545 | only the mode changes |
| OpenSslStream.SetMaxProtocolVersion | src/openssl_stream_adapter.cpp:547-549 | only the maximum version changes |
| OpenSslStream.SetIdentity | src/openssl_stream_adapter.cpp:535-537 | only the identity changes |
| IpAddress.Union | src/ipaddress.cpp:139-141 | the stored bytes read as an IPv6 address: an IPv4 address in its first four bytes, zeros after, the any address for no family |
| IpAddress.Size | src/ipaddress.cpp:143-151 | 4 bytes for IPv4, 16 for IPv6, 0 for no family |
| IpAddress.FromHostOrder | src/ipaddress.h:63-66 | an IPv4 address whose host-order value is the number given |
| IpAddress.HostOrderInteger | src/ipaddress.cpp:221-227 | 0 for any family but IPv4 |
| IpAddress.HostOrderRoundTrip | src/ipaddress.cpp:221-227 | an IPv4 address rebuilt from its host-order value is the same address |
| IpAddress.Equal | src/ipaddress.cpp:43-54 | equal exactly when family and address bytes agree |
| IpAddress.LessIsStrictTotalOrder | src/ipaddress.cpp:64-87 | `<` is irreflexive, asymmetric, transitive and orders any two different addresses |
| IpAddress.GreaterIsConverse | src/ipaddress.cpp:60-62 | `>` is `<` with the operands swapped |
| IpAddress.PrivateV4Ranges | src/ipaddress.cpp:121-127 | private IPv4 is exactly 127/8, 10/8, 172.16/12, 192.168/16 and 169.254/16 |
| IpAddress.V4Classification | src/ipaddress.cpp:251-289 | an IPv4 address is any exactly at host-order value 0 and loopback exactly at 0x7f000001; it is private exactly when its host-order value is in a private range; only the no-family address is unspecified |
| IpAddress.V6PrefixTests | src/ipaddress.cpp:291-335 | 6bone is 3ffe::/16, 6to4 is 2002::/16 and Teredo is 2001:0::/32, each exactly |
| IpAddress.V6EmbeddedV4Tests | src/ipaddress.cpp:291-343 | v4-mapped is exactly ten zero bytes then ff ff; v4-compatible is exactly twelve zero bytes |
| IpAddress.V4MappedIsMappedForm | src/ipaddress.cpp:212-219 | an IPv6 address is v4-mapped exactly when it is the mapped form of the IPv4 address in its last four bytes |
| IpAddress.V6PrivateTests | src/ipaddress.cpp:251-311 | link-local is exactly fe 80 in the first two bytes; a private IPv6 address is exactly link-local or ::1; an any address is neither loopback nor private |
| IpAddress.BitTestRanges | src/ipaddress.cpp:315-331 | the ULA, site-local and MAC-based tests as byte ranges: fc00::/7, fec0::/10, and the universal/local bit with ff:fe in the middle of the interface id |
| IpAddress.Precedence | src/ipaddress.cpp:345-368 | the precedence table row by row, each test taken only when the earlier ones fail: 0 exactly for no family, 30 for IPv4, then for IPv6 60 for loopback, 50 for ULA, 30 for v4-mapped, 20 for 6to4, 10 for Teredo, 1 exactly for v4-compatible, site-local or 6bone and 40 otherwise; 6to4 and Teredo rank below native IPv4 |
| IpAddress.AsIPv6 | src/ipaddress.cpp:212-219 | an IPv4 address becomes the v4-mapped IPv6 address holding its bytes; others are unchanged |
| IpAddress.Normalized | src/ipaddress.cpp:201-210 | a v4-mapped address becomes the IPv4 address in its last four bytes; others are unchanged |
| IpAddress.MappedRoundTrips | src/ipaddress.cpp:201-219 | mapping an IPv4 address and normalising gives it back, and the other way round for a v4-mapped address |
| IpAddress.MappedPrecedence | src/ipaddress.cpp:345-368 | an IPv4 address and its v4-mapped form have the same precedence |
| IpAddress.MappedAnyNotLoopback | src/ipaddress.cpp:251-272 | the v4-mapped form of an IPv4 address is "any" exactly when the address is, and is never loopback |
| IpAddress.TruncateIP | src/ipaddress.cpp:370-410 | a negative length or no family gives no address; otherwise the family is kept, length 0 gives the any address and a length of at least the width the address itself |
| IpAddress.TruncateV6Value | src/ipaddress.cpp:386-407 | IPv6 truncation keeps exactly the top bits of the 128-bit value |
| IpAddress.TruncateKeepsTopBits | src/ipaddress.cpp:370-410 | truncation keeps the top `length` bits and clears the rest, for every length below the width |
| IpAddress.TruncateTwice | src/ipaddress.cpp:370-410 | truncating twice is truncating once to the shorter length |
| IpAddress.LeadingOnes | src/ipaddress.h:173-176 | the leading ones of a word never exceed its width |
| IpAddress.CountWordAsWritten | src/ipaddress.cpp:440-458 | the per-word count as computed is at most 32 |
| IpAddress.CountMaskBitsAsWritten | src/ipaddress.cpp:412-459 | the mask count as computed never exceeds the address width |
| IpAddress.CountMaskBits | src/ipaddress.h:173-176 | the count of contiguous leading ones never exceeds the address width |
| IpAddress.CountContiguousWord | src/ipaddress.cpp:440-458 | a contiguous word of k leading ones counts k, as computed and as declared |
| IpAddress.CountTruncatedOnesAsWritten | src/ipaddress.cpp:412-459 | as computed, a mask of the first n bits counts n |
| IpAddress.CountTruncatedOnes | src/ipaddress.h:173-176 | as declared, a mask of the first n bits counts n |
| IpAddress.NonContiguousMaskCount | src/ipaddress.cpp:440-458 | for the mask 255.0.255.0 the computed count is 24 where the declared count is 8 |
| SocketAddress.Clear | src/socket_address.cpp:58-64 | a cleared address is nil, with scope id 0 and no literal name |
| SocketAddress.SetPort | src/socket_address.cpp:102-107 | a port in 0..65535 is stored; any other leaves the address unchanged; nothing else changes |
| SocketAddress.SetIP | src/socket_address.cpp:86-91 | the address is stored, the name dropped, the scope id reset, the port kept |
| SocketAddress.SetIPHostOrder | src/socket_address.cpp:79-84 | an IPv4 address with the host-order value given, the name dropped, the port kept |
| SocketAddress.SetHostname | src/socket_address.cpp:93-100 | the name is stored; it is literal exactly when it parses as an IP address, which is then taken; otherwise the address is cleared |
| SocketAddress.FromHostname | src/socket_address.cpp:39-42 | the name with the port when it is in range; an out-of-range port leaves the uninitialised field |
| SocketAddress.FromIP | src/socket_address.cpp:44-52 | the address with the port when it is in range, without a name |
| SocketAddress.HostAsUriString | src/socket_address.cpp:117-128 | a name that is not a literal as it is; otherwise the address text, bracketed for IPv6 |
| SocketAddress.DecimalText | src/socket_address.cpp:130-134 | non-empty decimal digits without a leading zero |
| SocketAddress.ToString | src/socket_address.cpp:149-153 | the host text, a ':' and the port in decimal |
| SocketAddress.Strtoul | src/socket_address.cpp:173-178 | text with no digits after the white space and sign reads as 0 |
| SocketAddress.PortOfText | src/socket_address.cpp:173-178 | a number below 2^31 reaches `set_port` unchanged |
| SocketAddress.FindLast | src/socket_address.cpp:163-164 | the last occurrence of the character, present exactly when the character is |
| SocketAddress.FromString | src/socket_address.cpp:161-181 | bracketed text without ']' succeeds changing nothing; a failure changes nothing; plain text succeeds exactly when it has a ':', the name being the text before the first one and the port the text after; bracketed text succeeds exactly when a ':' follows the last ']', the name being what lies between the brackets |
| SocketAddress.FromBracketed | src/socket_address.cpp:162-172 | the bracketed form of `from_string` |
| SocketAddress.FromPlain | src/socket_address.cpp:173-178 | the plain form of `from_string` |
| SocketAddress.EqualIPs | src/socket_address.cpp:218-221 | the same address, and the same name as well when the address is any or unspecified |
| SocketAddress.EqualPorts | src/socket_address.cpp:223-225 | the same port |
| SocketAddress.Equal | src/socket_address.cpp:200-202 | equal addresses and equal ports |
| SocketAddress.StringLess | src/socket_address.cpp:204-216 | a string is never less than itself |
| SocketAddress.ClearIsNil | src/socket_address.cpp:58-68 | nil is exactly no name, no address and port 0, and a cleared address is nil and not unresolved |
| SocketAddress.ResolvedState | src/socket_address.cpp:196-198 | a non-empty name that is not an IP literal leaves the address unresolved; an address set directly never is |
| SocketAddress.SettersCommute | src/socket_address.cpp:93-107 | setting the port and the name commute |
| SocketAddress.EqualIsEquivalence | src/socket_address.cpp:200-225 | `==` is reflexive, symmetric and transitive |
| SocketAddress.NameMattersOnlyWithoutAddress | src/socket_address.cpp:218-221 | changing only the name keeps the address equal exactly when the address is neither any nor unspecified |
| SocketAddress.StringLessIsStrictTotalOrder | src/socket_address.cpp:204-216 | the string order is a strict total order |
| SocketAddress.LessAgreesWithEqual | src/socket_address.cpp:200-216 | `<` is irreflexive and two addresses are `==` exactly when neither is less than the other |
| SocketAddress.LessIsTransitive | src/socket_address.cpp:204-216 | `<` is transitive |
| SocketAddress.DecimalRoundTrip | src/socket_address.cpp:130-134 | the decimal text of a number reads back as the number |
| SocketAddress.StrtoulOfDecimal | src/socket_address.cpp:173-178 | `strtoul` reads back a number in decimal, whatever non-digit follows |
| SocketAddress.PortRoundTrip | src/socket_address.cpp:130-134 | a port written in decimal reads back as that port |
| SocketAddress.OversizedPortWraps | src/socket_address.cpp:173-178 | a port text 2^32 above a valid port is accepted as that port |
| SocketAddress.FromStringPlain | src/socket_address.cpp:161-181 | `host:port` parses back to that host and port |
| SocketAddress.FromStringBracketed | src/socket_address.cpp:161-181 | `[host]:port` parses back to that host and port |
| SocketAddress.ToStringRoundTrip | src/socket_address.cpp:149-181 | the text form of an address parses back to the same address |
| Network.NewNetwork | src/network.cpp:520-553 | a new network has the given name, description, prefix and type, no addresses, is active with id, preference and scope 0, and its key is made from name, prefix and length |
| Network.AddIP | src/network.h:258 | the address goes at the end, duplicates included; nothing else changes |
| Network.SetType | src/network.h:277-283 | only the type changes |
| Network.SetActive | src/network.h:312-316 | only the activity changes |
| Network.SettersIdempotent | src/network.h:277-316 | setting the type or the activity twice is setting it once, and setting the current value changes nothing |
| Network.GetCost | src/network.h:285-298 | ethernet and loopback cost least, Wi-Fi and VPN low, cellular high, anything else unknown, never above the maximum |
| Network.FirstMissing | src/network.cpp:564-571 | the first new address the old list lacks, none exactly when every new address was already there |
| Network.SetIPs | src/network.cpp:559-574 | the addresses are replaced; a change is reported exactly when the caller passed one or some new address is not among the old ones, or the counts differ |
| Network.SetIPsPermutation | src/network.cpp:559-574 | the same addresses in another order are no change |
| Network.SetIPsNewAddress | src/network.cpp:559-574 | any address not held before is a change |
| Network.FlagBits | src/ipaddress.h:36-45 | the temporary and deprecated tests are the source's `& 1` and `& 2` on the flags' two's complement pattern |
| Network.IsIgnoredIPv6 | src/network.cpp:95-118 | only IPv6 addresses are ignored: exactly the link-local, the MAC-based and the deprecated ones |
| Network.FindText | src/network.cpp:132-140 | the first occurrence of the text at or after the start, none exactly when there is no occurrence there |
| Network.FirstNonDigit | src/network.cpp:132-140 | the end of the digits starting at the position |
| Network.MatchTypeNameWithIndexPattern | src/network.cpp:132-140 | the name matches exactly when it is the type name followed only by digits |
| Network.AdapterTypeFromName | src/network.cpp:147-166 | loopback for lo, ethernet for eth, VPN for ipsec, tun, utun and tap, each followed by an index, tried in that order; unknown otherwise |
| Network.AdapterTypeExamples | src/network.cpp:147-166 | eth0 is ethernet, lo loopback, utun12 VPN |
| Network.AdapterTypeUnknownExamples | src/network.cpp:147-166 | ethernet and wlan0 are of unknown type |
| Network.IsIgnoredNetwork | src/network.cpp:454-483 | ignored exactly when on the ignore list, a VMware or VirtualBox interface, or an IPv4 prefix with first byte 0 |
| Network.GetBestIP | src/network.cpp:577-613 | no address without addresses; the first address on an IPv4 network |
| Network.BestIPFirstTemporary | src/network.cpp:586-601 | on IPv6 the first temporary address that is neither deprecated nor a ULA wins |
| Network.BestIPLastGlobal | src/network.cpp:586-601 | without a temporary one, the last address that is neither deprecated nor a ULA wins |
| Network.BestIPUlaFallback | src/network.cpp:602-612 | with only ULAs and deprecated addresses, the last usable ULA is taken |
| Network.BestIPAllDeprecated | src/network.cpp:577-613 | with every address deprecated there is no best address |
| Network.AddIPKeepsV4Best | src/network.cpp:581-584 | adding an address to an IPv4 network that has one keeps its best address |
| Network.CompareNetworksIncomparabilityNotTransitive | src/network.cpp:43-50 | the first sort's order is not a strict weak order: incomparability is not transitive |
| Network.SortBeforeIsStrictTotalOrder | src/network.cpp:52-74 | the final sort's order is irreflexive, transitive and total on networks with different keys |
| Network.NewManager | src/network.cpp:184-189 | a new manager has no networks, gives ids from 1, keeps at most five IPv6 networks and has IPv6 enabled |
| Network.NetworkList | src/network.cpp:197-210 | the listed networks in order |
| Network.Filter | src/network.cpp:197-210 | the networks of one family, never more than given |
| Network.GetNetworks | src/network.cpp:197-210 | the loop keeps the list as the reference filter does |
| Network.KeptOthers | src/network.cpp:197-210 | no network that is not IPv6 is dropped |
| Network.KeptIPv6 | src/network.cpp:197-210 | the first networks up to the IPv6 maximum are kept, in order |
| Network.Lookup | src/network.cpp:235-244 | the entry of a key, none exactly when no entry has it |
| Network.Gather | src/network.cpp:230-257 | a network's addresses join its key's entry, or it starts a new one; the entries stay in key order and no other entry changes |
| Network.Consolidate | src/network.cpp:226-257 | one entry per key holding the first network and all addresses of the key, with each key counted once by family |
| Network.Reuse | src/network.cpp:259-295 | one merged network per entry, and a change already reported stays reported |
| Network.ReuseMerged | src/network.cpp:259-295 | the merged list is the entries' keys in order |
| Network.ReuseDomain | src/network.cpp:259-295 | the map gains the entries' keys and keeps every other network unchanged |
| Network.ReuseFiled | src/network.cpp:259-295 | every network stays filed under its own key |
| Network.ReuseEntry | src/network.cpp:259-295 | a known key's network is refreshed with the entry's addresses and type; a new key gets the entry's network with the next id |
| Network.ReuseChanged | src/network.cpp:259-295 | a change is reported exactly when some entry is new, changes addresses or type, or revives an inactive network |
| Network.ReuseNextId | src/network.cpp:259-295 | the next id advances once per new key, wrapping at 65536 |
| Network.MarkActive | src/network.cpp:306-313 | every known network is active exactly when listed; nothing else changes |
| Network.Insert | src/network.cpp:314 | one insertion step of the sort adds exactly the one network |
| Network.SortNetworks | src/network.cpp:314 | the sort returns a permutation of its input |
| Network.SortNetworksSorted | src/network.cpp:314 | the sorted networks are in the final order, each key once |
| Network.SortedUnique | src/network.cpp:52-74 | two sorted permutations of a list are equal, so the order does not depend on the sorting algorithm |
| Network.KeysOf | src/network.cpp:305 | the keys of a list, in order |
| Network.AssignPreferences | src/network.cpp:322-331 | only preferences change, and only of known networks |
| Network.PreferencesAssigned | src/network.cpp:322-331 | the i-th listed network gets 127 minus i while that is not negative; later networks and unlisted ones keep theirs |
| Network.NetworksOf | src/network.cpp:305 | the networks of the keys, in order |
| Network.SortedKeys | src/network.cpp:314 | the keys are permuted into the final order |
| Network.SortedIgnoresMarks | src/network.cpp:52-74 | activity and preference play no part in the order |
| Network.Relist | src/network.cpp:304-332 | after a change: every known network is active exactly when merged, the list is a sorted permutation of the merged keys, the first 128 get preferences 127 down to 0 and the rest keep theirs |
| Network.MergeNetworkList | src/network.cpp:219-333 | the manager stays well formed, its limits unchanged |
| Network.MergeChanged | src/network.cpp:219-333 | a change is reported exactly when some entry changes the networks or the number of networks differs |
| Network.MergeList | src/network.cpp:296-314 | after a change the list holds exactly the new keys in the final order; otherwise it is kept |
| Network.MergeDomain | src/network.cpp:259-295 | the map keeps every network and gains one per new key |
| Network.MergeEntry | src/network.cpp:259-295 | each new key's network is the refreshed known one, or its first network with all the key's addresses and the next id; after a change it is active |
| Network.MergeDropped | src/network.cpp:304-313 | a known network missing from the enumeration stays in the map, inactive after a change |
| Network.MergePreferences | src/network.cpp:315-331 | after a change the first 128 listed networks get preferences 127 down to 0 |
| Network.MergeKeepsPreference | src/network.cpp:322-331 | a network past the 128th or off the list keeps its preference |
| Network.MergeStats | src/network.cpp:248-256 | the statistics count each new key once, by the family of its first address |
| Network.MergeNextId | src/network.cpp:266-270 | ids go on from the next id, one per new key, on the 16-bit counter |
| Network.MergeActive | src/network.cpp:304-313 | a network is active exactly when listed after the merge; without a change the list already held exactly the new keys |
| TimeUtils.TimeDiff | src/time_utils.cpp:52-54 | the difference added to the earlier time gives the later one |
| TimeUtils.TimeDiffAntisymmetric | src/time_utils.cpp:52-54 | swapping the arguments negates the difference |
| TimeUtils.TimeDiff32 | src/time_utils.cpp:56-58 | added to the earlier time modulo 2^32 the difference gives the later one, and it is the true difference whenever that fits 32 signed bits |
| TimeUtils.TimeDiff32AcrossWrap | src/time_utils.cpp:56-58 | a small forward step across the wrap of the counter is a small positive difference |
| TimeUtils.TimeDiff32Antisymmetric | src/time_utils.cpp:56-58 | swapping the arguments negates the difference, except for -2^31 |
| TimeUtils.MonthLength | src/time_utils.cpp:71 | months have 28 to 31 days, 29 exactly for February of a leap year |
| TimeUtils.TmToSeconds | src/time_utils.cpp:70-119 | -1 exactly when a field is out of range, otherwise a non-negative count |
| TimeUtils.YearLength | src/time_utils.cpp:81-82 | a year has 365 or 366 days |
| TimeUtils.LeapDaysStep | src/time_utils.cpp:105-107 | the source's leap-day count grows by one exactly in a leap year |
| TimeUtils.DaysBeforeYearByLeapCount | src/time_utils.cpp:103-113 | the days before a year are 365 a year plus the leap days counted as the source counts them |
| TimeUtils.DaysBeforeMonthTable | src/time_utils.cpp:72-73 | the table of cumulative month lengths agrees with summing the months, the leap day counted from March |
| TimeUtils.DaysBeforeMonthYear | src/time_utils.cpp:71-73 | the twelve months add up to the year |
| TimeUtils.TmToSecondsIsEpochSeconds | src/time_utils.cpp:70-119 | the conversion equals the seconds since the epoch counted day by day from 1970 |
| TimeUtils.EpochIsZero | src/time_utils.cpp:70-119 | 1970-01-01 00:00:00 is second 0 |
| TimeUtils.SuccessiveSeconds | src/time_utils.cpp:70-119 | successive seconds differ by one across every calendar boundary |
| TimeUtils.NextDay | src/time_utils.cpp:70-119 | the last second of a day is followed by the first of the next day, month or year |
| TimeUtils.TmToSecondsIncreasing | src/time_utils.cpp:70-119 | k seconds later converts to k more: the conversion is strictly increasing |
| TimeUtils.Later | src/time_utils.cpp:70-119 | a valid time k seconds on is valid, at most k years later |
| TimeUtils.Unwrap | src/time_utils.cpp:124-142 | the value is congruent to the timestamp; the first call starts the count; a backward wrap uses one wrap fewer and keeps the state; otherwise a forward wrap counts one more and the timestamp is remembered |
| TimeUtils.Ahead | src/time_utils.cpp:131-135 | the forward distance round the 32-bit counter |
| TimeUtils.UnwrapIsContinuous | src/time_utils.cpp:124-142 | a short step ahead or behind, across a wrap or not, lands that step after or before the last value |
| TimeUtils.UnwrapAll | src/time_utils.cpp:124-142 | one value per timestamp |
| TimeUtils.UnwrapAllForward | src/time_utils.cpp:124-142 | timestamps stepping forward in short steps unwrap to a timeline that never jumps |
| SslIdentity.NewKeyParams | src/ssl_identity.cpp:61-70 | ECDSA keys are on P-256; RSA keys get the default modulus size and exponent |
| SslIdentity.ValidKeyParams | src/ssl_identity.cpp:72-81 | only RSA and ECDSA can be valid; RSA with the default exponent exactly for a 1024 to 8192 bit modulus; ECDSA exactly on P-256 |
| SslIdentity.DefaultsValid | src/ssl_identity.h:80-92 | both constructor defaults, and the default key type, are valid |
| SslIdentity.LeadingDigits | src/ssl_identity.cpp:130 | the length of the run of digits at the start |
| SslIdentity.Asn1ReadInt | src/ssl_identity.cpp:108-117 | on digits the number they spell, below 10^n; otherwise still bounded |
| SslIdentity.Asn1ReadIntLocal | src/ssl_identity.cpp:108-117 | the value depends only on the n bytes read |
| SslIdentity.Digits | src/ssl_identity.cpp:108-117 | a number written with exactly n digits |
| SslIdentity.ReadDigits | src/ssl_identity.cpp:108-117 | n digits written for a number below 10^n read back as the number |
| SslIdentity.Asn1TimeToSec | src/ssl_identity.cpp:119-180 | -1 unless the text ends in 'Z', has only digits before it and has its format's length; otherwise the seconds of the time it spells, non-negative exactly for a valid time |
| SslIdentity.LeadingDigitsStopAtZ | src/ssl_identity.cpp:122-133 | the digit scan stops at the 'Z' and sees only the time |
| SslIdentity.AsWrittenReadsPastEnd | src/ssl_identity.cpp:139-177 | a well-terminated time shorter than its format has bytes past its end read before -1 is returned |
| SslIdentity.AsWrittenOverReadExample | src/ssl_identity.cpp:139-177 | the eleven bytes "0000000000Z" as a GeneralizedTime have fourteen bytes read |
| SslIdentity.AsWrittenAgrees | src/ssl_identity.cpp:119-180 | apart from the over-read the source's value is the corrected conversion's |
| SslIdentity.FieldsOfLocal | src/ssl_identity.cpp:147-172 | the fields come from the format's bytes only |
| SslIdentity.GeneralizedTime | src/ssl_identity.cpp:139-147 | the yyyymmddhhmmssZ text of a time is well formed |
| SslIdentity.UtcTime | src/ssl_identity.cpp:149-160 | the yymmddhhmmssZ text of a time from 1950 to 2049 is well formed |
| SslIdentity.Tail | src/ssl_identity.cpp:168-172 | month, day and time of day as ten digits |
| SslIdentity.ReadTail | src/ssl_identity.cpp:168-172 | the ten digits read back as month, day, hour, minute and second |
| SslIdentity.GeneralizedTimeRoundTrip | src/ssl_identity.cpp:119-180 | a GeneralizedTime written for a time converts to that time's seconds |
| SslIdentity.UtcTimeRoundTrip | src/ssl_identity.cpp:149-180 | a UTCTime written for a time from 1950 to 2049 converts to that time's seconds, the two-digit year landing in the right century |
| RtcCertificate.ExpirationTime | src/openssl_identity.cpp:329-343 | a UTCTime or GeneralizedTime notAfter is converted in its format; any other type is -1 |
| RtcCertificate.ExpiresAt | src/rtccertificate.cpp:37-44 | an unknown expiry is 0 (long past), a known one in milliseconds |
| RtcCertificate.UnknownExpiryAlwaysExpired | src/rtccertificate.cpp:37-48 | a certificate with an unknown expiry has expired at every moment |
| RtcCertificate.ExpiredFrom | src/rtccertificate.cpp:46-48 | a certificate has expired exactly from its expiry on, and stays expired |
| RtcCertificate.ExpirationTimeFits | src/rtccertificate.cpp:37-44 | any notAfter time the conversion yields fits 64 bits in milliseconds |
| RtcCertificate.Expires | src/rtccertificate.cpp:37-44 | the notAfter time in milliseconds, or 0 when unknown |
| RtcCertificate.SecondsFitMillis | src/rtccertificate.cpp:37-44 | any time from 1970 to 9999 fits 64 bits in milliseconds |
| RtcCertificate.ExpiresAtNotAfter | src/rtccertificate.cpp:37-48 | a certificate whose notAfter is the GeneralizedTime of a moment expires at that moment and has expired exactly from then on |
| RtcCertificate.Lifetime | src/rtccertificate_generator.cpp:37-45 | the default lifetime without an expiry; otherwise the expiry in whole seconds, capped at 365 days |
| RtcCertificate.LifetimeMonotone | src/rtccertificate_generator.cpp:40-41 | a later expiry never gives a shorter lifetime |
| RtcCertificate.GenerateCertificate | src/rtccertificate_generator.cpp:28-53 | invalid key parameters give nothing and ask for nothing; otherwise an identity named WebRTC is asked for with the lifetime, and its failure gives no certificate |
| RtcCertificate.DefaultKeyGenerates | src/rtccertificate_generator.cpp:28-53 | the default key parameters always lead to a request, for at most a year |
| Random.NewRandomAsWritten | src/random.cpp:29-31 | the seed becomes the state, 0 included |
| Random.NewRandom | src/random.h:72-73 | a generator seeded with a non-zero value has a non-zero state, as the nonzero-output comment needs |
| Random.XorShiftRight | src/random.h:74 | an xor-shift right loses no bits: the state is zero after it exactly when it was before |
| Random.XorShiftLeft | src/random.h:75 | an xor-shift left loses no bits: the state is zero after it exactly when it was before |
| Random.Shuffle | src/random.h:74-76 | the three xor-shifts give zero exactly from zero |
| Random.Scramble | src/random.h:77 | the odd multiplier is undone by its inverse modulo 2^64, so only 0 gives 0 |
| Random.ProductInverse | src/random.h:77 | multiplying by the multiplier and then its inverse modulo 2^64 gives the value back |
| Random.Value | src/random.h:73-77 | a state is zero as a number exactly when it is zero as bits |
| Random.NextOutput | src/random.h:72-78 | the output and the new state are non-zero exactly when the old state was |
| Random.NextOutputFromOne | src/random.h:72-78 | from state 1 the shuffled state is 2^25 + 1 and the output is that times the multiplier modulo 2^64 |
| Random.Outputs | src/random.h:72-78 | n draws give n outputs |
| Random.OutputsNonZero | src/random.h:72-78 | a non-zero state gives only non-zero outputs, however many are drawn |
| Random.NewRandomOutputsNonZero | src/random.h:72-78 | a generator from a non-zero seed never outputs 0 |
| Random.SeedZeroOutputsZero | src/random.cpp:29-31 | the seed 0 is accepted and that generator outputs only 0 |
| Random.ZeroStateOutputsZero | src/random.h:72-78 | a zero state outputs only 0 |
| Random.RandInt | src/random.h:46-54 | the output cut to the type: in the type's range and agreeing with the output in its low bits |
| Random.ScaleToRange | src/random.cpp:38-43 | a 32-bit value scaled to [0, t] lands in it |
| Random.ScaleMonotone | src/random.cpp:38-43 | a larger value never scales to a smaller one |
| Random.ScaleReaches | src/random.cpp:38-43 | every value of [0, t] is reached, from the ceiling of k times 2^32 over t + 1 |
| Random.RandUpTo | src/random.cpp:33-44 | a value in [0, t] from the low 32 bits of one output |
| Random.RandUpToFullRange | src/random.cpp:33-44 | with the widest range the low 32 bits are returned unchanged |
| Random.RandBetween | src/random.cpp:46-48 | in [low, high] when low <= high; in the wrapped range otherwise |
| Random.WrapBetween | src/random.cpp:46-48 | adding low back in 32 bits lands in the range, or the wrapped range |
| Random.RandBetweenSigned | src/random.cpp:50-54 | the signed form lands in [low, high] when low <= high |
| Random.SignedBetween | src/random.cpp:50-54 | the casts back to a signed value land in [low, high] |
| Random.SignedRoundTrip | src/random.cpp:50-54 | a signed 32-bit value survives the cast to unsigned and back |
| Random.RandBool | src/random.cpp:70-73 | true exactly when `rand(0, 1)` is 1, that is when the top bit of the low word is set |
| Random.ScaleToTwo | src/random.cpp:38-43 | scaled to [0, 1] a value is its top bit |
| Random.Base64Index | src/random.cpp:118-123 | a position in the base-64 table, or -1 |
| Random.HexIndex | src/random.cpp:125-126 | a position in the hex table, or -1 |
| Random.Base64Decodes | src/random.cpp:118-123 | the 64 table characters are distinct |
| Random.HexDecodes | src/random.cpp:125-126 | the 16 hex characters are distinct |
| Random.CreateRandomStringWith | src/random.cpp:150-170 | succeeds exactly when the table size divides 256 and the generator succeeds, each byte picking the entry at it modulo the size; on failure the string is empty |
| Random.CreateRandomString | src/random.cpp:172-174 | base-64 characters, one per byte, each the byte's low six bits |
| Random.UnbiasedTable | src/random.cpp:155-159 | with a size dividing 256 every entry is picked by exactly 256 / size byte values |
| Random.HexOf | src/random.cpp:191-211 | one hex digit per byte, its low four bits |
| Random.Digit17Index | src/random.cpp:128 | a position in "89ab", or -1 |
| Random.UuidPosition | src/random.cpp:186-213 | where byte i's digit lands in the 36 characters |
| Random.CreateRandomUuid | src/random.cpp:183-213 | a string of the version-4 form xxxxxxxx-xxxx-4xxx-yxxx-xxxxxxxxxxxx |
| Random.UuidDecodes | src/random.cpp:186-213 | each digit gives back the bits of the byte it came from |
| Random.Digit17Decodes | src/random.cpp:128 | the four characters of the y digit are distinct |
| Random.UuidByte | src/random.cpp:186-213 | the byte behind each digit position |
| Random.UuidBytes | src/random.cpp:186-213 | the bytes that make a given UUID |
| Random.UuidEveryForm | src/random.cpp:183-213 | every string of the version-4 form can be produced |
| Random.CreateRandomId64 | src/random.cpp:221-223 | the id's high half is one random id and its low half the other |
| Random.Id64EveryValue | src/random.cpp:221-223 | every 64-bit id can be produced |
| Random.CreateRandomNonZeroId | src/random.cpp:225-231 | the first non-zero draw, after only zero draws, or none when every draw given was 0 |
| Random.CreateRandomDataAsWritten | src/random.cpp:176-181 | throws exactly for length 0; otherwise the generator's answer and the bytes it wrote |
| Random.CreateRandomData | src/random.cpp:176-181 | never throws; the data has the length asked for |
| Random.DataAgreesExceptEmpty | src/random.cpp:176-181 | the two agree on every non-empty request and differ on the empty one |
| RateStatistics.NewRateStats | src/rate_statistics.cpp:21-29 | a fresh counter is valid, holds no samples, spans its whole window and does not count as initialised |
| RateStatistics.SumsUpdate | src/rate_statistics.h:62-67 | replacing one bucket moves the running totals by exactly the difference |
| RateStatistics.NoSamplesAllEmpty | src/rate_statistics.h:62-67 | with no samples recorded, every bucket is empty |
| RateStatistics.Slot | src/rate_statistics.cpp:84-88 | the bucket k places after the oldest one, round the circular buffer |
| RateStatistics.CullStep | src/rate_statistics.cpp:48-55 | one culling pass keeps the totals equal to the buckets' and moves the oldest time on by one |
| RateStatistics.CullStepShifts | src/rate_statistics.cpp:48-55 | one pass slides the window by one millisecond, an empty bucket entering at the newest end |
| RateStatistics.Cull | src/rate_statistics.cpp:47-56 | the loop stops at the new oldest time or when no samples remain, never passing it |
| RateStatistics.CullShifts | src/rate_statistics.cpp:47-56 | the loop slides the window by the milliseconds it passed over |
| RateStatistics.CullSplit | src/rate_statistics.cpp:47-56 | culling to one time and then a later one is culling to the later one |
| RateStatistics.EraseOld | src/rate_statistics.cpp:33-58 | nothing changes before the first sample; otherwise the oldest time becomes now - window + 1 unless it is already later |
| RateStatistics.EraseOldSlides | src/rate_statistics.cpp:33-58 | times still in the window keep their buckets, and times that entered it are empty |
| RateStatistics.EraseOldTwice | src/rate_statistics.cpp:33-58 | on a clock from 0, sliding to a time and then a later one is sliding once to the later one |
| RateStatistics.Update | src/rate_statistics.cpp:71-93 | a sample before the window is ignored; otherwise now falls in the window and the totals gain one sample and the count |
| RateStatistics.UpdateAddsSample | src/rate_statistics.cpp:84-92 | the sample lands in the bucket of its own time and no other bucket changes |
| RateStatistics.Reset | src/rate_statistics.cpp:60-69 | reset gives back the state of a fresh counter of the same size |
| RateStatistics.SetWindowSize | src/rate_statistics.cpp:113-121 | refused, changing nothing, exactly for sizes outside (0, max]; otherwise the size is taken and old data dropped |
| RateStatistics.Rate | src/rate_statistics.cpp:95-111 | no rate exactly with no samples, an active window of at most 1 ms, or one sample in a window not yet full; otherwise the count over the active window |
| RateStatistics.RateAvailable | src/rate_statistics.cpp:100-107 | a rate needs a sample over two milliseconds or more, and two samples unless the window is full |
| RateStatistics.RateUnobservable | src/rate_statistics.h:45-51 | for times from 0 on a clock that never goes back, calling rate changes nothing a later update or rate can see |
| PercentileFilter.Target | src/percentile_filter.h:115 | the target index, the percentile of n - 1 rounded down, is a valid position |
| PercentileFilter.NewFilter | src/percentile_filter.h:63-71 | a fresh filter holds no observations and is valid |
| PercentileFilter.Advance | src/percentile_filter.h:110-118 | on a non-empty set the recorded index becomes the target and the iterator follows it; the observations do not change |
| PercentileFilter.UpperBound | src/percentile_filter.h:75-76 | the multiset inserts after every observation no larger than the value and before every larger one |
| PercentileFilter.LowerBound | src/percentile_filter.h:90 | the first observation no smaller than the value, every earlier one being smaller |
| PercentileFilter.Insert | src/percentile_filter.h:73-86 | the observations gain exactly the value, stay sorted, and the iterator sits at the target |
| PercentileFilter.InsertKeepsIterator | src/percentile_filter.h:81-84 | the iterator keeps its element, and it shifts exactly when the value is smaller than that element |
| PercentileFilter.Erase | src/percentile_filter.h:88-108 | false and no change exactly when the value is absent; otherwise exactly one copy leaves |
| PercentileFilter.EraseKeepsIterator | src/percentile_filter.h:95-105 | the erased copy is the first of its value, and it lies before the iterator exactly when the value is no larger than the iterator's |
| PercentileFilter.GetPercentileValue | src/percentile_filter.h:120-123 | 0 for an empty filter, otherwise one of the observations |
| PercentileFilter.Reset | src/percentile_filter.h:125-130 | reset gives back a fresh filter of the same percentile |
| PercentileFilter.PercentileRank | src/percentile_filter.h:28-30 | the value has at most target-many observations below it and more than that at or below it |
| PercentileFilter.CountsOfPermutation | src/percentile_filter.h:28-30 | the ranks depend only on the multiset of observations, not on their order |
| MovingMedianFilter.NewFilter | src/moving_median_filter.h:53-58 | a fresh filter with the given window holds no samples |
| MovingMedianFilter.Insert | src/moving_median_filter.h:60-70 | the sample joins the end; once more than a window is held the oldest leaves |
| MovingMedianFilter.InsertValid | src/moving_median_filter.h:60-70 | the percentile filter still holds exactly the listed samples, never more than a window |
| MovingMedianFilter.InsertEvicts | src/moving_median_filter.h:65-69 | the oldest sample is present to erase, and erasing it leaves exactly the latest window |
| MovingMedianFilter.GetFilteredValue | src/moving_median_filter.h:72-75 | 0 with no samples, otherwise one of the samples held |
| MovingMedianFilter.Reset | src/moving_median_filter.h:77-82 | reset gives back a fresh filter of the same window |
| MovingMedianFilter.FilteredIsLowerMedian | src/moving_median_filter.h:41-42 | the value is the lower median of the samples held |
| MovingMedianFilter.InsertAll | src/moving_median_filter.h:60-70 | any stream of insertions keeps the filter valid |
| MovingMedianFilter.HoldsLatest | src/moving_median_filter.h:31-32 | a filter fed a stream holds the latest window of it, in order |
| MovingMedianFilter.MedianOfLatest | src/moving_median_filter.h:27-42 | a fresh filter reports the lower median of the latest window of a stream, and 0 before the first value |

## Left out

- OpenSSL itself is not modelled: `SSL_connect`/`SSL_accept`, the BIO shim between the engine and the wrapped stream, `setup_SSL_context`, key and certificate generation, and the EVP digest lookups. The engine is a parameter returning an abstract step result. A certificate's digest is an uninterpreted function. The six-name digest-size table (`DigestSize`) is stated from the code.
- `export_keying_material` is a pass-through to OpenSSL with no state check. It is not modelled.
- `set_initial_retransmission_timeout` stores a value that nothing reads. It is not modelled; the stored default of 50 ms is.
- md5 and `Md5Digest` are not modelled, because md5.cpp is not part of this model. Where the digest factory or HMAC-by-name needs MD5, the MD5 function is a parameter.
- Sockets, the event loop and network enumeration (`getifaddrs`, `convert_if_addrs`, `create_networks`) are I/O and are left out, as is logging. The text form of IP addresses (`inet_pton`/`inet_ntop`) is an uninterpreted parameter. So is the key string of `make_network_key`.
- Concurrency is not modelled: threads, critical sections, reference counts and sigslot. The lock in `BufferQueue` is dropped, and its "readable"/"writable" signals become boolean results.
- Floating point is not modelled: `rand<float>`, `rand<double>`, `gaussian`, `exponential`, and the numeric value of `RateStatistics::rate`. `rate` returns the count and the active window that the value is computed from.
- PercentileFilter.Target: the `float` percentile becomes an exact fraction num/den. The target index is the exact product rounded down, so it can differ from the single-precision product by one near a whole number. The moving-median filter's 0.5 is exact in both.
- PercentileFilter.NewFilter: requires a percentile between 0 and 1, as the constructor's comment asks. The source's checks of this are commented out.
- MovingMedianFilter.NewFilter: requires a positive window, as the class comment demands. A zero window is not modelled.
- RateStatistics.NewRateStats: requires a window of at least 1 millisecond, because with a zero window the source allocates no buckets and its `% _max_window_size_ms` divides by zero.
- RateStatistics.NewRateStats: requires a window below 2^31 milliseconds. With a larger window, `update`'s 32-bit bucket index would wrap. `size_t` wrap-around of the counts is not modelled.
- Stream.WriteAll: requires that every successful write of a non-empty buffer accepts at least one byte and reports no more bytes than it was offered. A stream that reports success for 0 bytes makes `write_all` loop forever, and that loop is not modelled.
- Network.MergeNetworkList: the first `std::sort` by `compare_networks` is a parameter, given as a permutation of the new networks. `compare_networks` is not a strict weak order, so the sort's output is not fixed by the code. The requires also asks that the first network of each key has an address, which the code reads without checking.
- StringEncode.DecodeText: states the decoding loop with the character decoder restricted to the sixteen hex digits. The source's own loop also takes the letters g to z; it is `StringEncode.DecodeTextAsWritten`. `StringEncode.DecodeTextAgrees` proves the two equal wherever the restricted one succeeds, and on all text without a letter past f.
- StringEncode.DecodeTextCons: one pass of the restricted loop of `StringEncode.DecodeText`, not of the source's loop, which also takes the letters g to z.
- StringEncode.EncodeDecode: holds for the restricted decoder only. The source also accepts text with the letters g to z, which does not re-encode to itself ("gg" decodes to 0x10, which encodes as "10").
- StringEncode.TokenizeFirst: the run of delimiters stops at the end of the text. With the delimiter '\0' and text that ends in it, such as "a\0", the source's scan at src/string_encode.cpp:198-200 reads the string's terminator as one more delimiter and then reads past the end, and `substr` at line 204 throws. That path is not modelled.
- TimeUtils.TmToSeconds: computes `tm_year + 1900` without bound. In the source that sum is an `int` and overflows for a `tm_year` within 1900 of the largest `int` (src/time_utils.cpp:74).
- OpenSslStream.ContinueSsl: an adapter built without an event loop has no timer, and the model stops and re-arms nothing for it. The source dereferences the null event loop at src/openssl_stream_adapter.cpp:324 for such an adapter; that crash is not modelled.
- OpenSslStream.SetDtlsSrtpCryptoSuites: modelled for the build with HAVE_DTLS_SRTP only; without it the source returns false (src/openssl_stream_adapter.cpp:728-730).
- OpenSslStream.GetDtlsSrtpCryptoSuite: modelled for the build with HAVE_DTLS_SRTP only; without it the source returns false (src/openssl_stream_adapter.cpp:749-751).
- SocketAddress.FromString: requires non-empty text, because the code's `str.at(0)` throws on empty text.
- SocketAddress.FromHostname: the port that the constructor leaves uninitialised when `set_port` rejects the value is a parameter.
- SocketAddress.FromIP: the port that the constructor leaves uninitialised when `set_port` rejects the value is a parameter.
- SslIdentity.NewKeyParams: excludes `KT_LAST`, for which the constructor leaves the parameters uninitialised. The `KeyParams` union is modelled as a sum type.
- TimeUtils.TimeDiff: requires that the difference fits 64 bits. Signed overflow is undefined behaviour in the source.
- TimeUtils.NextSecond: requires a year below 2^31 - 1, because `tm_year` is an `int`.
- TimeUtils.Unwrap: `(num_wrap - 1) << 32` is modelled as multiplication by 2^32. This includes the count of -1, where the source shifts a negative number. The 64-bit range of the result is not stated.
- RtcCertificate.ExpiresAt: does not state the 64-bit wrap of an expiry whose milliseconds do not fit. No time read from a certificate is that large.
- RtcCertificate.GenerateCertificate: the comment at src/rtccertificate_generator.cpp:24 says the cap is two years, but the constant is one year (365 days). The model follows the constant.
- Random.CreateRandomStringWith: requires a non-empty table. An empty table makes the source divide by zero.
- Random.CreateRandomStringWith: when the secure generator fails, the source's bytes are uninitialised. The model takes the generator's answer as an `Option` of bytes.
- Random.CreateRandomId64: the two ids are operands of one expression, so their order is unspecified. The id placed in the high half is a parameter.
- Random.CreateRandomNonZeroId: the source draws without end until an id is non-zero. The model takes a finite sequence of draws and returns `None` when all of them are 0.
- Host byte order is fixed to little-endian for `ByteBuffer`'s host-order paths and for SHA-1's `blk0`. `ByteOrder.HostToNetwork` takes the byte order as a parameter.
- `SSLCertChain` and the OpenSSL certificate objects are not modelled. A certificate is its notAfter time and type, or an abstract value whose digest is a parameter.
- Object identity, memory management and `Optional`'s storage are replaced by Dafny values.

## Findings

| source | as written | input that shows it | evidently intended | confidence | as-written member | corrected member |
|---|---|---|---|---|---|---|
| src/string_encode.cpp:29-40 | `hex_decode(char)` takes any letter as `ch - 'A' + 10`, so g to z decode to 16 to 35 | the character `'g'` decodes to 16, `"gg"` is decoded to the byte 0x10, and `create_from_rfc4572("sha-1", "gg")` returns a one-byte fingerprint | only 0-9, a-f and A-F are hex digits | high; not executed | StringEncode.DecodeTextAsWrittenAcceptsNonHex | StringEncode.DecodeTextAgrees |
| src/ssl_identity.cpp:139-177 | `ASN1_time_to_sec` reads all the date fields before it compares the length with 15 or 13 | `"0000000000Z"`, 11 bytes as a GeneralizedTime, has 14 bytes read from it | check the length before reading the fields | high; not executed | SslIdentity.AsWrittenOverReadExample | SslIdentity.AsWrittenAgrees |
| src/random.cpp:29-31 | the seed is stored as the state as it is | seed 0 gives a generator whose every output is 0, against the "nonzero" comment at src/random.h:72 | a generator that never outputs 0, so a zero seed must not be used | medium; not executed | Random.SeedZeroOutputsZero | Random.NewRandomOutputsNonZero |
| src/random.cpp:176-181 | `create_random_data` takes `data->at(0)` of the resized string | length 0 throws `std::out_of_range` | an empty request gives empty data | high; not executed | Random.CreateRandomDataAsWritten | Random.DataAgreesExceptEmpty |
| src/ipaddress.cpp:440-458 | `count_IP_mask_bits` counts 32·i plus 32 minus the trailing zeros of the first word that is not all ones | the mask 255.0.255.0 counts 24 | the number of leading ones, as described at src/ipaddress.h:173-176, which is 8 | medium; not executed | IpAddress.NonContiguousMaskCount | IpAddress.CountTruncatedOnes |
| src/openssl_stream_adapter.cpp:776-791 | while no digest is set, the verify callback accepts the leaf certificate without recording it; `set_peer_certificate_digest` (lines 630-652) never raises `SE_OPEN` | the handshake completes before `set_peer_certificate_digest` is called; the later matching digest then finds no certificate and never raises `SE_OPEN`, against the comment at src/openssl_stream_adapter.cpp:334-337 | record the leaf while deferring, and raise `SE_OPEN` when a late digest matches it on a connected stream | medium; not executed | OpenSslStream.LateDigestNeverOpens | OpenSslStream.LateDigestOpensWhenRecorded |
