/** `ssl_identity`: the key parameters a certificate can be generated with,
    and the conversion of an ASN.1 time (as restricted by section 4.1.2.5
    of RFC 5280) to seconds since the epoch. The certificate chains and the
    OpenSSL identity behind them are left out. */
module SslIdentity {
  import opened Ints
  import TimeUtils

  // ---------------------------------------------------------------------
  // KeyParams

  datatype KeyType = KtRsa | KtEcdsa | KtLast

  const KT_DEFAULT := KtEcdsa

  datatype ECCurve = EcNistP256 | EcLast

  datatype RSAParams = RSAParams(modSize: u32, pubExp: u32)

  const RSA_DEFAULT_MOD_SIZE := 1024
  const RSA_DEFAULT_EXPONENT := 0x10001
  const RSA_MIN_MOD_SIZE := 1024
  const RSA_MAX_MOD_SIZE := 8192

  /** The certificate lifetime used when none is asked for: 30 days. */
  const DEFAULT_CERTIFICATE_LIFETIME_IN_SECONDS := 60 * 60 * 24 * 30

  /** A key type with its parameters. The source keeps the RSA parameters
      and the curve in a union; here both are fields, and only the one the
      type selects is ever read. */
  datatype KeyParams = KeyParams(keyType: KeyType, rsa: RSAParams, curve: ECCurve)

  /** The constructor: ECDSA on P-256, or RSA with the default modulus size
      and exponent. Any other type leaves the object uninitialised in the
      source and is excluded. */
  function NewKeyParams(keyType: KeyType): (k: KeyParams)
    requires keyType != KtLast
    ensures k.keyType == keyType
    ensures keyType == KtEcdsa ==> k.curve == EcNistP256
    ensures keyType == KtRsa ==> k.rsa == RSAParams(RSA_DEFAULT_MOD_SIZE, RSA_DEFAULT_EXPONENT)
  {
    match keyType
    case KtEcdsa => KeyParams(KtEcdsa, RSAParams(0, 0), EcNistP256)
    case KtRsa => KeyParams(KtRsa, RSAParams(RSA_DEFAULT_MOD_SIZE, RSA_DEFAULT_EXPONENT), EcNistP256)
  }

  /** `is_valid`. */
  predicate IsValid(k: KeyParams) {
    if k.keyType == KtRsa then
      k.rsa.modSize >= RSA_MIN_MOD_SIZE && k.rsa.modSize <= RSA_MAX_MOD_SIZE &&
      k.rsa.pubExp > k.rsa.modSize
    else if k.keyType == KtEcdsa then k.curve == EcNistP256
    else false
  }

  /** What validity means: an RSA key with a modulus of 1024 to 8192 bits
      and a public exponent above the modulus size, or an ECDSA key on
      P-256; nothing else is valid. With the default exponent, the modulus
      range alone decides. */
  lemma ValidKeyParams(k: KeyParams)
    ensures IsValid(k) ==> k.keyType in {KtRsa, KtEcdsa}
    ensures k.keyType == KtRsa && k.rsa.pubExp == RSA_DEFAULT_EXPONENT ==>
              (IsValid(k) <==> 1024 <= k.rsa.modSize <= 8192)
    ensures k.keyType == KtEcdsa ==> (IsValid(k) <==> k.curve == EcNistP256)
  {
  }

  /** Both constructor defaults, and so the default key type, are valid. */
  lemma DefaultsValid()
    ensures IsValid(NewKeyParams(KtRsa)) && IsValid(NewKeyParams(KtEcdsa))
    ensures IsValid(NewKeyParams(KT_DEFAULT))
  {
  }

  // ---------------------------------------------------------------------
  // ASN.1 digits

  const CHAR_0: byte := 48
  const CHAR_Z: byte := 90

  predicate IsDigit(b: byte) {
    CHAR_0 <= b <= CHAR_0 + 9
  }

  /** `strspn(s, "0123456789")`: the length of the run of digits at the
      start of `s`. */
  function LeadingDigits(s: seq<byte>): (n: nat)
    ensures n <= |s|
    ensures forall i :: 0 <= i < n ==> IsDigit(s[i])
    ensures n < |s| ==> !IsDigit(s[n])
  {
    if s == [] || !IsDigit(s[0]) then 0 else 1 + LeadingDigits(s[1..])
  }

  function Pow10(n: nat): (r: nat)
    ensures r >= 1
  {
    if n == 0 then 1 else 10 * Pow10(n - 1)
  }

  /** 1, 11, 111, …: the bound of `n` digits of weight one each. */
  function Repunit(n: nat): nat {
    if n == 0 then 0 else 10 * Repunit(n - 1) + 1
  }

  /** `ASN1_read_int`: the `n` bytes at `start` read as a decimal number,
      most significant first, each byte taken as its distance from '0'.
      On digits it is the number they spell; on other bytes it still
      produces a value, bounded by what a byte can contribute. */
  function Asn1ReadInt(s: seq<byte>, start: nat, n: nat): (x: int)
    requires start + n <= |s|
    ensures -48 * Repunit(n) <= x <= 207 * Repunit(n)
    ensures (forall i :: start <= i < start + n ==> IsDigit(s[i])) ==> 0 <= x < Pow10(n)
  {
    if n == 0 then 0 else 10 * Asn1ReadInt(s, start, n - 1) + s[start + n - 1] - CHAR_0
  }

  /** The reader looks at its `n` bytes and nothing else. */
  lemma {:induction false} Asn1ReadIntLocal(s: seq<byte>, t: seq<byte>, start: nat, tstart: nat, n: nat)
    requires start + n <= |s| && tstart + n <= |t|
    requires s[start..start + n] == t[tstart..tstart + n]
    ensures Asn1ReadInt(s, start, n) == Asn1ReadInt(t, tstart, n)
  {
    if n > 0 {
      assert s[start + n - 1] == s[start..start + n][n - 1];
      assert t[tstart + n - 1] == t[tstart..tstart + n][n - 1];
      assert s[start..start + n - 1] == s[start..start + n][..n - 1];
      assert t[tstart..tstart + n - 1] == t[tstart..tstart + n][..n - 1];
      Asn1ReadIntLocal(s, t, start, tstart, n - 1);
    }
  }

  /** `v` written with exactly `n` decimal digits, leading zeros included. */
  function Digits(v: nat, n: nat): (d: seq<byte>)
    ensures |d| == n
    ensures forall i :: 0 <= i < n ==> IsDigit(d[i])
  {
    if n == 0 then [] else Digits(v / 10, n - 1) + [CHAR_0 + v % 10]
  }

  /** Reading back `n` digits written for a number below 10^n gives the
      number. */
  lemma {:induction false} ReadDigits(v: nat, n: nat)
    requires v < Pow10(n)
    ensures Asn1ReadInt(Digits(v, n), 0, n) == v
  {
    if n > 0 {
      var d := Digits(v, n);
      assert d[..n - 1] == Digits(v / 10, n - 1);
      ReadDigits(v / 10, n - 1);
      Asn1ReadIntLocal(d, Digits(v / 10, n - 1), 0, 0, n - 1);
    }
  }

  // ---------------------------------------------------------------------
  // ASN1_time_to_sec

  /** The number of bytes the fields of each format take: yyyymmddhhmmss
      (GeneralizedTime) or yymmddhhmmss (UTCTime). */
  function FieldBytes(longFormat: bool): nat {
    if longFormat then 14 else 12
  }

  /** A time the conversion accepts in form: exactly the field digits
      followed by a 'Z'. */
  predicate WellFormed(s: seq<byte>, longFormat: bool) {
    |s| == FieldBytes(longFormat) + 1 && s[|s| - 1] == CHAR_Z &&
    forall i :: 0 <= i < |s| - 1 ==> IsDigit(s[i])
  }

  /** The broken-down time the fields spell. A two-digit year below 50 is
      in the 2000s and one from 50 on in the 1900s (section 4.1.2.5.1 of
      RFC 5280). */
  function FieldsOf(s: seq<byte>, longFormat: bool): (tm: TimeUtils.Tm)
    requires |s| >= FieldBytes(longFormat)
  {
    var o := if longFormat then 4 else 2;
    var year := if longFormat then Asn1ReadInt(s, 0, 4) - 1900
                else var yy := Asn1ReadInt(s, 0, 2); if yy < 50 then yy + 100 else yy;
    TimeUtils.Tm(year, Asn1ReadInt(s, o, 2) - 1, Asn1ReadInt(s, o + 2, 2), Asn1ReadInt(s, o + 4, 2),
                 Asn1ReadInt(s, o + 6, 2), Asn1ReadInt(s, o + 8, 2))
  }

  /** `ASN1_time_to_sec`, reading only the bytes of the time: -1 unless the
      time ends in 'Z', has only digits before it and has exactly the
      length of its format; otherwise the seconds of the time it spells
      (-1 for a field out of range). */
  function Asn1TimeToSec(s: seq<byte>, longFormat: bool): (r: int)
    ensures !WellFormed(s, longFormat) ==> r == -1
    ensures WellFormed(s, longFormat) ==> r == TimeUtils.TmToSeconds(FieldsOf(s, longFormat))
    ensures r >= 0 <==> WellFormed(s, longFormat) && TimeUtils.ValidTm(FieldsOf(s, longFormat))
  {
    var length := |s|;
    if length == 0 || s[length - 1] != CHAR_Z then -1
    else if LeadingDigits(s) + 1 != length then -1
    else if length < (if longFormat then 11 else 9) then -1
    else if length != FieldBytes(longFormat) + 1 then -1
    else TimeUtils.TmToSeconds(FieldsOf(s, longFormat))
  }

  /** The conversion as the source writes it. `mem` is the memory from the
      start of the time on: its first `length` bytes are the time, and the
      bytes after it are whatever follows in memory. The field reads take
      the format's full 14 (or 12) bytes as soon as the length passes the
      first check (11, or 9), before the remaining length is compared.
      `extent` is how far into `mem` the conversion reads. */
  datatype Asn1Read = Asn1Read(value: int, extent: nat)

  function Asn1TimeToSecAsWritten(mem: seq<byte>, length: u64, longFormat: bool): (r: Asn1Read)
    requires length <= |mem| && FieldBytes(longFormat) <= |mem|
  {
    if length == 0 || mem[length - 1] != CHAR_Z then Asn1Read(-1, length)
    else if LeadingDigits(mem) + 1 != length then Asn1Read(-1, length)
    else if length < (if longFormat then 11 else 9) then Asn1Read(-1, length)
    else
      var tm := FieldsOf(mem, longFormat);
      var bytesLeft := U64(length - FieldBytes(longFormat));
      var value := if bytesLeft != 1 then -1 else TimeUtils.TmToSeconds(tm);
      Asn1Read(value, if length < FieldBytes(longFormat) then FieldBytes(longFormat) else length)
  }

  /** The digit scan stops at the 'Z', so it sees only the time. */
  lemma {:induction false} LeadingDigitsStopAtZ(mem: seq<byte>, length: nat)
    requires 0 < length <= |mem| && mem[length - 1] == CHAR_Z
    ensures LeadingDigits(mem) == LeadingDigits(mem[..length])
    decreases length
  {
    if length > 1 && IsDigit(mem[0]) {
      assert mem[..length][1..] == mem[1..][..length - 1];
      LeadingDigitsStopAtZ(mem[1..], length - 1);
    }
  }

  /** The source reads past the digits of the time: a GeneralizedTime of
      11 to 14 bytes, or a UTCTime of 9 to 12, ending in 'Z' with only
      digits before it, has its full field width read although it holds
      fewer digits. Up to 13 (or 11) bytes the reads run past the end of
      the time itself; at 14 (or 12) the 'Z' is read as a digit. The
      answer is still -1, from the length check that follows the reads. */
  lemma AsWrittenReadsPastEnd(mem: seq<byte>, length: u64, longFormat: bool)
    requires length <= |mem| && FieldBytes(longFormat) <= |mem|
    requires (if longFormat then 11 else 9) <= length <= FieldBytes(longFormat)
    requires mem[length - 1] == CHAR_Z && forall i :: 0 <= i < length - 1 ==> IsDigit(mem[i])
    ensures Asn1TimeToSecAsWritten(mem, length, longFormat).extent > length - 1
    ensures length < FieldBytes(longFormat) ==> Asn1TimeToSecAsWritten(mem, length, longFormat).extent > length
    ensures Asn1TimeToSecAsWritten(mem, length, longFormat).value == -1
  {
    hide TimeUtils.TmToSeconds;
    LeadingDigitsStopAtZ(mem, length);
    assert LeadingDigits(mem[..length]) == length - 1 by {
      assert forall i :: 0 <= i < length - 1 ==> IsDigit(mem[..length][i]);
    }
  }

  /** The smallest case: the eleven bytes "0000000000Z" as a
      GeneralizedTime have fourteen bytes read. */
  lemma AsWrittenOverReadExample()
    ensures var mem := [CHAR_0, CHAR_0, CHAR_0, CHAR_0, CHAR_0, CHAR_0, CHAR_0, CHAR_0, CHAR_0, CHAR_0, CHAR_Z, 0, 0, 0];
            Asn1TimeToSecAsWritten(mem, 11, true) == Asn1Read(-1, 14)
  {
    var mem := [CHAR_0, CHAR_0, CHAR_0, CHAR_0, CHAR_0, CHAR_0, CHAR_0, CHAR_0, CHAR_0, CHAR_0, CHAR_Z, 0, 0, 0];
    AsWrittenReadsPastEnd(mem, 11, true);
  }

  /** Apart from the over-read, the source computes what the corrected
      conversion does: the value depends only on the bytes of the time. */
  lemma AsWrittenAgrees(mem: seq<byte>, length: u64, longFormat: bool)
    requires length <= |mem| && FieldBytes(longFormat) <= |mem|
    ensures Asn1TimeToSecAsWritten(mem, length, longFormat).value == Asn1TimeToSec(mem[..length], longFormat)
  {
    hide Asn1TimeToSec, GeneralizedTime, UtcTime, FieldsOf;
    var s := mem[..length];
    if length > 0 && mem[length - 1] == CHAR_Z {
      LeadingDigitsStopAtZ(mem, length);
      if LeadingDigits(mem) + 1 == length && length == FieldBytes(longFormat) + 1 {
        assert s[..FieldBytes(longFormat)] == mem[..FieldBytes(longFormat)];
        FieldsOfLocal(mem, s, longFormat);
      }
    }
  }

  /** The fields are read from the format's bytes only. */
  lemma FieldsOfLocal(s: seq<byte>, t: seq<byte>, longFormat: bool)
    requires FieldBytes(longFormat) <= |s| && FieldBytes(longFormat) <= |t|
    requires s[..FieldBytes(longFormat)] == t[..FieldBytes(longFormat)]
    ensures FieldsOf(s, longFormat) == FieldsOf(t, longFormat)
  {
    var w := FieldBytes(longFormat);
    forall start: nat, n: nat | start + n <= w
      ensures Asn1ReadInt(s, start, n) == Asn1ReadInt(t, start, n)
    {
      assert s[start..start + n] == s[..w][start..start + n];
      assert t[start..start + n] == t[..w][start..start + n];
      Asn1ReadIntLocal(s, t, start, start, n);
    }
  }

  // ---------------------------------------------------------------------
  // Writing a time, and reading it back

  /** A time as a GeneralizedTime: yyyymmddhhmmssZ. */
  function GeneralizedTime(tm: TimeUtils.Tm): (s: seq<byte>)
    requires TimeUtils.ValidTm(tm) && TimeUtils.Year(tm) <= 9999
    ensures WellFormed(s, true)
  {
    Digits(TimeUtils.Year(tm), 4) + Tail(tm) + [CHAR_Z]
  }

  /** A time from 1950 to 2049 as a UTCTime: yymmddhhmmssZ. */
  function UtcTime(tm: TimeUtils.Tm): (s: seq<byte>)
    requires TimeUtils.ValidTm(tm) && 1950 <= TimeUtils.Year(tm) <= 2049
    ensures WellFormed(s, false)
  {
    Digits(TimeUtils.Year(tm) % 100, 2) + Tail(tm) + [CHAR_Z]
  }

  /** Two digits at offset `k` of a piece `t` of `s` are read back. */
  lemma ReadField(s: seq<byte>, o: nat, t: seq<byte>, k: nat, v: nat)
    requires o + |t| <= |s| && s[o..o + |t|] == t && k + 2 <= |t|
    requires v < 100 && t[k..k + 2] == Digits(v, 2)
    ensures Asn1ReadInt(s, o + k, 2) == v
  {
    assert s[o + k] == s[o..o + |t|][k] && s[o + k + 1] == s[o..o + |t|][k + 1];
    assert s[o + k..o + k + 2] == t[k..k + 2];
    assert Pow10(2) == 100;
    ReadDigitsAt(s, o + k, v, 2);
  }

  /** Digits written at `start` are read back. */
  lemma ReadDigitsAt(s: seq<byte>, start: nat, v: nat, n: nat)
    requires v < Pow10(n) && start + n <= |s| && s[start..start + n] == Digits(v, n)
    ensures Asn1ReadInt(s, start, n) == v
  {
    ReadDigits(v, n);
    Asn1ReadIntLocal(s, Digits(v, n), start, 0, n);
  }

  /** The month, day and time of day of a time, as the ten digits that
      follow the year in both formats. */
  function Tail(tm: TimeUtils.Tm): (t: seq<byte>)
    requires TimeUtils.ValidTm(tm)
    ensures |t| == 10 && forall i :: 0 <= i < 10 ==> IsDigit(t[i])
  {
    Digits(tm.tmMon + 1, 2) + Digits(tm.tmMday, 2) + Digits(tm.tmHour, 2) +
    Digits(tm.tmMin, 2) + Digits(tm.tmSec, 2)
  }

  /** The ten digits after the year read back as the month, day and time
      of day. */
  lemma ReadTail(s: seq<byte>, o: nat, tm: TimeUtils.Tm)
    requires TimeUtils.ValidTm(tm) && o + 10 <= |s| && s[o..o + 10] == Tail(tm)
    ensures Asn1ReadInt(s, o, 2) == tm.tmMon + 1 && Asn1ReadInt(s, o + 2, 2) == tm.tmMday
    ensures Asn1ReadInt(s, o + 4, 2) == tm.tmHour && Asn1ReadInt(s, o + 6, 2) == tm.tmMin
    ensures Asn1ReadInt(s, o + 8, 2) == tm.tmSec
  {
    var t := Tail(tm);
    var mon, day, hour, min, sec := Digits(tm.tmMon + 1, 2), Digits(tm.tmMday, 2), Digits(tm.tmHour, 2),
                                    Digits(tm.tmMin, 2), Digits(tm.tmSec, 2);
    assert t == mon + day + hour + min + sec;
    assert t[0..2] == mon && t[2..4] == day && t[4..6] == hour && t[6..8] == min && t[8..10] == sec;
    hide *;
    ReadField(s, o, t, 0, tm.tmMon + 1);
    ReadField(s, o, t, 2, tm.tmMday);
    ReadField(s, o, t, 4, tm.tmHour);
    ReadField(s, o, t, 6, tm.tmMin);
    ReadField(s, o, t, 8, tm.tmSec);
  }

  /** Round trip: a GeneralizedTime written for a time converts to the
      seconds of that time. */
  lemma GeneralizedTimeRoundTrip(tm: TimeUtils.Tm)
    requires TimeUtils.ValidTm(tm) && TimeUtils.Year(tm) <= 9999
    ensures FieldsOf(GeneralizedTime(tm), true) == tm
    ensures Asn1TimeToSec(GeneralizedTime(tm), true) == TimeUtils.TmToSeconds(tm)
  {
    var s := GeneralizedTime(tm);
    assert s[0..4] == Digits(TimeUtils.Year(tm), 4);
    ReadDigitsAt(s, 0, TimeUtils.Year(tm), 4);
    assert s[4..14] == Tail(tm);
    ReadTail(s, 4, tm);
  }

  /** Round trip: a UTCTime written for a time from 1950 to 2049 converts
      to the seconds of that time; the two-digit year lands in the right
      century. */
  lemma UtcTimeRoundTrip(tm: TimeUtils.Tm)
    requires TimeUtils.ValidTm(tm) && 1950 <= TimeUtils.Year(tm) <= 2049
    ensures FieldsOf(UtcTime(tm), false) == tm
    ensures Asn1TimeToSec(UtcTime(tm), false) == TimeUtils.TmToSeconds(tm)
  {
    var s := UtcTime(tm);
    assert s[0..2] == Digits(TimeUtils.Year(tm) % 100, 2);
    ReadDigitsAt(s, 0, TimeUtils.Year(tm) % 100, 2);
    assert s[2..12] == Tail(tm);
    ReadTail(s, 2, tm);
  }
}
