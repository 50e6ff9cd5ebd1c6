/** `RTCCertificate` and `RTCCertificateGenerator`: a certificate's
    expiry in milliseconds, whether it has expired, and the generation of
    a certificate for given key parameters and lifetime. Key generation
    and signing are done by OpenSSL and are a parameter here. */
module RtcCertificate {
  import opened Ints
  import opened Wrappers
  import SslIdentity
  import TimeUtils

  /** The ASN.1 string type of a certificate's notAfter time. */
  datatype Asn1TimeType = UtcTimeType | GeneralizedTimeType | OtherTimeType

  /** What the model sees of an X.509 certificate: its notAfter time. */
  datatype SslCertificate = SslCertificate(notAfterType: Asn1TimeType, notAfter: seq<byte>)

  /** An identity: the name and key parameters it was made for, and its
      certificate. */
  datatype Identity = Identity(commonName: string, keyParams: SslIdentity.KeyParams, certificate: SslCertificate)

  /** `RTCCertificate`: a wrapper around an identity. */
  datatype Certificate = Certificate(identity: Identity)

  const NUM_MILLISECS_PER_SEC := 1000

  /** `certificate_expiration_time`: the notAfter time in seconds since
      the epoch, read as a UTCTime or a GeneralizedTime according to its
      type; -1 for any other type or a time that cannot be read. */
  function ExpirationTime(c: SslCertificate): (t: int)
    ensures t >= -1
    ensures c.notAfterType == OtherTimeType ==> t == -1
    ensures c.notAfterType == GeneralizedTimeType ==> t == SslIdentity.Asn1TimeToSec(c.notAfter, true)
    ensures c.notAfterType == UtcTimeType ==> t == SslIdentity.Asn1TimeToSec(c.notAfter, false)
  {
    match c.notAfterType
    case UtcTimeType => SslIdentity.Asn1TimeToSec(c.notAfter, false)
    case GeneralizedTimeType => SslIdentity.Asn1TimeToSec(c.notAfter, true)
    case OtherTimeType => -1
  }

  /** `expires` given the expiration time: the time in milliseconds, as an
      unsigned 64-bit product, or 0 (the epoch, long past) when the
      expiration time is unknown. */
  function ExpiresAt(expiration: i64): (ms: u64)
    ensures expiration == -1 ==> ms == 0
    ensures 0 <= expiration && expiration * NUM_MILLISECS_PER_SEC < TWO_64 ==>
              ms == expiration * NUM_MILLISECS_PER_SEC
  {
    if expiration != -1 then U64(expiration * NUM_MILLISECS_PER_SEC) else 0
  }

  /** `has_expired`. */
  predicate HasExpiredAt(expiration: i64, now: u64) {
    ExpiresAt(expiration) <= now
  }

  /** A certificate whose expiration time is unknown has expired at every
      moment. */
  lemma UnknownExpiryAlwaysExpired(now: u64)
    ensures HasExpiredAt(-1, now)
  {
  }

  /** A known expiration time is the moment from which the certificate
      counts as expired, and it stays expired from then on. */
  lemma ExpiredFrom(expiration: i64, now: u64, later: u64)
    requires 0 <= expiration && expiration * NUM_MILLISECS_PER_SEC < TWO_64
    ensures HasExpiredAt(expiration, now) <==> now >= expiration * NUM_MILLISECS_PER_SEC
    ensures HasExpiredAt(expiration, now) && now <= later ==> HasExpiredAt(expiration, later)
  {
  }

  /** A notAfter time read from four or two year digits is early enough
      for its milliseconds to fit 64 bits. */
  lemma ExpirationTimeFits(c: SslCertificate)
    ensures ExpirationTime(c) * NUM_MILLISECS_PER_SEC < TWO_64
  {
    var long := c.notAfterType == GeneralizedTimeType;
    if c.notAfterType != OtherTimeType && SslIdentity.WellFormed(c.notAfter, long) {
      var tm := SslIdentity.FieldsOf(c.notAfter, long);
      assert SslIdentity.Pow10(4) == 10000 && SslIdentity.Pow10(2) == 100;
      if TimeUtils.ValidTm(tm) {
        SecondsFitMillis(tm);
      }
    }
  }

  /** `expires` of a certificate: its notAfter time in milliseconds, or 0
      when that time is unknown. */
  function Expires(c: Certificate): (ms: u64)
    ensures ExpirationTime(c.identity.certificate) == -1 ==> ms == 0
    ensures ExpirationTime(c.identity.certificate) >= 0 ==>
              ms == ExpirationTime(c.identity.certificate) * NUM_MILLISECS_PER_SEC
  {
    ExpirationTimeFits(c.identity.certificate);
    ExpiresAt(ExpirationTime(c.identity.certificate))
  }

  /** `has_expired` of a certificate. */
  predicate HasExpired(c: Certificate, now: u64) {
    Expires(c) <= now
  }

  /** The seconds a valid time from 1970 to 9999 can reach are few enough
      that their milliseconds fit 64 bits. */
  lemma SecondsFitMillis(tm: TimeUtils.Tm)
    requires TimeUtils.ValidTm(tm) && TimeUtils.Year(tm) <= 9999
    ensures 0 <= TimeUtils.TmToSeconds(tm) && TimeUtils.TmToSeconds(tm) * NUM_MILLISECS_PER_SEC < TWO_64
  {
    TimeUtils.TmToSecondsIsEpochSeconds(tm);
    DaysBeforeYearBound(TimeUtils.Year(tm));
  }

  lemma {:induction false} DaysBeforeYearBound(year: int)
    requires 1970 <= year
    ensures TimeUtils.DaysBeforeYear(year) <= 366 * (year - 1970)
    decreases year - 1970
  {
    if year > 1970 {
      DaysBeforeYearBound(year - 1);
    }
  }

  /** A certificate whose notAfter is the GeneralizedTime of a moment
      expires at that moment, in milliseconds, and has expired exactly from
      then on. */
  lemma ExpiresAtNotAfter(c: Certificate, tm: TimeUtils.Tm, now: u64)
    requires TimeUtils.ValidTm(tm) && TimeUtils.Year(tm) <= 9999
    requires c.identity.certificate == SslCertificate(GeneralizedTimeType, SslIdentity.GeneralizedTime(tm))
    ensures Expires(c) == TimeUtils.TmToSeconds(tm) * NUM_MILLISECS_PER_SEC
    ensures HasExpired(c, now) <==> now >= TimeUtils.TmToSeconds(tm) * NUM_MILLISECS_PER_SEC
  {
    SslIdentity.GeneralizedTimeRoundTrip(tm);
    SecondsFitMillis(tm);
  }

  // ---------------------------------------------------------------------
  // RTCCertificateGenerator

  const IDENTITY_NAME := "WebRTC"

  /** The longest lifetime a generated certificate is given: one year
      (365 days). */
  const YEAR_IN_SECONDS := 365 * 24 * 60 * 60

  /** The lifetime asked for: the default lifetime when no expiry is
      given, otherwise the expiry in whole seconds capped at a year. */
  function Lifetime(expiresMs: u64): (s: nat)
    ensures expiresMs == 0 ==> s == SslIdentity.DEFAULT_CERTIFICATE_LIFETIME_IN_SECONDS
    ensures expiresMs != 0 ==> s <= YEAR_IN_SECONDS && s <= expiresMs / 1000
    ensures expiresMs != 0 ==> s == YEAR_IN_SECONDS || s == expiresMs / 1000
  {
    if expiresMs == 0 then SslIdentity.DEFAULT_CERTIFICATE_LIFETIME_IN_SECONDS
    else
      var expiresS := expiresMs / 1000;
      if expiresS < YEAR_IN_SECONDS then expiresS else YEAR_IN_SECONDS
  }

  /** Asking for a later expiry never gives a shorter lifetime. */
  lemma LifetimeMonotone(a: u64, b: u64)
    requires 0 < a <= b
    ensures Lifetime(a) <= Lifetime(b)
  {
  }

  /** What `generate_certificate` does: the lifetime it asked the identity
      generator for (none when it returned early) and the certificate it
      returned (none for the source's null). */
  datatype Generated = Generated(requested: Option<nat>, certificate: Option<Certificate>)

  /** `generate_certificate`, with the OpenSSL identity generator as a
      parameter taking the common name, the key parameters and the lifetime
      in seconds. Invalid key parameters give no certificate and no
      generation; otherwise the generator is asked for an identity named
      "WebRTC" with the lifetime above, and its failure gives no
      certificate. */
  function GenerateCertificate(keyParams: SslIdentity.KeyParams, expiresMs: u64,
                               generate: (string, SslIdentity.KeyParams, nat) -> Option<Identity>): (r: Generated)
    ensures r.requested.None? <==> !SslIdentity.IsValid(keyParams)
    ensures r.requested.None? ==> r.certificate.None?
    ensures r.requested.Some? ==>
              r.requested.value == Lifetime(expiresMs) &&
              r.certificate == (match generate(IDENTITY_NAME, keyParams, Lifetime(expiresMs))
                                case None => None
                                case Some(id) => Some(Certificate(id)))
  {
    if !SslIdentity.IsValid(keyParams) then Generated(None, None)
    else
      var lifetime := if expiresMs == 0 then SslIdentity.DEFAULT_CERTIFICATE_LIFETIME_IN_SECONDS
                      else var s := expiresMs / 1000; if s < YEAR_IN_SECONDS then s else YEAR_IN_SECONDS;
      var identity := generate(IDENTITY_NAME, keyParams, lifetime);
      if identity.None? then Generated(Some(lifetime), None)
      else Generated(Some(lifetime), Some(Certificate(identity.value)))
  }

  /** The default key parameters always lead to a generation request, for
      at most a year. */
  lemma DefaultKeyGenerates(expiresMs: u64, generate: (string, SslIdentity.KeyParams, nat) -> Option<Identity>)
    ensures var r := GenerateCertificate(SslIdentity.NewKeyParams(SslIdentity.KT_DEFAULT), expiresMs, generate);
            r.requested.Some? && r.requested.value <= YEAR_IN_SECONDS
  {
    SslIdentity.DefaultsValid();
  }
}
