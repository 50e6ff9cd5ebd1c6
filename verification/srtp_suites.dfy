/** The DTLS-SRTP protection profiles (section 4.1.2 of RFC 5764 and
    section 12 of RFC 7714): ids, names, key and salt lengths, and the
    default offer. */
module SrtpSuites {
  import opened Wrappers

  const SRTP_INVALID_CRYPTO_SUITE := 0
  const SRTP_AES128_CM_SHA1_80 := 0x0001
  const SRTP_AES128_CM_SHA1_32 := 0x0002
  const SRTP_AEAD_AES_128_GCM := 0x0007
  const SRTP_AEAD_AES_256_GCM := 0x0008

  const CS_AES_CM_128_HMAC_SHA1_80 := "AES_CM_128_HMAC_SHA1_80"
  const CS_AES_CM_128_HMAC_SHA1_32 := "AES_CM_128_HMAC_SHA1_32"
  const CS_AEAD_AES_128_GCM := "AEAD_AES_128_GCM"
  const CS_AEAD_AES_256_GCM := "AEAD_AES_256_GCM"

  /** The four profile ids the library knows. */
  predicate KnownSuite(id: int) {
    id == SRTP_AES128_CM_SHA1_80 || id == SRTP_AES128_CM_SHA1_32 ||
    id == SRTP_AEAD_AES_128_GCM || id == SRTP_AEAD_AES_256_GCM
  }

  /** The four profile names. */
  predicate KnownName(name: string) {
    name == CS_AES_CM_128_HMAC_SHA1_80 || name == CS_AES_CM_128_HMAC_SHA1_32 ||
    name == CS_AEAD_AES_128_GCM || name == CS_AEAD_AES_256_GCM
  }

  /** `srtp_crypto_suite_to_name`: the profile name, or "" for an unknown id. */
  function SuiteToName(id: int): (name: string)
    ensures KnownSuite(id) <==> name != ""
    ensures KnownSuite(id) ==> KnownName(name)
  {
    if id == SRTP_AES128_CM_SHA1_32 then CS_AES_CM_128_HMAC_SHA1_32
    else if id == SRTP_AES128_CM_SHA1_80 then CS_AES_CM_128_HMAC_SHA1_80
    else if id == SRTP_AEAD_AES_128_GCM then CS_AEAD_AES_128_GCM
    else if id == SRTP_AEAD_AES_256_GCM then CS_AEAD_AES_256_GCM
    else ""
  }

  /** `srtp_crypto_suite_from_name`: the profile id, or 0 for an unknown
      name. */
  function SuiteFromName(name: string): (id: int)
    ensures KnownName(name) <==> id != SRTP_INVALID_CRYPTO_SUITE
    ensures KnownName(name) ==> KnownSuite(id)
  {
    if name == CS_AES_CM_128_HMAC_SHA1_32 then SRTP_AES128_CM_SHA1_32
    else if name == CS_AES_CM_128_HMAC_SHA1_80 then SRTP_AES128_CM_SHA1_80
    else if name == CS_AEAD_AES_128_GCM then SRTP_AEAD_AES_128_GCM
    else if name == CS_AEAD_AES_256_GCM then SRTP_AEAD_AES_256_GCM
    else SRTP_INVALID_CRYPTO_SUITE
  }

  /** The two tables are inverse bijections between the known ids and the
      known names. */
  lemma NameRoundTrip(id: int, name: string)
    ensures KnownSuite(id) ==> SuiteFromName(SuiteToName(id)) == id
    ensures KnownName(name) ==> SuiteToName(SuiteFromName(name)) == name
    ensures !KnownSuite(id) ==> SuiteFromName(SuiteToName(id)) == SRTP_INVALID_CRYPTO_SUITE
  {
  }

  /** `get_srtp_key_and_salt_lengths`: the master key and salt lengths in
      bytes, or None for an unknown id (the outputs are then not written). */
  function KeyAndSaltLengths(id: int): (r: Option<(nat, nat)>)
    ensures r.Some? <==> KnownSuite(id)
    ensures r.Some? ==> r.value.1 == (if IsGcmSuite(id) then 12 else 14)
    ensures r.Some? ==> r.value.0 == (if id == SRTP_AEAD_AES_256_GCM then 32 else 16)
  {
    if id == SRTP_AES128_CM_SHA1_32 || id == SRTP_AES128_CM_SHA1_80 then Some((16, 14))
    else if id == SRTP_AEAD_AES_128_GCM then Some((16, 12))
    else if id == SRTP_AEAD_AES_256_GCM then Some((32, 12))
    else None
  }

  predicate IsGcmSuite(id: int) {
    id == SRTP_AEAD_AES_128_GCM || id == SRTP_AEAD_AES_256_GCM
  }

  /** `is_gcm_crypto_suite_name`. */
  function IsGcmName(name: string): (b: bool)
    ensures b <==> KnownName(name) && IsGcmSuite(SuiteFromName(name))
  {
    name == CS_AEAD_AES_256_GCM || name == CS_AEAD_AES_128_GCM
  }

  /** `CryptoOptions`: whether the GCM suites of RFC 7714 are offered. */
  datatype CryptoOptions = CryptoOptions(enableGcmCryptoSuites: bool)

  /** The default options leave GCM off. */
  function DefaultOptions(): (o: CryptoOptions)
    ensures !o.enableGcmCryptoSuites
  {
    CryptoOptions(false)
  }

  /** `CryptoOptions::no_gcm()`. */
  function NoGcm(): (o: CryptoOptions)
    ensures !o.enableGcmCryptoSuites
  {
    var options := DefaultOptions();
    options.(enableGcmCryptoSuites := false)
  }

  /** `get_supported_dtls_srtp_crypto_suites`: the GCM suites first (256
      before 128) when enabled, then the two AES-CM suites, 32-bit tag
      first. */
  function SupportedSuites(options: CryptoOptions): (suites: seq<int>)
    ensures forall i :: 0 <= i < |suites| ==> KnownSuite(suites[i])
    ensures forall i :: 0 <= i < |suites| ==> (IsGcmSuite(suites[i]) ==> options.enableGcmCryptoSuites)
    ensures |suites| == (if options.enableGcmCryptoSuites then 4 else 2)
    ensures suites[|suites| - 2..] == [SRTP_AES128_CM_SHA1_32, SRTP_AES128_CM_SHA1_80]
    ensures options.enableGcmCryptoSuites ==> suites[..2] == [SRTP_AEAD_AES_256_GCM, SRTP_AEAD_AES_128_GCM]
  {
    var gcm := if options.enableGcmCryptoSuites then [SRTP_AEAD_AES_256_GCM, SRTP_AEAD_AES_128_GCM] else [];
    gcm + [SRTP_AES128_CM_SHA1_32, SRTP_AES128_CM_SHA1_80]
  }

  /** Every offered suite has a name and key lengths, and the offer has no
      repeated suite. */
  lemma SupportedSuitesUsable(options: CryptoOptions)
    ensures var s := SupportedSuites(options);
            (forall i :: 0 <= i < |s| ==> SuiteToName(s[i]) != "" && KeyAndSaltLengths(s[i]).Some?) &&
            (forall i, j :: 0 <= i < j < |s| ==> s[i] != s[j])
  {
  }
}
