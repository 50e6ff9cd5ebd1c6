/** `IPAddress` and `InterfaceAddress`: an IPv4 or IPv6 address (or none),
    its ordering, the classification predicates, the IPv4-mapped
    conversions, prefix truncation and netmask bit counting. Bytes are in
    network order. The address storage is a union: an IPv4 address reads as
    IPv6 as its four bytes followed by twelve zero bytes, and an address of
    no family as sixteen zero bytes. */
module IpAddress {
  import opened Ints
  import opened ByteOrder

  type Bytes4 = s: seq<byte> | |s| == 4 witness [0, 0, 0, 0]
  type Bytes16 = s: seq<byte> | |s| == 16 witness [0, 0, 0, 0, 0, 0, 0, 0, 0, 0, 0, 0, 0, 0, 0, 0]

  /** AF_UNSPEC, AF_INET and AF_INET6 addresses. */
  datatype IPAddress = Unspec | V4(b4: Bytes4) | V6(b16: Bytes16)

  /** `IPV6_ADDRESS_FLAG_TEMPORARY` and `IPV6_ADDRESS_FLAG_DEPRECATED`. */
  const FLAG_TEMPORARY := 1
  const FLAG_DEPRECATED := 2

  /** An address with its IPv6 flags; equal when both parts are. */
  datatype InterfaceAddress = InterfaceAddress(ip: IPAddress, ipv6Flags: int)

  function Zeros(n: nat): (z: seq<byte>)
    ensures |z| == n && forall i :: 0 <= i < n ==> z[i] == 0
  {
    seq(n, _ => 0)
  }

  const ANY4: Bytes4 := [0, 0, 0, 0]
  const LOOPBACK4: Bytes4 := [127, 0, 0, 1]
  const ANY6: Bytes16 := [0, 0, 0, 0, 0, 0, 0, 0, 0, 0, 0, 0, 0, 0, 0, 0]
  const LOOPBACK6: Bytes16 := [0, 0, 0, 0, 0, 0, 0, 0, 0, 0, 0, 0, 0, 0, 0, 1]

  /** The prefixes used to categorise IPv6 addresses, each padded with
      zeros to sixteen bytes. */
  const V4_MAPPED_PREFIX: Bytes16 := [0, 0, 0, 0, 0, 0, 0, 0, 0, 0, 0xFF, 0xFF, 0, 0, 0, 0]
  const PREFIX_6TO4: Bytes16 := [0x20, 0x02, 0, 0, 0, 0, 0, 0, 0, 0, 0, 0, 0, 0, 0, 0]
  const PREFIX_TEREDO: Bytes16 := [0x20, 0x01, 0, 0, 0, 0, 0, 0, 0, 0, 0, 0, 0, 0, 0, 0]
  const PREFIX_V4_COMPATIBILITY: Bytes16 := ANY6
  const PREFIX_6BONE: Bytes16 := [0x3F, 0xFE, 0, 0, 0, 0, 0, 0, 0, 0, 0, 0, 0, 0, 0, 0]

  /** `ipv6_address()`: the storage read as an IPv6 address, whatever the
      family. */
  function Union(ip: IPAddress): (u: Bytes16)
    ensures ip.V6? ==> u == ip.b16
    ensures ip.V4? ==> u[..4] == ip.b4 && u[4..] == Zeros(12)
    ensures ip.Unspec? ==> u == ANY6
  {
    match ip
    case Unspec => ANY6
    case V4(b) => b + Zeros(12)
    case V6(b) => b
  }

  /** `size()`: the bytes needed to store the raw address. */
  function Size(ip: IPAddress): (n: nat)
    ensures ip.V4? ==> n == |ip.b4|
    ensures ip.V6? ==> n == |ip.b16|
    ensures ip.Unspec? ==> n == 0
  {
    match ip
    case Unspec => 0
    case V4(_) => 4
    case V6(_) => 16
  }

  /** `IPAddress(uint32_t)`: an IPv4 address from its host-order value. */
  function FromHostOrder(v: u32): (ip: IPAddress)
    ensures ip.V4? && HostOrderInteger(ip) == v
  {
    Pow256Values();
    GetSetBE(4, v);
    V4(SetBE(4, v))
  }

  /** `v4_address_as_host_order_integer`: the IPv4 address as a number,
      first byte most significant; 0 for any other family. */
  function HostOrderInteger(ip: IPAddress): (v: u32)
    ensures !ip.V4? ==> v == 0
  {
    Pow256Values();
    if ip.V4? then GetBE(ip.b4) else 0
  }

  lemma HostOrderRoundTrip(ip: IPAddress)
    requires ip.V4?
    ensures FromHostOrder(HostOrderInteger(ip)) == ip
  {
    Pow256Values();
    SetGetBE(ip.b4);
  }

  // ---------------------------------------------------------------------
  // Equality and ordering

  /** `operator==`: the same family and, for IPv4 and IPv6, the same bytes
      (`memcmp`); two addresses of no family are equal. */
  function Equal(a: IPAddress, b: IPAddress): (r: bool)
    ensures r <==> a == b
  {
    match (a, b)
    case (Unspec, Unspec) => true
    case (V4(x), V4(y)) =>
      assert (forall i :: 0 <= i < 4 ==> x[i] == y[i]) <==> x == y;
      forall i :: 0 <= i < 4 ==> x[i] == y[i]
    case (V6(x), V6(y)) =>
      assert (forall i :: 0 <= i < 16 ==> x[i] == y[i]) <==> x == y;
      forall i :: 0 <= i < 16 ==> x[i] == y[i]
    case _ => false
  }

  /** Family rank in the ordering: AF_UNSPEC, then AF_INET, then AF_INET6. */
  function FamilyRank(ip: IPAddress): nat {
    match ip
    case Unspec => 0
    case V4(_) => 1
    case V6(_) => 2
  }

  /** `memcmp(a, b, n) < 0`: the first differing byte is smaller in a. */
  function LexLess(a: seq<byte>, b: seq<byte>): bool
    requires |a| == |b|
  {
    if |a| == 0 then false
    else if a[0] != b[0] then a[0] < b[0]
    else LexLess(a[1..], b[1..])
  }

  /** `operator<`: by family (AF_UNSPEC < AF_INET < AF_INET6); IPv4 by
      host-order value; IPv6 by bytes, lexicographically. */
  function Less(a: IPAddress, b: IPAddress): bool {
    if FamilyRank(a) != FamilyRank(b) then FamilyRank(a) < FamilyRank(b)
    else match (a, b)
      case (V4(x), V4(y)) => GetBE(x) < GetBE(y)
      case (V6(x), V6(y)) => LexLess(x, y)
      case _ => false
  }

  /** `operator>`: different and not less. */
  function Greater(a: IPAddress, b: IPAddress): bool {
    !Equal(a, b) && !Less(a, b)
  }

  lemma GetBECons(c: byte, rest: seq<byte>)
    ensures GetBE([c] + rest) == c * Pow256(|rest|) + GetBE(rest)
  {
    assert GetBE([c]) == c by {
      assert [c][..0] == [];
      assert GetBE([c]) == GetBE([c][..0]) * 256 + c;
    }
    GetBEAppend([c], rest);
  }

  /** Big-endian value of a concatenation. */
  lemma {:induction false} GetBEAppend(x: seq<byte>, y: seq<byte>)
    ensures GetBE(x + y) == GetBE(x) * Pow256(|y|) + GetBE(y)
    decreases |y|
  {
    if |y| > 0 {
      var n := |y|;
      var y' := y[..n - 1];
      assert (x + y)[..|x + y| - 1] == x + y';
      GetBEAppend(x, y');
      var a, hx, hy, p1, c := GetBE(x + y'), GetBE(x), GetBE(y'), Pow256(n - 1), y[n - 1] as int;
      assert GetBE(x + y) == a * 256 + c;
      assert GetBE(y) == hy * 256 + c;
      assert Pow256(n) == 256 * p1;
      hide GetBE, Pow256;
      ShiftDigit(a, hx, hy, p1, c);
    } else {
      assert x + y == x;
    }
  }

  /** Appending a digit c to both sides of a = hx·p + hy. */
  lemma ShiftDigit(a: int, hx: int, hy: int, p: int, c: int)
    requires a == hx * p + hy
    ensures a * 256 + c == hx * (256 * p) + (hy * 256 + c)
  {
  }

  /** Comparing bytes lexicographically is comparing their big-endian
      values: the IPv4 and IPv6 orders are the same kind of order. */
  lemma {:induction false} LexLessIsValueLess(a: seq<byte>, b: seq<byte>)
    requires |a| == |b|
    ensures LexLess(a, b) <==> GetBE(a) < GetBE(b)
    decreases |a|
  {
    if |a| > 0 {
      var n := |a| - 1;
      assert a == [a[0]] + a[1..] && b == [b[0]] + b[1..];
      GetBECons(a[0], a[1..]);
      GetBECons(b[0], b[1..]);
      LexLessIsValueLess(a[1..], b[1..]);
      ConsCompare(a[0], b[0], GetBE(a[1..]), GetBE(b[1..]), Pow256(n));
    }
  }

  /** Comparing x0·p + rx with y0·p + ry for digits rx, ry below p. */
  lemma ConsCompare(x0: nat, y0: nat, rx: nat, ry: nat, p: nat)
    requires rx < p && ry < p
    ensures x0 != y0 ==> (x0 * p + rx < y0 * p + ry <==> x0 < y0)
    ensures x0 == y0 ==> (x0 * p + rx < y0 * p + ry <==> rx < ry)
  {
    if x0 < y0 {
      MulLe(x0 + 1, y0, p);
    } else if x0 > y0 {
      MulLe(y0 + 1, x0, p);
    }
  }

  lemma GetBEInjective(a: seq<byte>, b: seq<byte>)
    requires |a| == |b| && GetBE(a) == GetBE(b)
    ensures a == b
  {
    SetGetBE(a);
    SetGetBE(b);
  }

  lemma ValueLess(a: IPAddress, b: IPAddress)
    requires FamilyRank(a) == FamilyRank(b) && !a.Unspec?
    ensures a.V4? ==> (Less(a, b) <==> GetBE(a.b4) < GetBE(b.b4))
    ensures a.V6? ==> (Less(a, b) <==> GetBE(a.b16) < GetBE(b.b16))
  {
    if a.V6? {
      LexLessIsValueLess(a.b16, b.b16);
    }
  }

  /** `<` is a strict total order: irreflexive, transitive, and any two
      different addresses are ordered one way or the other. */
  lemma LessIsStrictTotalOrder(a: IPAddress, b: IPAddress, c: IPAddress)
    ensures !Less(a, a)
    ensures Less(a, b) && Less(b, c) ==> Less(a, c)
    ensures a != b ==> Less(a, b) || Less(b, a)
    ensures !(Less(a, b) && Less(b, a))
  {
    if FamilyRank(a) == FamilyRank(b) == FamilyRank(c) && !a.Unspec? {
      ValueLess(a, b);
      ValueLess(b, c);
      ValueLess(a, c);
      ValueLess(b, a);
      ValueLess(a, a);
      if a != b {
        if a.V4? {
          if GetBE(a.b4) == GetBE(b.b4) { GetBEInjective(a.b4, b.b4); }
        } else {
          if GetBE(a.b16) == GetBE(b.b16) { GetBEInjective(a.b16, b.b16); }
        }
      }
    } else if FamilyRank(a) == FamilyRank(b) && !a.Unspec? {
      ValueLess(a, b);
      ValueLess(b, a);
      ValueLess(a, a);
      if a != b {
        if a.V4? {
          if GetBE(a.b4) == GetBE(b.b4) { GetBEInjective(a.b4, b.b4); }
        } else {
          if GetBE(a.b16) == GetBE(b.b16) { GetBEInjective(a.b16, b.b16); }
        }
      }
    } else if !a.Unspec? {
      ValueLess(a, a);
    }
  }

  /** `>` is `<` with the operands swapped. */
  lemma GreaterIsConverse(a: IPAddress, b: IPAddress)
    ensures Greater(a, b) <==> Less(b, a)
  {
    LessIsStrictTotalOrder(a, b, a);
  }

  // ---------------------------------------------------------------------
  // Classification

  /** `is_private_v4`: the top bits of the host-order value are one of the
      private or local prefixes. */
  predicate IsPrivateV4(v: u32) {
    v / 0x100_0000 == 127 || v / 0x100_0000 == 10 ||
    v / 0x10_0000 == (172 * 16 + 1) ||
    v / 0x1_0000 == 192 * 256 + 168 || v / 0x1_0000 == 169 * 256 + 254
  }

  /** The private ranges by their bytes: 127/8, 10/8, 172.16/12,
      192.168/16 and 169.254/16. */
  lemma PrivateV4Ranges(b: Bytes4)
    ensures IsPrivateV4(HostOrderInteger(V4(b))) <==>
              b[0] == 127 || b[0] == 10 || (b[0] == 172 && 16 <= b[1] < 32) ||
              (b[0] == 192 && b[1] == 168) || (b[0] == 169 && b[1] == 254)
  {
    var v := HostOrderInteger(V4(b));
    GetBE4(b);
    var b0, b1, b2, b3: int := b[0], b[1], b[2], b[3];
    assert v == b0 * 0x100_0000 + b1 * 0x1_0000 + b2 * 0x100 + b3;
    DivUnique(v, 0x100_0000, b0, b1 * 0x1_0000 + b2 * 0x100 + b3);
    DivUnique(v, 0x1_0000, b0 * 256 + b1, b2 * 0x100 + b3);
    DivUnique(v, 0x10_0000, b0 * 16 + b1 / 16, (b1 % 16) * 0x1_0000 + b2 * 0x100 + b3);
  }

  lemma GetBE4(b: Bytes4)
    ensures GetBE(b) == (b[0] as int) * 0x100_0000 + (b[1] as int) * 0x1_0000 + (b[2] as int) * 0x100 + b[3]
  {
    assert b[..3][..2] == b[..2] && b[..2][..1] == b[..1] && b[..1][..0] == [];
    assert GetBE(b) == GetBE(b[..3]) * 256 + b[3];
    assert GetBE(b[..3]) == GetBE(b[..2]) * 256 + b[2];
    assert GetBE(b[..2]) == GetBE(b[..1]) * 256 + b[1];
    assert GetBE(b[..1]) == b[0];
  }

  /** `IP_is_any`: 0.0.0.0, `::`, or `::ffff:0.0.0.0`. */
  predicate IsAny(ip: IPAddress) {
    match ip
    case Unspec => false
    case V4(b) => b == ANY4
    case V6(b) => b == ANY6 || b == V4_MAPPED_PREFIX
  }

  /** `IP_is_loopback`: 127.0.0.1 or `::1` exactly. */
  predicate IsLoopback(ip: IPAddress) {
    match ip
    case Unspec => false
    case V4(b) => b == LOOPBACK4
    case V6(b) => b == LOOPBACK6
  }

  /** `IP_is_unspec`. */
  predicate IsUnspec(ip: IPAddress) {
    ip.Unspec?
  }

  /** `IP_is_helper`: the first length/8 bytes of the storage match the
      prefix (whole bytes only). */
  predicate PrefixMatches(ip: IPAddress, prefix: Bytes16, length: nat)
    requires length <= 128
  {
    Union(ip)[..length / 8] == prefix[..length / 8]
  }

  predicate Is6Bone(ip: IPAddress) { PrefixMatches(ip, PREFIX_6BONE, 16) }
  predicate Is6To4(ip: IPAddress) { PrefixMatches(ip, PREFIX_6TO4, 16) }
  predicate IsTeredo(ip: IPAddress) { PrefixMatches(ip, PREFIX_TEREDO, 32) }
  predicate IsV4Compatibility(ip: IPAddress) { PrefixMatches(ip, PREFIX_V4_COMPATIBILITY, 96) }
  predicate IsV4Mapped(ip: IPAddress) { PrefixMatches(ip, V4_MAPPED_PREFIX, 96) }

  /** `IP_is_link_local`: the storage starts fe80 (the whole second byte,
      not the ten-bit prefix). */
  predicate IsLinkLocal(ip: IPAddress) {
    Union(ip)[0] == 0xFE && Union(ip)[1] == 0x80
  }

  /** `IP_is_mac_based`: the universal/local bit (0x02 of byte 8) is set
      and bytes 11 and 12 are ff fe. */
  predicate IsMacBased(ip: IPAddress) {
    (Union(ip)[8] as bv8 & 0x02) != 0 && Union(ip)[11] == 0xFF && Union(ip)[12] == 0xFE
  }

  /** `IP_is_site_local`: fe followed by a byte with its top two bits set. */
  predicate IsSiteLocal(ip: IPAddress) {
    Union(ip)[0] == 0xFE && (Union(ip)[1] as bv8 & 0xC0) == 0xC0
  }

  /** `IP_is_ULA`: the first byte with its last bit cleared is fc. */
  predicate IsUla(ip: IPAddress) {
    (Union(ip)[0] as bv8 & 0xFE) == 0xFC
  }

  /** The masks of the bit tests, as ranges of byte values. */
  lemma BitTestRanges(ip: IPAddress)
    ensures IsUla(ip) <==> Union(ip)[0] == 0xFC || Union(ip)[0] == 0xFD
    ensures IsSiteLocal(ip) <==> Union(ip)[0] == 0xFE && Union(ip)[1] >= 0xC0
    ensures IsMacBased(ip) <==> (Union(ip)[8] / 2) % 2 == 1 && Union(ip)[11] == 0xFF && Union(ip)[12] == 0xFE
  {
    hide Union;
    var u := Union(ip);
    UlaMask(u[0]);
    SiteLocalMask(u[1]);
    UniversalLocalBit(u[8]);
  }

  /** And-ing a byte with the ULA mask fe, in arithmetic. */
  lemma UlaMask(x: byte)
    ensures (x as bv8 & 0xFE) == 0xFC <==> x == 0xFC || x == 0xFD
  {
    UlaBits(x as bv8);
    ByteAsBits(x);
  }

  /** And-ing a byte with the site-local mask c0, in arithmetic. */
  lemma SiteLocalMask(x: byte)
    ensures (x as bv8 & 0xC0) == 0xC0 <==> x >= 0xC0
  {
    SiteLocalBits(x as bv8);
    ByteAsBits(x);
  }

  /** Testing bit 1 of a byte, in arithmetic. */
  lemma UniversalLocalBit(x: byte)
    ensures (x as bv8 & 0x02) != 0 <==> (x / 2) % 2 == 1
  {
    var k := x as bv8;
    ByteAsBits(x);
    SecondBit(k);
    ShiftRightOne(k);
    LowBit(k >> 1);
  }

  lemma UlaBits(k: bv8)
    ensures (k & 0xFE == 0xFC) <==> (k as int == 0xFC || k as int == 0xFD)
  {
  }

  lemma SiteLocalBits(k: bv8)
    ensures (k & 0xC0 == 0xC0) <==> k as int >= 0xC0
  {
  }

  lemma SecondBit(k: bv8)
    ensures (k & 0x02 != 0) <==> ((k >> 1) & 1 == 1)
  {
  }

  lemma ShiftRightOne(j: bv8)
    ensures (j >> 1) as int == j as int / 2
  {
  }

  lemma LowBit(j: bv8)
    ensures (j & 1 == 1) <==> (j as int) % 2 == 1
  {
  }

  /** `IP_is_private`: a private IPv4 range, or an IPv6 address that is
      link-local or loopback. */
  predicate IsPrivate(ip: IPAddress) {
    match ip
    case Unspec => false
    case V4(_) => IsPrivateV4(HostOrderInteger(ip))
    case V6(_) => IsLinkLocal(ip) || IsLoopback(ip)
  }

  /** The IPv4 tests by host-order value: the any address is
      `INADDR_ANY` (0) and the loopback address `INADDR_LOOPBACK`
      (0x7f000001); only the no-family address is unspecified. */
  lemma V4Classification(b: Bytes4)
    ensures IsAny(V4(b)) <==> HostOrderInteger(V4(b)) == 0
    ensures IsLoopback(V4(b)) <==> HostOrderInteger(V4(b)) == 0x7F00_0001
    ensures IsPrivate(V4(b)) <==> IsPrivateV4(HostOrderInteger(V4(b)))
    ensures !IsUnspec(V4(b)) && IsUnspec(Unspec)
  {
    GetBE4(ANY4);
    GetBE4(LOOPBACK4);
    HostOrderRoundTrip(V4(b));
    HostOrderRoundTrip(V4(ANY4));
    HostOrderRoundTrip(V4(LOOPBACK4));
  }

  /** The IPv6 prefix tests read as the address bytes they require:
      3ffe::/16 for 6bone, 2002::/16 for 6to4 and 2001:0::/32 for Teredo. */
  lemma V6PrefixTests(b: Bytes16)
    ensures Is6Bone(V6(b)) <==> b[0] == 0x3F && b[1] == 0xFE
    ensures Is6To4(V6(b)) <==> b[0] == 0x20 && b[1] == 0x02
    ensures IsTeredo(V6(b)) <==> b[0] == 0x20 && b[1] == 0x01 && b[2] == 0 && b[3] == 0
  {
    assert PREFIX_6BONE[..2] == [0x3F, 0xFE];
    assert PREFIX_6TO4[..2] == [0x20, 0x02];
    assert PREFIX_TEREDO[..4] == [0x20, 0x01, 0, 0];
    assert b[..2] == [b[0], b[1]] && b[..4] == [b[0], b[1], b[2], b[3]];
  }

  /** The 96-bit prefix tests: ten zero bytes and ff ff for v4-mapped,
      twelve zero bytes for v4-compatible. */
  lemma V6EmbeddedV4Tests(b: Bytes16)
    ensures IsV4Mapped(V6(b)) <==> (forall k :: 0 <= k < 10 ==> b[k] == 0) && b[10] == 0xFF && b[11] == 0xFF
    ensures IsV4Compatibility(V6(b)) <==> forall k :: 0 <= k < 12 ==> b[k] == 0
  {
    if (forall k :: 0 <= k < 10 ==> b[k] == 0) && b[10] == 0xFF && b[11] == 0xFF {
      assert b[..12] == V4_MAPPED_PREFIX[..12];
    }
    if IsV4Mapped(V6(b)) {
      forall k | 0 <= k < 12 ensures b[k] == V4_MAPPED_PREFIX[k] {
        assert b[k] == b[..12][k];
      }
    }
    if forall k :: 0 <= k < 12 ==> b[k] == 0 {
      assert b[..12] == PREFIX_V4_COMPATIBILITY[..12];
    }
    if IsV4Compatibility(V6(b)) {
      forall k | 0 <= k < 12 ensures b[k] == 0 {
        assert b[k] == b[..12][k];
      }
    }
  }

  /** Link-local is fe 80 in the first two bytes; a private IPv6 address is
      link-local or `::1`, and the any addresses are neither. */
  lemma V6PrivateTests(b: Bytes16)
    ensures IsLinkLocal(V6(b)) <==> b[0] == 0xFE && b[1] == 0x80
    ensures IsPrivate(V6(b)) <==> (b[0] == 0xFE && b[1] == 0x80) || b == LOOPBACK6
    ensures IsAny(V6(b)) ==> !IsLoopback(V6(b)) && !IsPrivate(V6(b))
  {
    if IsAny(V6(b)) {
      assert b[0] == 0 && b[15] == 0;
    }
  }

  /** An IPv6 address is v4-mapped exactly when it is the mapped form of
      the IPv4 address in its last four bytes. */
  lemma V4MappedIsMappedForm(b: Bytes16)
    ensures IsV4Mapped(V6(b)) <==> V6(b) == AsIPv6(V4(b[12..]))
  {
    if IsV4Mapped(V6(b)) {
      assert b == V4_MAPPED_PREFIX[..12] + b[12..];
    }
  }

  /** `IP_address_precedence`: the table of the source (after RFC 3484),
      which places native IPv4 above 6to4 and Teredo. */
  function Precedence(ip: IPAddress): (p: int)
    ensures p in {0, 1, 10, 20, 30, 40, 50, 60}
    ensures ip.V4? ==> p == 30
    ensures ip.Unspec? <==> p == 0
    ensures ip.V6? && IsLoopback(ip) ==> p == 60
    ensures ip.V6? && !IsLoopback(ip) && IsUla(ip) ==> p == 50
    ensures ip.V6? && !IsLoopback(ip) && !IsUla(ip) && IsV4Mapped(ip) ==> p == 30
    ensures ip.V6? && !IsLoopback(ip) && !IsUla(ip) && !IsV4Mapped(ip) && Is6To4(ip) ==> p == 20
    ensures ip.V6? && !IsLoopback(ip) && !IsUla(ip) && !IsV4Mapped(ip) && !Is6To4(ip) && IsTeredo(ip) ==> p == 10
    ensures ip.V6? && !IsLoopback(ip) && !IsUla(ip) && !IsV4Mapped(ip) && !Is6To4(ip) && !IsTeredo(ip) ==>
              (p == 1 <==> IsV4Compatibility(ip) || IsSiteLocal(ip) || Is6Bone(ip)) &&
              (p == 40 <==> !(IsV4Compatibility(ip) || IsSiteLocal(ip) || Is6Bone(ip)))
    ensures ip.V6? && (Is6To4(ip) || IsTeredo(ip)) ==> p < 30
  {
    match ip
    case Unspec => 0
    case V4(_) => 30
    case V6(b) =>
      // The 6to4 and Teredo prefixes rule out the three earlier tests.
      V6PrefixTests(b);
      V6EmbeddedV4Tests(b);
      BitTestRanges(ip);
      if IsLoopback(ip) then 60
      else if IsUla(ip) then 50
      else if IsV4Mapped(ip) then 30
      else if Is6To4(ip) then 20
      else if IsTeredo(ip) then 10
      else if IsV4Compatibility(ip) || IsSiteLocal(ip) || Is6Bone(ip) then 1
      else 40
  }

  // ---------------------------------------------------------------------
  // IPv4-mapped conversion

  /** `as_IPv6_address`: an IPv4 address as `::ffff:a.b.c.d`; others
      unchanged. */
  function AsIPv6(ip: IPAddress): (r: IPAddress)
    ensures !ip.V4? ==> r == ip
    ensures ip.V4? ==> r.V6? && IsV4Mapped(r) && r.b16[12..] == ip.b4
  {
    match ip
    case V4(b) => V6(V4_MAPPED_PREFIX[..12] + b)
    case _ => ip
  }

  /** `normalized`: a v4-mapped IPv6 address as the IPv4 address in its last
      four bytes; others unchanged. */
  function Normalized(ip: IPAddress): (r: IPAddress)
    ensures !(ip.V6? && IsV4Mapped(ip)) ==> r == ip
    ensures ip.V6? && IsV4Mapped(ip) ==> r.V4? && r.b4 == ip.b16[12..]
  {
    if ip.V6? && IsV4Mapped(ip) then V4(ip.b16[12..]) else ip
  }

  /** Mapping into IPv6 and back gives the IPv4 address; unmapping and
      mapping again gives the v4-mapped address. */
  lemma MappedRoundTrips(ip: IPAddress)
    ensures ip.V4? ==> Normalized(AsIPv6(ip)) == ip
    ensures ip.V6? && IsV4Mapped(ip) ==> AsIPv6(Normalized(ip)) == ip
  {
    if ip.V6? && IsV4Mapped(ip) {
      assert ip.b16 == ip.b16[..12] + ip.b16[12..];
    }
  }

  /** An IPv4 address and its v4-mapped form have the same precedence. */
  lemma MappedPrecedence(ip: IPAddress)
    requires ip.V4?
    ensures Precedence(AsIPv6(ip)) == Precedence(ip)
  {
    var m := AsIPv6(ip);
    assert Union(m)[0] == 0;
    assert !IsLoopback(m) by {
      assert m.b16[10] == 0xFF;
    }
    BitTestRanges(m);
  }

  /** `IP_is_any` carries over to the v4-mapped form (`::ffff:0.0.0.0` is
      any), but `IP_is_loopback` does not: only `::1` is an IPv6 loopback. */
  lemma MappedAnyNotLoopback(ip: IPAddress)
    requires ip.V4?
    ensures IsAny(AsIPv6(ip)) <==> IsAny(ip)
    ensures !IsLoopback(AsIPv6(ip))
  {
    var m := AsIPv6(ip);
    assert m.b16[10] == 0xFF;
    assert m.b16 != ANY6 && m.b16 != LOOPBACK6 by {
      assert ANY6[10] == 0 && LOOPBACK6[10] == 0;
    }
    if ip.b4 == ANY4 {
      assert m.b16 == V4_MAPPED_PREFIX;
    }
    if m.b16 == V4_MAPPED_PREFIX {
      assert ip.b4 == m.b16[12..] == V4_MAPPED_PREFIX[12..] == ANY4;
    }
  }

  // ---------------------------------------------------------------------
  // Prefix truncation

  /** The address width in bits: 32, 128, or 0 for no family. */
  function Width(ip: IPAddress): nat {
    match ip
    case Unspec => 0
    case V4(_) => 32
    case V6(_) => 128
  }

  /** The address as one number, first byte most significant. */
  function Value(ip: IPAddress): nat {
    GetBE(Union(ip)[..Size(ip)])
  }

  /** A 32-bit host-order word with only its top k bits kept: the source's
      `w & (0xFFFFFFFF << (32 - k))`, with a shift by 32 giving 0. */
  function KeepHigh(w: nat, k: nat): (r: nat)
    requires k <= 32 && w < TWO_32
    ensures r <= w && r < TWO_32
  {
    var p := Pow2(32 - k);
    assert w / p * p <= w;
    w / p * p
  }

  /** Word i of an IPv6 address in host order. */
  function Word(b: Bytes16, i: nat): (w: nat)
    requires i < 4
    ensures w < TWO_32
  {
    Pow256Values();
    GetBE(b[4 * i..4 * i + 4])
  }

  /** The IPv6 case of `truncate_IP` for 0 < length < 128: the words before
      word length/32 kept, that word masked to its top length%32 bits, and
      the words after it zeroed. */
  function TruncateV6(b: Bytes16, length: nat): (r: Bytes16)
    requires 0 < length < 128
  {
    var p := length / 32;
    var m := KeepHigh(Word(b, p), length - 32 * p);
    Pow256Values();
    b[..4 * p] + SetBE(4, m) + Zeros(12 - 4 * p)
  }

  /** `truncate_IP`: a negative length gives no address; a length of 0 the
      any address of the family; a length of at least the width (32 or 128
      bits) the address itself; otherwise the address with all but its top
      `length` bits cleared. */
  function TruncateIP(ip: IPAddress, length: int): (r: IPAddress)
    ensures length < 0 || ip.Unspec? ==> r == Unspec
    ensures length >= 0 ==> FamilyRank(r) == FamilyRank(ip)
    ensures length >= Width(ip) ==> r == ip || length < 0 || ip.Unspec?
    ensures length == 0 && ip.V4? ==> r == V4(ANY4)
    ensures length == 0 && ip.V6? ==> r == V6(ANY6)
  {
    if length < 0 then Unspec
    else match ip
      case Unspec => Unspec
      case V4(b) =>
        if length > 31 then ip
        else if length == 0 then V4(ANY4)
        else
          Pow256Values();
          V4(SetBE(4, KeepHigh(GetBE(b), length)))
      case V6(b) =>
        if length > 127 then ip
        else if length == 0 then V6(ANY6)
        else V6(TruncateV6(b, length))
  }

  lemma Pow2Add(a: nat, b: nat)
    ensures Pow2(a + b) == Pow2(a) * Pow2(b)
    decreases a
  {
    if a > 0 {
      Pow2Add(a - 1, b);
    }
  }

  lemma Pow2Of32()
    ensures Pow2(32) == TWO_32
  {
    Pow2Bytes(4);
    Pow256Values();
  }

  /** 2^k · 2^(32-k) is 2^32. */
  lemma Pow2Split32(k: nat)
    requires k <= 32
    ensures Pow2(k) * Pow2(32 - k) == TWO_32
  {
    Pow2Add(k, 32 - k);
    Pow2Of32();
  }

  lemma {:induction false} Pow2Bytes(k: nat)
    ensures Pow2(8 * k) == Pow256(k)
    decreases k
  {
    if k > 0 {
      Pow2Add(8, 8 * (k - 1));
      Pow2Bytes(k - 1);
      assert Pow2(8) == 256;
    }
  }

  lemma GetBEZeros(n: nat)
    ensures GetBE(Zeros(n)) == 0
    decreases n
  {
    if n > 0 {
      assert Zeros(n)[..n - 1] == Zeros(n - 1);
      GetBEZeros(n - 1);
    }
  }

  /** The arithmetic core of IPv6 truncation: a value split as a high part
      H above a 32-bit word w above a low part L of R values, rounded down
      to a multiple of P·R, keeps H and the top bits of w and drops L. */
  lemma TruncateArith(h: nat, w: nat, l: nat, p: nat, t: nat, r: nat)
    requires p > 0 && r > 0 && l < r
    ensures (h * (t * p) * r + w * r + l) / (p * r) * (p * r) == h * (t * p) * r + (w / p * p) * r
  {
    var q := h * t + w / p;
    var rem := (w % p) * r + l;
    MulLe(w % p, p - 1, r);
    assert rem < p * r;
    assert h * (t * p) * r + w * r + l == q * (p * r) + rem by {
      assert w == (w / p) * p + w % p;
      assert w * r == (w / p) * (p * r) + (w % p) * r;
      assert h * (t * p) * r == (h * t) * (p * r);
    }
    DivUnique(h * (t * p) * r + w * r + l, p * r, q, rem);
    assert q * (p * r) == (h * t) * (p * r) + (w / p) * (p * r);
  }

  /** The value of sixteen bytes split at word p: the words before it, the
      word, and the bytes after it. */
  lemma SplitAtWord(b: Bytes16, p: nat)
    requires p < 4
    ensures GetBE(b) == (GetBE(b[..4 * p]) * Pow256(4) + Word(b, p)) * Pow256(12 - 4 * p) + GetBE(b[4 * p + 4..])
    ensures GetBE(b[4 * p + 4..]) < Pow256(12 - 4 * p)
  {
    hide Pow256;
    var hi, mid, lo := b[..4 * p], b[4 * p..4 * p + 4], b[4 * p + 4..];
    assert b == (hi + mid) + lo;
    GetBEAppend(hi + mid, lo);
    GetBEAppend(hi, mid);
    assert |lo| == 12 - 4 * p;
  }

  /** The value of the IPv6 truncation in the same split. */
  lemma SplitTruncated(b: Bytes16, length: nat)
    requires 0 < length < 128
    ensures var p := length / 32;
            GetBE(TruncateV6(b, length)) ==
              (GetBE(b[..4 * p]) * Pow256(4) + KeepHigh(Word(b, p), length - 32 * p)) * Pow256(12 - 4 * p)
  {
    hide GetBE, SetBE, KeepHigh, Word, Pow256, TruncateV6, Zeros;
    var p := length / 32;
    var m := KeepHigh(Word(b, p), length - 32 * p);
    Pow256Values();
    var hi, mid, z := b[..4 * p], SetBE(4, m), Zeros(12 - 4 * p);
    TruncateV6Parts(b, length);
    var a, h, r := GetBE(hi + mid), GetBE(hi), Pow256(12 - 4 * p);
    assert GetBE(hi + mid + z) == a * r by {
      GetBEAppend(hi + mid, z);
      GetBEZeros(12 - 4 * p);
    }
    assert a == h * Pow256(4) + m by {
      GetBEAppend(hi, mid);
      GetSetBE(4, m);
    }
  }

  /** The three parts of an IPv6 truncation and their lengths. */
  lemma TruncateV6Parts(b: Bytes16, length: nat)
    requires 0 < length < 128
    ensures var p := length / 32;
            Pow256(4) == TWO_32 &&
            var m := KeepHigh(Word(b, p), length - 32 * p);
            TruncateV6(b, length) == b[..4 * p] + SetBE(4, m) + Zeros(12 - 4 * p) &&
            |SetBE(4, m)| == 4 && |Zeros(12 - 4 * p)| == 12 - 4 * p
  {
    Pow256Values();
  }

  /** The powers of two involved in truncating at bit `length`. */
  lemma TruncationPowers(length: nat)
    requires 0 < length < 128
    ensures var p := length / 32;
            var k := length - 32 * p;
            Pow2(128 - length) == Pow2(32 - k) * Pow256(12 - 4 * p) &&
            Pow256(4) == Pow2(k) * Pow2(32 - k)
  {
    var p := length / 32;
    var k := length - 32 * p;
    Pow2Bytes(12 - 4 * p);
    Pow2Bytes(4);
    Pow2Add(32 - k, 96 - 32 * p);
    Pow2Add(k, 32 - k);
  }

  /** The IPv6 truncation keeps exactly the top `length` bits of the
      128-bit value. */
  lemma TruncateV6Value(b: Bytes16, length: nat)
    requires 0 < length < 128
    ensures GetBE(TruncateV6(b, length)) == GetBE(b) / Pow2(128 - length) * Pow2(128 - length)
  {
    hide GetBE, Word, Pow2, Pow256, TruncateV6;
    var p := length / 32;
    var k := length - 32 * p;
    SplitAtWord(b, p);
    SplitTruncated(b, length);
    TruncationPowers(length);
    var w := Word(b, p);
    assert KeepHigh(w, k) == w / Pow2(32 - k) * Pow2(32 - k);
    hide KeepHigh;
    RoundedSplit(GetBE(b), GetBE(TruncateV6(b, length)), GetBE(b[..4 * p]), w, GetBE(b[4 * p + 4..]),
                 Pow2(32 - k), Pow2(k), Pow256(12 - 4 * p), Pow256(4), Pow2(128 - length));
  }

  /** `TruncateArith` with the powers named. */
  lemma RoundedSplit(g: nat, gr: nat, h: nat, w: nat, l: nat, p: nat, t: nat, r: nat, x: nat, q: nat)
    requires p > 0 && r > 0 && l < r && x == t * p && q == p * r
    requires g == (h * x + w) * r + l
    requires gr == (h * x + w / p * p) * r
    ensures gr == g / q * q
  {
    TruncateArith(h, w, l, p, t, r);
    assert (h * x + w) * r + l == h * (t * p) * r + w * r + l;
    assert (h * x + w / p * p) * r == h * (t * p) * r + (w / p * p) * r;
  }

  /** `truncate_IP` keeps the top `length` bits of the address and clears
      the rest, for every length from 0 below the width. */
  lemma TruncateKeepsTopBits(ip: IPAddress, length: nat)
    requires !ip.Unspec? && length < Width(ip)
    ensures Value(TruncateIP(ip, length)) == Value(ip) / Pow2(Width(ip) - length) * Pow2(Width(ip) - length)
  {
    if ip.V4? {
      TruncateKeepsTopBitsV4(ip.b4, length);
    } else {
      TruncateKeepsTopBitsV6(ip.b16, length);
    }
  }

  lemma TruncateKeepsTopBitsV4(b: Bytes4, length: nat)
    requires length < 32
    ensures Value(TruncateIP(V4(b), length)) == Value(V4(b)) / Pow2(32 - length) * Pow2(32 - length)
  {
    var ip := V4(b);
    var r := TruncateIP(ip, length);
    assert Union(ip)[..4] == b && Union(r)[..4] == r.b4;
    Pow2Bytes(4);
    Pow256Values();
    if length == 0 {
      GetBE4(ANY4);
      DivUnique(GetBE(b), Pow2(32), 0, GetBE(b));
    } else {
      GetSetBE(4, KeepHigh(GetBE(b), length));
    }
  }

  lemma TruncateKeepsTopBitsV6(b: Bytes16, length: nat)
    requires length < 128
    ensures Value(TruncateIP(V6(b), length)) == Value(V6(b)) / Pow2(128 - length) * Pow2(128 - length)
  {
    if length == 0 {
      TruncateToZeroV6(b);
    } else {
      var ip := V6(b);
      var r := TruncateIP(ip, length);
      assert Union(ip)[..16] == b && Union(r)[..16] == r.b16;
      assert r.b16 == TruncateV6(b, length);
      hide TruncateIP, TruncateV6, GetBE, Pow2;
      TruncateV6Value(b, length);
    }
  }

  lemma TruncateToZeroV6(b: Bytes16)
    ensures Value(TruncateIP(V6(b), 0)) == Value(V6(b)) / Pow2(128) * Pow2(128)
  {
    var ip := V6(b);
    assert Value(TruncateIP(ip, 0)) == GetBE(Zeros(16)) by {
      assert ANY6 == Zeros(16);
      assert Union(V6(ANY6))[..16] == ANY6;
    }
    assert Value(ip) == GetBE(b) by {
      assert Union(ip)[..16] == b;
    }
    var g := GetBE(b);
    Pow2Bytes(16);
    GetBEZeros(16);
    hide GetBE, Pow2, Pow256, Value, TruncateIP;
    DivUnique(g, Pow2(128), 0, g);
  }

  /** Rounding down to a multiple of 2^a and then of 2^b is rounding down
      to a multiple of 2^c, c the larger of the two. */
  lemma RoundTwice(v: nat, a: nat, b: nat, c: nat)
    requires c == if a < b then b else a
    ensures v / Pow2(a) * Pow2(a) / Pow2(b) * Pow2(b) == v / Pow2(c) * Pow2(c)
  {
    if a >= b {
      Pow2Add(a - b, b);
      RoundCoarseThenFine(v, Pow2(a), Pow2(b), Pow2(a - b));
    } else {
      Pow2Add(a, b - a);
      RoundFineThenCoarse(v, Pow2(a), Pow2(b - a));
    }
  }

  /** A multiple of A = c·B is already a multiple of B. */
  lemma RoundCoarseThenFine(v: nat, A: nat, B: nat, c: nat)
    requires A > 0 && B > 0 && A == c * B
    ensures v / A * A / B * B == v / A * A
  {
    var x := v / A * A;
    assert x == (v / A * c) * B;
    DivUnique(x, B, v / A * c, 0);
  }

  /** Rounding to a multiple of A and then of A·c is rounding to a multiple
      of A·c. */
  lemma RoundFineThenCoarse(v: nat, A: nat, c: nat)
    requires A > 0 && c > 0
    ensures v / A * A / (A * c) * (A * c) == v / (A * c) * (A * c)
  {
    var q := v / A;
    var x := q * A;
    DivDiv(v, A, c);
    assert x == (q / c) * (A * c) + (q % c) * A by {
      assert q == (q / c) * c + q % c;
    }
    MulLe(q % c, c - 1, A);
    DivUnique(x, A * c, q / c, (q % c) * A);
  }

  lemma ValueDetermines(a: IPAddress, b: IPAddress)
    requires FamilyRank(a) == FamilyRank(b) && Value(a) == Value(b)
    ensures a == b
  {
    if a.V4? {
      assert Union(a)[..4] == a.b4 && Union(b)[..4] == b.b4;
      GetBEInjective(a.b4, b.b4);
    } else if a.V6? {
      assert Union(a)[..16] == a.b16 && Union(b)[..16] == b.b16;
      GetBEInjective(a.b16, b.b16);
    }
  }

  /** Truncating twice is truncating once to the shorter length. */
  lemma TruncateTwice(ip: IPAddress, n: nat, m: nat)
    ensures TruncateIP(TruncateIP(ip, n), m) == TruncateIP(ip, if n < m then n else m)
  {
    var W := Width(ip);
    if !ip.Unspec? && n < W && m < W {
      TruncateTwiceBelowWidth(ip, n, m);
    }
  }

  lemma TruncateTwiceBelowWidth(ip: IPAddress, n: nat, m: nat)
    requires !ip.Unspec? && n < Width(ip) && m < Width(ip)
    ensures TruncateIP(TruncateIP(ip, n), m) == TruncateIP(ip, if n < m then n else m)
  {
    hide TruncateIP, Value, GetBE, Union, Pow2;
    var W := Width(ip);
    var k := if n < m then n else m;
    var t := TruncateIP(ip, n);
    var tt := TruncateIP(t, m);
    var tk := TruncateIP(ip, k);
    assert Width(t) == W && FamilyRank(tt) == FamilyRank(tk);
    var v, vt, vtt, vtk := Value(ip), Value(t), Value(tt), Value(tk);
    assert vt == v / Pow2(W - n) * Pow2(W - n) by {
      TruncateKeepsTopBits(ip, n);
    }
    assert vtt == vt / Pow2(W - m) * Pow2(W - m) by {
      TruncateKeepsTopBits(t, m);
    }
    assert vtk == v / Pow2(W - k) * Pow2(W - k) by {
      TruncateKeepsTopBits(ip, k);
    }
    hide Width, FamilyRank;
    RoundTwice(v, W - n, W - m, W - k);
    assert vtt == vtk;
    ValueDetermines(tt, tk);
  }

  // ---------------------------------------------------------------------
  // Netmask bit counting

  /** The number of trailing zero bits of a positive number. */
  function TrailingZeros(w: nat): (z: nat)
    requires w > 0
  {
    if w % 2 == 1 then 0 else 1 + TrailingZeros(w / 2)
  }

  /** The number of leading one bits of a number of `width` bits. */
  function LeadingOnes(w: nat, width: nat): (n: nat)
    requires w < Pow2(width)
    ensures n <= width
  {
    if width == 0 then 0
    else if w >= Pow2(width - 1) then 1 + LeadingOnes(w - Pow2(width - 1), width - 1)
    else 0
  }

  /** The index of the first IPv6 word from i on that is not all ones, or 4
      when there is none. */
  function FirstPartialWord(b: Bytes16, i: nat): (r: nat)
    requires i <= 4
    ensures i <= r <= 4
    ensures forall j :: i <= j < r ==> Word(b, j) == TWO_32 - 1
    ensures r < 4 ==> Word(b, r) != TWO_32 - 1
    decreases 4 - i
  {
    if i == 4 || Word(b, i) != TWO_32 - 1 then i else FirstPartialWord(b, i + 1)
  }

  /** The bit count the source computes for one host-order word: 0 for a
      zero word, else 32 minus the trailing zeros (the bit-twiddling count
      that follows the isolation of the lowest set bit). */
  function CountWordAsWritten(w: nat): (n: nat)
    ensures n <= 32 || w >= TWO_32
  {
    if w == 0 then 0 else if TrailingZeros(w) >= 32 then 0 else 32 - TrailingZeros(w)
  }

  /** `count_IP_mask_bits` as written: for IPv4 the count of the word; for
      IPv6, 32 bits per leading all-ones word plus the count of the first
      word that is not; 0 for no family. For a mask that is not contiguous
      this counts up to the lowest set bit of that word rather than the
      leading ones (see `CountMaskBits`). */
  function CountMaskBitsAsWritten(mask: IPAddress): (n: nat)
    ensures n <= Width(mask)
  {
    match mask
    case Unspec => 0
    case V4(b) =>
      Pow256Values();
      CountWordAsWritten(GetBE(b))
    case V6(b) =>
      var i := FirstPartialWord(b, 0);
      if i == 4 then 128 else 32 * i + CountWordAsWritten(Word(b, i))
  }

  /** The number of contiguously set bits counted from the most significant
      bit, stopping at the first 0: what the declaration promises. */
  function CountMaskBits(mask: IPAddress): (n: nat)
    ensures n <= Width(mask)
  {
    Pow2Bytes(4);
    Pow256Values();
    match mask
    case Unspec => 0
    case V4(b) => LeadingOnes(GetBE(b), 32)
    case V6(b) =>
      var i := FirstPartialWord(b, 0);
      if i == 4 then 128 else 32 * i + LeadingOnes(Word(b, i), 32)
  }

  /** The all-ones mask of a family. */
  function AllOnes(ipv6: bool): (ip: IPAddress)
    ensures ipv6 ==> ip.V6? && !ipv6 ==> ip.V4?
  {
    if ipv6 then V6(seq(16, _ => 255)) else V4([255, 255, 255, 255])
  }

  lemma {:induction false} TrailingZerosOfShiftedOdd(j: nat, odd: nat)
    requires odd % 2 == 1
    ensures TrailingZeros(Pow2(j) * odd) == j
    decreases j
  {
    if j > 0 {
      assert Pow2(j) * odd == 2 * (Pow2(j - 1) * odd);
      TrailingZerosOfShiftedOdd(j - 1, odd);
    }
  }

  lemma {:induction false} LeadingOnesOfTopMask(width: nat, j: nat)
    requires j <= width
    ensures Pow2(j) <= Pow2(width)
    ensures Pow2(width) - Pow2(j) < Pow2(width)
    ensures LeadingOnes(Pow2(width) - Pow2(j), width) == width - j
    decreases width
  {
    if width > j {
      Pow2Add(j, width - 1 - j);
      assert Pow2(j) <= Pow2(width - 1);
      LeadingOnesOfTopMask(width - 1, j);
    }
  }

  /** The top k bits of the all-ones word are 2^32 - 2^(32-k). */
  lemma KeepHighOfOnes(k: nat)
    requires k <= 32
    ensures KeepHigh(TWO_32 - 1, k) == TWO_32 - Pow2(32 - k)
  {
    var p := Pow2(32 - k);
    Pow2Split32(k);
    assert KeepHigh(TWO_32 - 1, k) == (TWO_32 - 1) / p * p;
    var t := Pow2(k);
    hide Pow2, KeepHigh;
    RoundBelowMultiple(t, p, TWO_32);
  }

  /** Below a multiple n = t·p, the largest multiple of p is n - p. */
  lemma RoundBelowMultiple(t: nat, p: nat, n: nat)
    requires p > 0 && t > 0 && t * p == n
    ensures (n - 1) / p * p == n - p
  {
    assert n - 1 == (t - 1) * p + (p - 1);
    DivUnique(n - 1, p, t - 1, p - 1);
  }

  /** A contiguous word mask of k bits counts k bits, both as written and
      as intended. */
  lemma CountContiguousWord(k: nat)
    requires k <= 32
    ensures Pow2(32 - k) <= TWO_32 && TWO_32 == Pow2(32)
    ensures CountWordAsWritten(TWO_32 - Pow2(32 - k)) == k
    ensures LeadingOnes(TWO_32 - Pow2(32 - k), 32) == k
  {
    Pow2Bytes(4);
    Pow256Values();
    LeadingOnesOfTopMask(32, 32 - k);
    if k > 0 {
      ContiguousTrailingZeros(k);
    }
  }

  lemma ContiguousTrailingZeros(k: nat)
    requires 0 < k <= 32
    ensures Pow2(32 - k) < TWO_32
    ensures TrailingZeros(TWO_32 - Pow2(32 - k)) == 32 - k
  {
    Pow2Split32(k);
    var t := Pow2(k);
    var p := Pow2(32 - k);
    var h := Pow2(k - 1);
    assert t == 2 * h;
    hide Pow2, TrailingZeros;
    OddBelowEven(t, h);
    MaskAsMultiple(t, p, TWO_32);
    TrailingZerosOfShiftedOdd(32 - k, t - 1);
  }

  /** n = t·p with t ≥ 2: n - p is the multiple p·(t - 1) and lies above 0. */
  lemma MaskAsMultiple(t: nat, p: nat, n: nat)
    requires t >= 2 && p >= 1 && t * p == n
    ensures p < n && n - p == p * (t - 1)
  {
    MulLe(1, t - 1, p);
  }

  lemma OddBelowEven(t: nat, h: nat)
    requires h >= 1 && t == 2 * h
    ensures (t - 1) % 2 == 1
  {
    DivUnique(t - 1, 2, h - 1, 1);
  }

  lemma WordsOfTruncatedOnes(n: nat, i: nat)
    requires 0 < n < 128 && i < 4
    ensures var b := TruncateV6(AllOnes(true).b16, n);
            var p := n / 32;
            (i < p ==> Word(b, i) == TWO_32 - 1) &&
            (i == p ==> Word(b, i) == TWO_32 - Pow2(32 - (n - 32 * p)))
  {
    var ones := AllOnes(true).b16;
    var b := TruncateV6(ones, n);
    var p := n / 32;
    var k := n - 32 * p;
    Pow256Values();
    var m := KeepHigh(Word(ones, p), k);
    assert b == ones[..4 * p] + SetBE(4, m) + Zeros(12 - 4 * p);
    hide TruncateV6, KeepHigh, GetBE, SetBE, Pow2;
    assert GetBE([255, 255, 255, 255]) == TWO_32 - 1 by {
      GetBE4([255, 255, 255, 255]);
    }
    if i < p {
      assert b[4 * i..4 * i + 4] == ones[4 * i..4 * i + 4];
      assert ones[4 * i..4 * i + 4] == [255, 255, 255, 255];
    } else if i == p {
      assert ones[4 * p..4 * p + 4] == [255, 255, 255, 255];
      assert m == TWO_32 - Pow2(32 - k) by {
        KeepHighOfOnes(k);
      }
      assert b[4 * i..4 * i + 4] == SetBE(4, m);
      GetSetBE(4, m);
    }
  }

  /** The truncated all-ones IPv6 mask: all-ones words up to word n/32,
      which holds the remaining n%32 top bits. */
  lemma TruncatedOnesShape(n: nat)
    requires 0 < n < 128
    ensures var b := TruncateV6(AllOnes(true).b16, n);
            var p := n / 32;
            FirstPartialWord(b, 0) == p && Word(b, p) == TWO_32 - Pow2(32 - (n - 32 * p))
  {
    var b := TruncateV6(AllOnes(true).b16, n);
    var p := n / 32;
    var k := n - 32 * p;
    assert Pow2(32 - k) == 2 * Pow2(31 - k);
    hide TruncateV6, Word, Pow2, FirstPartialWord;
    forall j | 0 <= j < p
      ensures Word(b, j) == TWO_32 - 1
    {
      WordsOfTruncatedOnes(n, j);
    }
    WordsOfTruncatedOnes(n, p);
    FirstPartialWordAt(b, 0, p);
  }

  /** Word p is the first partial word when the words from i below it are
      all ones and it is not. */
  lemma {:induction false} FirstPartialWordAt(b: Bytes16, i: nat, p: nat)
    requires i <= p < 4
    requires forall j :: i <= j < p ==> Word(b, j) == TWO_32 - 1
    requires Word(b, p) != TWO_32 - 1
    ensures FirstPartialWord(b, i) == p
    decreases p - i
  {
    if i < p {
      FirstPartialWordAt(b, i + 1, p);
    }
  }

  /** Every word of the all-ones IPv6 mask is all ones. */
  lemma OnesWords()
    ensures FirstPartialWord(AllOnes(true).b16, 0) == 4
  {
    var b := AllOnes(true).b16;
    GetBE4([255, 255, 255, 255]);
    forall j | 0 <= j < 4 ensures Word(b, j) == TWO_32 - 1 {
      assert b[4 * j..4 * j + 4] == [255, 255, 255, 255];
    }
  }

  lemma ZeroWord()
    ensures Word(ANY6, 0) == 0 && FirstPartialWord(ANY6, 0) == 0
  {
    assert ANY6[0..4] == ANY4;
    GetBE4(ANY4);
  }

  /** The word of the truncated all-ones IPv4 mask. */
  lemma TruncatedOnesV4(n: nat)
    requires n <= 32
    ensures Pow2(32 - n) <= TWO_32
    ensures GetBE(TruncateIP(AllOnes(false), n).b4) == TWO_32 - Pow2(32 - n)
  {
    var ones := [255, 255, 255, 255];
    assert AllOnes(false) == V4(ones);
    Pow2Of32();
    Pow2Split32(n);
    assert GetBE(ones) == TWO_32 - 1 by {
      GetBE4(ones);
    }
    if n == 0 {
      assert TruncateIP(AllOnes(false), 0).b4 == ANY4;
      GetBE4(ANY4);
    } else if n < 32 {
      Pow256Values();
      var m := KeepHigh(TWO_32 - 1, n);
      assert TruncateIP(AllOnes(false), n).b4 == SetBE(4, m);
      hide TruncateIP, GetBE, SetBE, KeepHigh, Pow2, AllOnes;
      KeepHighOfOnes(n);
      GetSetBE(4, m);
    }
  }

  /** As the source computes it: a mask of the first n bits counts n bits. */
  lemma CountTruncatedOnesAsWritten(ipv6: bool, n: nat)
    requires n <= Width(AllOnes(ipv6))
    ensures CountMaskBitsAsWritten(TruncateIP(AllOnes(ipv6), n)) == n
  {
    if !ipv6 {
      TruncatedOnesV4(n);
      CountContiguousWord(n);
    } else if n == 128 {
      OnesWords();
    } else if n == 0 {
      ZeroWord();
    } else {
      CountTruncatedOnesV6(n);
    }
  }

  /** As intended: a mask of the first n bits counts n bits. */
  lemma CountTruncatedOnes(ipv6: bool, n: nat)
    requires n <= Width(AllOnes(ipv6))
    ensures CountMaskBits(TruncateIP(AllOnes(ipv6), n)) == n
  {
    if !ipv6 {
      TruncatedOnesV4(n);
      CountContiguousWord(n);
    } else if n == 128 {
      OnesWords();
    } else if n == 0 {
      ZeroWord();
      CountContiguousWord(0);
    } else {
      CountTruncatedOnesV6(n);
    }
  }

  lemma CountTruncatedOnesV6(n: nat)
    requires 0 < n < 128
    ensures CountMaskBitsAsWritten(TruncateIP(AllOnes(true), n)) == n
    ensures CountMaskBits(TruncateIP(AllOnes(true), n)) == n
  {
    hide TruncateIP, TruncateV6, CountMaskBitsAsWritten, CountMaskBits, FirstPartialWord, Word, GetBE,
         Pow2, LeadingOnes, CountWordAsWritten, TrailingZeros, AllOnes;
    TruncatedOnesIsV6(n);
    var b := TruncateV6(AllOnes(true).b16, n);
    var p := n / 32;
    TruncatedOnesShape(n);
    CountsOfWords(b, p);
    CountContiguousWord(n - 32 * p);
  }

  lemma TruncatedOnesIsV6(n: nat)
    requires 0 < n < 128
    ensures TruncateIP(AllOnes(true), n) == V6(TruncateV6(AllOnes(true).b16, n))
  {
    hide TruncateV6;
  }

  /** Both counts of an IPv6 mask whose first partial word is word p. */
  lemma CountsOfWords(b: Bytes16, p: nat)
    requires p < 4 && FirstPartialWord(b, 0) == p
    ensures Word(b, p) < Pow2(32)
    ensures CountMaskBitsAsWritten(V6(b)) == 32 * p + CountWordAsWritten(Word(b, p))
    ensures CountMaskBits(V6(b)) == 32 * p + LeadingOnes(Word(b, p), 32)
  {
    Pow2Of32();
  }

  /** The mask 255.0.255.0 has 8 leading ones, but the count as written is
      24: it counts down to the lowest set bit. */
  const NON_CONTIGUOUS_MASK := V4([255, 0, 255, 0])

  lemma NonContiguousMaskCount()
    ensures CountMaskBits(NON_CONTIGUOUS_MASK) == 8
    ensures CountMaskBitsAsWritten(NON_CONTIGUOUS_MASK) == 24
  {
    var w := 0xFF00FF00;
    assert GetBE([255, 0, 255, 0]) == w by {
      GetBE4([255, 0, 255, 0]);
    }
    assert TrailingZeros(w) == 8 by {
      assert Pow2(8) == 256;
      hide Pow2, TrailingZeros;
      TrailingZerosOfShiftedOdd(8, 0xFF00FF);
    }
    LeadingOnesPrefix(w);
    var mask := NON_CONTIGUOUS_MASK;
    assert CountMaskBits(mask) == LeadingOnes(w, 32);
    assert CountWordAsWritten(w) == 24;
    assert CountMaskBitsAsWritten(mask) == CountWordAsWritten(w);
  }

  lemma LeadingOnesPrefix(w: nat)
    requires w == 0xFF00FF00
    ensures w < Pow2(32) && LeadingOnes(w, 32) == 8
  {
    Pow2Of32();
    assert Pow2(31) == 0x8000_0000 && Pow2(30) == 0x4000_0000 && Pow2(29) == 0x2000_0000;
    assert Pow2(28) == 0x1000_0000 && Pow2(27) == 0x800_0000 && Pow2(26) == 0x400_0000;
    assert Pow2(25) == 0x200_0000 && Pow2(24) == 0x100_0000 && Pow2(23) == 0x80_0000;
    assert LeadingOnes(0xFF00, 24) == 0;
  }
}
