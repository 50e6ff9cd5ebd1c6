/** `Network` and `NetworkManagerBase`: the networks of the machine, each a
    named interface with a prefix and its addresses, and the manager that
    merges every fresh enumeration into the networks it already knows.

    A network is a value. The manager keeps its networks in a map by key
    and its current list as a sequence of keys, so that an update made
    through the map is seen through the list, as it is for the source's
    shared objects. The text of a key (`make_network_key`) is a parameter. */
module Network {
  import opened Ints
  import opened Wrappers
  import IpAddress
  import SocketAddress

  type IPAddress = IpAddress.IPAddress
  type InterfaceAddress = IpAddress.InterfaceAddress

  /** `AdapterType`. */
  datatype AdapterType = Unknown | Ethernet | Wifi | Cellular | Vpn | Loopback | AnyAdapter

  /** The enumerator's value, which orders the types when networks are
      sorted. */
  function TypeValue(t: AdapterType): nat {
    match t
    case Unknown => 0
    case Ethernet => 1
    case Wifi => 2
    case Cellular => 4
    case Vpn => 8
    case Loopback => 16
    case AnyAdapter => 32
  }

  /** `make_network_key(name, prefix, prefix_length)`. */
  type KeyMaker = (string, IPAddress, int) -> string

  datatype Network = Network(name: string, description: string, prefix: IPAddress,
                             prefixLength: int, key: string, ips: seq<InterfaceAddress>,
                             scopeId: int, ignored: bool, adapterType: AdapterType,
                             preference: int, active: bool, id: u16)

  const COST_MIN := 0
  const COST_LOW := 10
  const COST_UNKNOWN := 50
  const COST_HIGH := 900
  const COST_MAX := 999

  // ---------------------------------------------------------------------
  // One network

  /** The constructors (the four-argument one passes `Unknown`): no
      addresses yet, active, id 0, preference 0, scope 0, not ignored, and
      the key made from the name, prefix and prefix length. */
  function NewNetwork(name: string, description: string, prefix: IPAddress, prefixLength: int,
                      adapterType: AdapterType, makeKey: KeyMaker): (n: Network)
    ensures n.name == name && n.description == description && n.prefix == prefix
    ensures n.prefixLength == prefixLength && n.adapterType == adapterType
    ensures n.key == makeKey(name, prefix, prefixLength)
    ensures n.ips == [] && n.active && n.id == 0 && n.preference == 0
    ensures n.scopeId == 0 && !n.ignored
  {
    Network(name, description, prefix, prefixLength, makeKey(name, prefix, prefixLength),
            [], 0, false, adapterType, 0, true, 0)
  }

  /** `add_IP`: the address goes at the end, even when it is already
      there. */
  function AddIP(n: Network, ip: InterfaceAddress): (r: Network)
    ensures |r.ips| == |n.ips| + 1 && r.ips[..|n.ips|] == n.ips && r.ips[|n.ips|] == ip
    ensures r.(ips := n.ips) == n
  {
    n.(ips := n.ips + [ip])
  }

  /** `set_type`. */
  function SetType(n: Network, t: AdapterType): (r: Network)
    ensures r.adapterType == t && r.(adapterType := n.adapterType) == n
  {
    if n.adapterType == t then n else n.(adapterType := t)
  }

  /** `set_active`. */
  function SetActive(n: Network, active: bool): (r: Network)
    ensures r.active == active && r.(active := n.active) == n
  {
    if n.active != active then n.(active := active) else n
  }

  lemma SettersIdempotent(n: Network, t: AdapterType, active: bool)
    ensures SetType(SetType(n, t), t) == SetType(n, t)
    ensures SetActive(SetActive(n, active), active) == SetActive(n, active)
    ensures SetType(n, n.adapterType) == n && SetActive(n, n.active) == n
  {
  }

  /** `get_cost`: wired and loopback are cheapest, then Wi-Fi and VPN,
      then anything unknown, and cellular is dearest. */
  function GetCost(t: AdapterType): (c: u16)
    ensures c == COST_MIN <==> t == Ethernet || t == Loopback
    ensures c == COST_LOW <==> t == Wifi || t == Vpn
    ensures c == COST_HIGH <==> t == Cellular
    ensures c == COST_UNKNOWN <==> t == Unknown || t == AnyAdapter
    ensures c <= COST_MAX
  {
    match t
    case Ethernet => COST_MIN
    case Loopback => COST_MIN
    case Wifi => COST_LOW
    case Vpn => COST_LOW
    case Cellular => COST_HIGH
    case _ => COST_UNKNOWN
  }

  /** The first address of `ips` that `previous` does not hold
      (`std::find` failing), if any. */
  function FirstMissing(ips: seq<InterfaceAddress>, previous: seq<InterfaceAddress>): (r: Option<nat>)
    ensures r.Some? ==> r.value < |ips| && ips[r.value] !in previous &&
                        forall j :: 0 <= j < r.value ==> ips[j] in previous
    ensures r.None? ==> forall j :: 0 <= j < |ips| ==> ips[j] in previous
  {
    if |ips| == 0 then None
    else if ips[0] !in previous then Some(0)
    else match FirstMissing(ips[1..], previous)
      case None => None
      case Some(k) => Some(k + 1)
  }

  /** The change `set_IPs` looks for: a different number of addresses, or
      a new address that was not there before. */
  predicate IPsDiffer(previous: seq<InterfaceAddress>, ips: seq<InterfaceAddress>) {
    |ips| != |previous| || exists i :: 0 <= i < |ips| && ips[i] !in previous
  }

  /** `set_IPs`: the list is always replaced; the change is reported when
      the caller already had one or the addresses differ. */
  function SetIPs(n: Network, ips: seq<InterfaceAddress>, changed: bool): (r: (Network, bool))
    ensures r.0 == n.(ips := ips)
    ensures r.1 <==> changed || IPsDiffer(n.ips, ips)
  {
    var differs := changed || |ips| != |n.ips|;
    var found := if differs then differs else FirstMissing(ips, n.ips).Some?;
    (n.(ips := ips), found)
  }

  /** The same addresses in another order are no change, and neither is
      dropping a duplicate while adding one already present. */
  lemma SetIPsPermutation(n: Network, ips: seq<InterfaceAddress>)
    requires multiset(ips) == multiset(n.ips)
    ensures !SetIPs(n, ips, false).1
  {
    assert |ips| == |multiset(ips)| == |n.ips|;
    forall i | 0 <= i < |ips|
      ensures ips[i] in n.ips
    {
      assert ips[i] in multiset(ips);
    }
  }

  /** A change is reported whenever some address is new. */
  lemma SetIPsNewAddress(n: Network, ips: seq<InterfaceAddress>, i: nat)
    requires i < |ips| && ips[i] !in n.ips
    ensures SetIPs(n, ips, false).1
  {
  }

  // ---------------------------------------------------------------------
  // Address flags and filters

  /** `ipv6_flags & IPV6_ADDRESS_FLAG_TEMPORARY`: bit 0 of the flags (on a
      two's complement int, bit k is the floor of x / 2^k, modulo 2). */
  predicate IsTemporary(a: InterfaceAddress) {
    a.ipv6Flags % 2 == 1
  }

  /** `ipv6_flags & IPV6_ADDRESS_FLAG_DEPRECATED`: bit 1 of the flags. */
  predicate IsDeprecated(a: InterfaceAddress) {
    (a.ipv6Flags / 2) % 2 == 1
  }

  /** The two flag tests are the bit tests of the source on an `int` in
      two's complement, `& IPV6_ADDRESS_FLAG_TEMPORARY` (1) and
      `& IPV6_ADDRESS_FLAG_DEPRECATED` (2), which look only at the low
      byte of the pattern. */
  lemma FlagBits(a: IpAddress.InterfaceAddress)
    ensures var w := (a.ipv6Flags % 256) as byte as bv8;
            (IsTemporary(a) <==> w & 1 == 1) && (IsDeprecated(a) <==> w & 2 != 0)
  {
    var x := a.ipv6Flags;
    var u: byte := x % 256;
    var q := x / 256;
    DivUnique(x, 2, q * 128 + u / 2, u % 2);
    DivUnique(x / 2, 2, q * 64 + (u / 2) / 2, (u / 2) % 2);
    ByteAsBits(u);
    IpAddress.LowBit(u as bv8);
    IpAddress.UniversalLocalBit(u);
  }

  /** `is_ignored_IPv6`: an IPv6 address is dropped when it is link-local
      (fe80 in the first two bytes), MAC-based (the universal/local bit of
      byte 8 set and ff fe in bytes 11 and 12) or deprecated; any other
      family is never dropped. */
  function IsIgnoredIPv6(a: InterfaceAddress): (r: bool)
    ensures !a.ip.V6? ==> !r
    ensures a.ip.V6? ==>
              (r <==> (a.ip.b16[0] == 0xFE && a.ip.b16[1] == 0x80) ||
                      ((a.ip.b16[8] / 2) % 2 == 1 && a.ip.b16[11] == 0xFF && a.ip.b16[12] == 0xFE) ||
                      (a.ipv6Flags / 2) % 2 == 1)
  {
    IpAddress.BitTestRanges(a.ip);
    if !a.ip.V6? then false
    else if IpAddress.IsLinkLocal(a.ip) then true
    else if IpAddress.IsMacBased(a.ip) then true
    else IsDeprecated(a)
  }

  /** The first `i >= from` at which `t` occurs in `s` (`std::string::find`
      from the start when `from` is 0). */
  function FindText(s: string, t: string, from: nat): (r: Option<nat>)
    requires from <= |s|
    ensures r.Some? ==> from <= r.value && r.value + |t| <= |s| && s[r.value..r.value + |t|] == t
    ensures r.None? ==> !(from + |t| <= |s| && s[from..from + |t|] == t)
    decreases |s| - from
  {
    if from + |t| > |s| then None
    else if s[from..from + |t|] == t then Some(from)
    else if from == |s| then None
    else FindText(s, t, from + 1)
  }

  /** The first position at or after i that does not hold a digit
      (`std::find_if` with `!isdigit`). */
  function FirstNonDigit(s: string, i: nat): (j: nat)
    requires i <= |s|
    ensures i <= j <= |s| && (j < |s| ==> !SocketAddress.IsDigit(s[j]))
    ensures forall k :: i <= k < j ==> SocketAddress.IsDigit(s[k])
    decreases |s| - i
  {
    if i == |s| || !SocketAddress.IsDigit(s[i]) then i else FirstNonDigit(s, i + 1)
  }

  /** A name made of the type name followed by digits only, such as eth0
      for eth (no digits at all is allowed). */
  predicate TypeThenIndex(name: string, typeName: string) {
    |typeName| <= |name| && name[..|typeName|] == typeName &&
    SocketAddress.AllDigits(name[|typeName|..])
  }

  /** `match_type_name_with_index_pattern`: the type name is found at
      position 0, and nothing after it is other than a digit. */
  function MatchTypeNameWithIndexPattern(name: string, typeName: string): (r: bool)
    ensures r <==> TypeThenIndex(name, typeName)
  {
    var found := FindText(name, typeName, 0);
    if found != Some(0) then false
    else
      var j := FirstNonDigit(name, |typeName|);
      assert j == |name| <==> SocketAddress.AllDigits(name[|typeName|..]) by {
        if j < |name| {
          assert name[|typeName|..][j - |typeName|] == name[j];
        }
      }
      j == |name|
  }

  /** `get_adapter_type_from_name`: lo, then eth, then the VPN names
      ipsec, tun, utun and tap, each followed by digits; otherwise
      unknown. */
  function AdapterTypeFromName(name: string): (r: AdapterType)
    ensures r == Loopback <==> TypeThenIndex(name, "lo")
    ensures r == Ethernet <==> !TypeThenIndex(name, "lo") && TypeThenIndex(name, "eth")
    ensures r == Vpn <==> !TypeThenIndex(name, "lo") && !TypeThenIndex(name, "eth") &&
                          (TypeThenIndex(name, "ipsec") || TypeThenIndex(name, "tun") ||
                           TypeThenIndex(name, "utun") || TypeThenIndex(name, "tap"))
    ensures r == Loopback || r == Ethernet || r == Vpn || r == Unknown
  {
    if MatchTypeNameWithIndexPattern(name, "lo") then Loopback
    else if MatchTypeNameWithIndexPattern(name, "eth") then Ethernet
    else if MatchTypeNameWithIndexPattern(name, "ipsec") || MatchTypeNameWithIndexPattern(name, "tun") ||
            MatchTypeNameWithIndexPattern(name, "utun") || MatchTypeNameWithIndexPattern(name, "tap") then Vpn
    else Unknown
  }

  /** A name whose i-th character differs from the type name's does not
      match it. */
  lemma MismatchAt(name: string, typeName: string, i: nat)
    requires i < |typeName| && i < |name| && name[i] != typeName[i]
    ensures !TypeThenIndex(name, typeName)
  {
    if |typeName| <= |name| {
      assert name[..|typeName|][i] == name[i];
    }
  }

  /** Names with an index are typed by their prefix: eth0 is wired, lo is
      loopback and utun12 is a VPN. */
  lemma AdapterTypeExamples()
    ensures AdapterTypeFromName("eth0") == Ethernet
    ensures AdapterTypeFromName("lo") == Loopback
    ensures AdapterTypeFromName("utun12") == Vpn
  {
    assert TypeThenIndex("eth0", "eth") by { assert "eth0"[..3] == "eth" && "eth0"[3..] == "0"; }
    MismatchAt("eth0", "lo", 0);
    assert TypeThenIndex("lo", "lo") by { assert "lo"[..2] == "lo" && "lo"[2..] == ""; }
    assert TypeThenIndex("utun12", "utun") by { assert "utun12"[..4] == "utun" && "utun12"[4..] == "12"; }
    MismatchAt("utun12", "lo", 0);
    MismatchAt("utun12", "eth", 0);
  }

  /** A name is typed only when the whole rest is an index: ethernet and
      wlan0 are of unknown type. */
  lemma AdapterTypeUnknownExamples()
    ensures AdapterTypeFromName("ethernet") == Unknown
    ensures AdapterTypeFromName("wlan0") == Unknown
  {
    assert !TypeThenIndex("ethernet", "eth") by { assert "ethernet"[3..][0] == 'e'; }
    MismatchAt("ethernet", "lo", 0);
    MismatchAt("ethernet", "ipsec", 0);
    MismatchAt("ethernet", "tun", 0);
    MismatchAt("ethernet", "utun", 0);
    MismatchAt("ethernet", "tap", 0);
    MismatchAt("wlan0", "lo", 0);
    MismatchAt("wlan0", "eth", 0);
    MismatchAt("wlan0", "ipsec", 0);
    MismatchAt("wlan0", "tun", 0);
    MismatchAt("wlan0", "utun", 0);
    MismatchAt("wlan0", "tap", 0);
  }

  predicate StartsWith(s: string, p: string) {
    |p| <= |s| && s[..|p|] == p
  }

  /** `is_ignored_network`: the name is on the ignore list, or names a
      VMware or VirtualBox interface, or the prefix is an IPv4 address
      below 1.0.0.0 (first byte zero). */
  function IsIgnoredNetwork(ignoreList: seq<string>, n: Network): (r: bool)
    ensures r <==> n.name in ignoreList ||
                   StartsWith(n.name, "vmnet") || StartsWith(n.name, "vnic") || StartsWith(n.name, "vboxnet") ||
                   (n.prefix.V4? && n.prefix.b4[0] == 0)
  {
    if n.name in ignoreList then true
    else if StartsWith(n.name, "vmnet") || StartsWith(n.name, "vnic") || StartsWith(n.name, "vboxnet") then true
    else if n.prefix.V4? then
      IpAddress.GetBE4(n.prefix.b4);
      IpAddress.HostOrderInteger(n.prefix) < 0x0100_0000
    else false
  }

  // ---------------------------------------------------------------------
  // The best address of a network

  /** `InterfaceAddress()`: no address, no flags. */
  const NO_ADDRESS := IpAddress.InterfaceAddress(IpAddress.Unspec, 0)

  /** An address `get_best_IP` may select: not deprecated and not a ULA. */
  predicate IsGlobalCandidate(a: InterfaceAddress) {
    !IsDeprecated(a) && !IpAddress.IsUla(a.ip)
  }

  /** A ULA kept in reserve: not deprecated. */
  predicate IsUsableUla(a: InterfaceAddress) {
    !IsDeprecated(a) && IpAddress.IsUla(a.ip)
  }

  /** A candidate that ends the search: temporary. */
  predicate StopsSearch(a: InterfaceAddress) {
    IsGlobalCandidate(a) && IsTemporary(a)
  }

  /** The loop of `get_best_IP` over the remaining addresses, from the
      selected and reserve ULA addresses found so far. */
  function ScanV6(ips: seq<InterfaceAddress>, selected: InterfaceAddress, ula: InterfaceAddress)
    : (r: (InterfaceAddress, InterfaceAddress))
    decreases |ips|
  {
    if |ips| == 0 then (selected, ula)
    else if IsDeprecated(ips[0]) then ScanV6(ips[1..], selected, ula)
    else if IpAddress.IsUla(ips[0].ip) then ScanV6(ips[1..], selected, ips[0])
    else if IsTemporary(ips[0]) then (ips[0], ula)
    else ScanV6(ips[1..], ips[0], ula)
  }

  /** `get_best_IP`: nothing without addresses; the first address on an
      IPv4 network; otherwise the result of the search, or the reserve ULA
      when the search selected no address. */
  function GetBestIP(n: Network): (r: IPAddress)
    ensures |n.ips| == 0 ==> r.Unspec?
    ensures |n.ips| > 0 && n.prefix.V4? ==> r == n.ips[0].ip
  {
    if |n.ips| == 0 then IpAddress.Unspec
    else if n.prefix.V4? then n.ips[0].ip
    else
      var (selected, ula) := ScanV6(n.ips, NO_ADDRESS, NO_ADDRESS);
      if selected.ip.Unspec? && !ula.ip.Unspec? then ula.ip else selected.ip
  }

  lemma {:induction false} ScanFirstStop(ips: seq<InterfaceAddress>, selected: InterfaceAddress,
                                         ula: InterfaceAddress, t: nat)
    requires t < |ips| && StopsSearch(ips[t])
    requires forall j :: 0 <= j < t ==> !StopsSearch(ips[j])
    ensures ScanV6(ips, selected, ula).0 == ips[t]
    decreases |ips|
  {
    if t > 0 {
      assert !StopsSearch(ips[0]);
      var sel := if IsDeprecated(ips[0]) || IpAddress.IsUla(ips[0].ip) then selected else ips[0];
      var u := if !IsDeprecated(ips[0]) && IpAddress.IsUla(ips[0].ip) then ips[0] else ula;
      assert ScanV6(ips, selected, ula) == ScanV6(ips[1..], sel, u);
      ScanFirstStop(ips[1..], sel, u, t - 1);
    }
  }

  lemma {:induction false} ScanLastCandidate(ips: seq<InterfaceAddress>, selected: InterfaceAddress,
                                             ula: InterfaceAddress, k: nat)
    requires forall j :: 0 <= j < |ips| ==> !StopsSearch(ips[j])
    requires k < |ips| && IsGlobalCandidate(ips[k])
    requires forall j :: k < j < |ips| ==> !IsGlobalCandidate(ips[j])
    ensures ScanV6(ips, selected, ula).0 == ips[k]
    decreases |ips|
  {
    var sel := if IsDeprecated(ips[0]) || IpAddress.IsUla(ips[0].ip) then selected else ips[0];
    var u := if !IsDeprecated(ips[0]) && IpAddress.IsUla(ips[0].ip) then ips[0] else ula;
    assert !StopsSearch(ips[0]);
    assert ScanV6(ips, selected, ula) == ScanV6(ips[1..], sel, u);
    if k > 0 {
      ScanLastCandidate(ips[1..], sel, u, k - 1);
    } else {
      ScanNoCandidate(ips[1..], sel, u);
    }
  }

  lemma {:induction false} ScanNoCandidate(ips: seq<InterfaceAddress>, selected: InterfaceAddress,
                                           ula: InterfaceAddress)
    requires forall j :: 0 <= j < |ips| ==> !IsGlobalCandidate(ips[j])
    ensures ScanV6(ips, selected, ula).0 == selected
    ensures (forall j :: 0 <= j < |ips| ==> !IsUsableUla(ips[j])) ==> ScanV6(ips, selected, ula).1 == ula
    decreases |ips|
  {
    if |ips| > 0 {
      var u := if !IsDeprecated(ips[0]) && IpAddress.IsUla(ips[0].ip) then ips[0] else ula;
      assert !IsGlobalCandidate(ips[0]);
      assert ScanV6(ips, selected, ula) == ScanV6(ips[1..], selected, u);
      ScanNoCandidate(ips[1..], selected, u);
    }
  }

  lemma {:induction false} ScanLastUla(ips: seq<InterfaceAddress>, selected: InterfaceAddress,
                                       ula: InterfaceAddress, u: nat)
    requires forall j :: 0 <= j < |ips| ==> !StopsSearch(ips[j])
    requires u < |ips| && IsUsableUla(ips[u])
    requires forall j :: u < j < |ips| ==> !IsUsableUla(ips[j])
    ensures ScanV6(ips, selected, ula).1 == ips[u]
    decreases |ips|
  {
    var sel := if IsDeprecated(ips[0]) || IpAddress.IsUla(ips[0].ip) then selected else ips[0];
    var w := if !IsDeprecated(ips[0]) && IpAddress.IsUla(ips[0].ip) then ips[0] else ula;
    assert !StopsSearch(ips[0]);
    assert ScanV6(ips, selected, ula) == ScanV6(ips[1..], sel, w);
    if u > 0 {
      ScanLastUla(ips[1..], sel, w, u - 1);
    } else {
      ScanKeepsUla(ips[1..], sel, w);
    }
  }

  lemma {:induction false} ScanKeepsUla(ips: seq<InterfaceAddress>, selected: InterfaceAddress,
                                        ula: InterfaceAddress)
    requires forall j :: 0 <= j < |ips| ==> !StopsSearch(ips[j]) && !IsUsableUla(ips[j])
    ensures ScanV6(ips, selected, ula).1 == ula
    decreases |ips|
  {
    if |ips| > 0 {
      var sel := if IsDeprecated(ips[0]) || IpAddress.IsUla(ips[0].ip) then selected else ips[0];
      assert !StopsSearch(ips[0]) && !IsUsableUla(ips[0]);
      assert ScanV6(ips, selected, ula) == ScanV6(ips[1..], sel, ula);
      ScanKeepsUla(ips[1..], sel, ula);
    }
  }

  /** On an IPv6 network, the first temporary address that is neither
      deprecated nor a ULA wins. */
  lemma BestIPFirstTemporary(n: Network, t: nat)
    requires !n.prefix.V4? && t < |n.ips| && StopsSearch(n.ips[t]) && !n.ips[t].ip.Unspec?
    requires forall j :: 0 <= j < t ==> !StopsSearch(n.ips[j])
    ensures GetBestIP(n) == n.ips[t].ip
  {
    ScanFirstStop(n.ips, NO_ADDRESS, NO_ADDRESS, t);
  }

  /** Without a temporary one, the last address that is neither
      deprecated nor a ULA wins. */
  lemma BestIPLastGlobal(n: Network, k: nat)
    requires !n.prefix.V4? && (forall j :: 0 <= j < |n.ips| ==> !StopsSearch(n.ips[j]))
    requires k < |n.ips| && IsGlobalCandidate(n.ips[k]) && !n.ips[k].ip.Unspec?
    requires forall j :: k < j < |n.ips| ==> !IsGlobalCandidate(n.ips[j])
    ensures GetBestIP(n) == n.ips[k].ip
  {
    ScanLastCandidate(n.ips, NO_ADDRESS, NO_ADDRESS, k);
  }

  /** With nothing but ULAs and deprecated addresses, the last ULA that
      is not deprecated is used. */
  lemma BestIPUlaFallback(n: Network, u: nat)
    requires !n.prefix.V4? && (forall j :: 0 <= j < |n.ips| ==> !IsGlobalCandidate(n.ips[j]))
    requires u < |n.ips| && IsUsableUla(n.ips[u])
    requires forall j :: u < j < |n.ips| ==> !IsUsableUla(n.ips[j])
    ensures GetBestIP(n) == n.ips[u].ip
  {
    ScanNoCandidate(n.ips, NO_ADDRESS, NO_ADDRESS);
    ScanLastUla(n.ips, NO_ADDRESS, NO_ADDRESS, u);
    IpAddress.BitTestRanges(n.ips[u].ip);
  }

  /** With every address deprecated, there is no best address. */
  lemma BestIPAllDeprecated(n: Network)
    requires !n.prefix.V4? && forall j :: 0 <= j < |n.ips| ==> IsDeprecated(n.ips[j])
    ensures GetBestIP(n).Unspec?
  {
    ScanNoCandidate(n.ips, NO_ADDRESS, NO_ADDRESS);
  }

  /** Adding an address to an IPv4 network that already has one does not
      change its best address. */
  lemma AddIPKeepsV4Best(n: Network, ip: InterfaceAddress)
    requires n.prefix.V4? && |n.ips| > 0
    ensures GetBestIP(AddIP(n, ip)) == GetBestIP(n)
  {
  }

  // ---------------------------------------------------------------------
  // Comparisons

  /** `compare_networks`, the order of the merge's first sort: by prefix
      when the prefix length and the name agree, otherwise by name. */
  predicate CompareNetworks(a: Network, b: Network) {
    if a.prefixLength == b.prefixLength && a.name == b.name then IpAddress.Less(a.prefix, b.prefix)
    else SocketAddress.StringLess(a.name, b.name)
  }

  /** `compare_networks` is not a strict weak order: two networks of the
      same name and different prefix lengths are unordered, yet a third of
      the same name is ordered against one of them and not the other. */
  lemma CompareNetworksIncomparabilityNotTransitive(a: Network, b: Network, c: Network)
    requires a.name == b.name == c.name
    requires a.prefixLength == c.prefixLength != b.prefixLength
    requires a.prefix == IpAddress.V4([1, 0, 0, 0]) && c.prefix == IpAddress.V4([0, 0, 0, 0])
    ensures !CompareNetworks(a, b) && !CompareNetworks(b, a)
    ensures !CompareNetworks(b, c) && !CompareNetworks(c, b)
    ensures CompareNetworks(c, a)
  {
    SocketAddress.StringLessIsStrictTotalOrder(a.name, a.name, a.name);
    IpAddress.GetBE4(c.prefix.b4);
    IpAddress.GetBE4(a.prefix.b4);
  }

  /** `sort_networks`: by type value ascending, then by the precedence of
      the best address descending, then by key descending. */
  predicate SortBefore(a: Network, b: Network) {
    if a.adapterType != b.adapterType then TypeValue(a.adapterType) < TypeValue(b.adapterType)
    else if IpAddress.Precedence(GetBestIP(a)) != IpAddress.Precedence(GetBestIP(b)) then
      IpAddress.Precedence(GetBestIP(a)) > IpAddress.Precedence(GetBestIP(b))
    else SocketAddress.StringLess(b.key, a.key)
  }

  /** The network order is a strict order, total on networks with
      different keys. */
  lemma SortBeforeIsStrictTotalOrder(a: Network, b: Network, c: Network)
    ensures !SortBefore(a, a)
    ensures SortBefore(a, b) && SortBefore(b, c) ==> SortBefore(a, c)
    ensures a.key != b.key ==> SortBefore(a, b) || SortBefore(b, a)
  {
    SocketAddress.StringLessIsStrictTotalOrder(a.key, a.key, a.key);
    SocketAddress.StringLessIsStrictTotalOrder(c.key, b.key, a.key);
    SocketAddress.StringLessIsStrictTotalOrder(a.key, b.key, b.key);
    assert a.adapterType != b.adapterType ==> TypeValue(a.adapterType) != TypeValue(b.adapterType);
  }

  // ---------------------------------------------------------------------
  // The manager

  /** `k_max_IPv6_networks` and `k_highest_network_preference`. */
  const MAX_IPV6_NETWORKS := 5
  const HIGHEST_PREFERENCE := 127

  /** `NetworkManagerBase`: the current list (as keys), every network ever
      seen (by key), the next id to hand out, the IPv6 limit and whether
      IPv6 is enabled. */
  datatype Manager = Manager(networks: seq<string>, networksMap: map<string, Network>,
                             nextId: u16, maxIPv6Networks: int, ipv6Enabled: bool)

  predicate Distinct(s: seq<string>) {
    forall i, j :: 0 <= i < j < |s| ==> s[i] != s[j]
  }

  /** Every network is filed under its own key. */
  predicate FiledByKey(known: map<string, Network>) {
    forall k :: k in known ==> known[k].key == k
  }

  /** The list names networks of the map, each once. */
  predicate Valid(m: Manager) {
    (forall k :: k in m.networks ==> k in m.networksMap) && Distinct(m.networks) && FiledByKey(m.networksMap)
  }

  /** The constructor: no networks, ids from 1, at most five IPv6
      networks, IPv6 enabled. */
  function NewManager(): (m: Manager)
    ensures Valid(m) && ActiveIffListed(m) && m.networks == [] && m.networksMap == map[]
    ensures m.nextId == 1 && m.maxIPv6Networks == MAX_IPV6_NETWORKS && m.ipv6Enabled
  {
    Manager([], map[], 1, MAX_IPV6_NETWORKS, true)
  }

  /** The networks of the current list, in order. */
  function NetworkList(m: Manager): (s: seq<Network>)
    requires Valid(m)
    ensures |s| == |m.networks|
    ensures forall i :: 0 <= i < |s| ==> s[i] == m.networksMap[m.networks[i]]
  {
    seq(|m.networks|, i requires 0 <= i < |m.networks| => m.networksMap[m.networks[i]])
  }

  /** The networks of one family of prefix (IPv6 or not), in order. */
  function Filter(s: seq<Network>, ipv6: bool): (r: seq<Network>)
    ensures |r| <= |s|
    decreases |s|
  {
    if |s| == 0 then []
    else Filter(s[..|s| - 1], ipv6) + (if s[|s| - 1].prefix.V6? == ipv6 then [s[|s| - 1]] else [])
  }

  /** `get_networks` keeps the i-th network unless it is an IPv6 one with
      the limit already reached by those before it. */
  predicate KeptAt(s: seq<Network>, i: nat, max: int)
    requires i < |s|
  {
    !s[i].prefix.V6? || |Filter(s[..i], true)| < max
  }

  /** The networks kept, in order. */
  function Kept(s: seq<Network>, max: int): seq<Network>
    decreases |s|
  {
    if |s| == 0 then []
    else Kept(s[..|s| - 1], max) + (if KeptAt(s, |s| - 1, max) then [s[|s| - 1]] else [])
  }

  /** The number of IPv6 networks kept out of c when the limit is max. */
  function Clamp(c: nat, max: int): nat {
    if c <= max then c else if max < 0 then 0 else max
  }

  /** `get_networks`: the loop of the source, counting the IPv6 networks
      it has kept. */
  method GetNetworks(m: Manager) returns (r: seq<Network>)
    requires Valid(m)
    ensures r == Kept(NetworkList(m), m.maxIPv6Networks)
  {
    var list := NetworkList(m);
    var max := m.maxIPv6Networks;
    var ipv6Networks := 0;
    r := [];
    for i := 0 to |list|
      invariant r == Kept(list[..i], max)
      invariant ipv6Networks == Clamp(|Filter(list[..i], true)|, max)
    {
      assert list[..i + 1][..i] == list[..i];
      var network := list[i];
      if network.prefix.V6? {
        if ipv6Networks >= max {
          continue;
        }
        ipv6Networks := ipv6Networks + 1;
      }
      r := r + [network];
    }
    assert list[..|list|] == list;
  }

  /** Filtering a list extended by one network. */
  lemma FilterSnoc(s: seq<Network>, x: Network, ipv6: bool)
    ensures Filter(s + [x], ipv6) == Filter(s, ipv6) + (if x.prefix.V6? == ipv6 then [x] else [])
  {
    assert (s + [x])[..|s|] == s;
  }

  /** Keeping from a list extended by one network. */
  lemma KeptSnoc(p: seq<Network>, x: Network, max: int)
    ensures Kept(p + [x], max) == Kept(p, max) + (if x.prefix.V6? && |Filter(p, true)| >= max then [] else [x])
  {
    assert (p + [x])[..|p|] == p;
  }

  /** `get_networks` drops no network other than IPv6 ones. */
  lemma {:induction false} KeptOthers(s: seq<Network>, max: int)
    ensures Filter(Kept(s, max), false) == Filter(s, false)
    decreases |s|
  {
    if |s| > 0 {
      var p := s[..|s| - 1];
      var x := s[|s| - 1];
      assert s == p + [x];
      hide Kept, Filter;
      KeptOthers(p, max);
      KeptSnoc(p, x, max);
      FilterSnoc(p, x, false);
      FilterSnoc(Kept(p, max), x, false);
      if x.prefix.V6? {
        assert Filter(p, false) + [] == Filter(p, false);
        if |Filter(p, true)| >= max {
          assert Kept(p, max) + [] == Kept(p, max);
        } else {
          assert Filter(Kept(p, max), false) + [] == Filter(Kept(p, max), false);
        }
      }
    }
  }

  /** `get_networks` keeps the first max IPv6 networks, in order. */
  lemma {:induction false} KeptIPv6(s: seq<Network>, max: int)
    ensures Filter(Kept(s, max), true) == Filter(s, true)[..Clamp(|Filter(s, true)|, max)]
    decreases |s|
  {
    if |s| > 0 {
      var p := s[..|s| - 1];
      var x := s[|s| - 1];
      assert s == p + [x];
      hide Kept, Filter;
      var f := Filter(p, true);
      KeptIPv6(p, max);
      KeptSnoc(p, x, max);
      FilterSnoc(p, x, true);
      FilterSnoc(Kept(p, max), x, true);
      TakeSnoc(f, x, max);
      if x.prefix.V6? && |f| >= max {
        assert Kept(p, max) + [] == Kept(p, max);
      } else if !x.prefix.V6? {
        assert Filter(Kept(p, max), true) + [] == Filter(Kept(p, max), true);
        assert f + [] == f;
      }
    }
  }

  /** The first Clamp(|f|, max) elements of a list extended by one. */
  lemma TakeSnoc(f: seq<Network>, x: Network, max: int)
    ensures |f| < max ==> (f + [x])[..Clamp(|f| + 1, max)] == f[..Clamp(|f|, max)] + [x]
    ensures |f| >= max ==> (f + [x])[..Clamp(|f| + 1, max)] == f[..Clamp(|f|, max)]
  {
    if |f| < max {
      assert f[..Clamp(|f|, max)] == f;
    }
  }

  // ---------------------------------------------------------------------
  // Merging a new enumeration: gathering addresses by key

  /** One key's entry of the merge's first map: the first network seen
      with the key and the addresses of every network with it, in order. */
  datatype AddressList = AddressList(net: Network, ips: seq<InterfaceAddress>)

  /** `NetworkManager::Stats`. */
  datatype Stats = Stats(ipv4NetworkCount: nat, ipv6NetworkCount: nat)

  /** Entries in ascending key order, as a `std::map` iterates them. */
  predicate Ascending(e: seq<AddressList>) {
    forall i, j :: 0 <= i < j < |e| ==> SocketAddress.StringLess(e[i].net.key, e[j].net.key)
  }

  /** The entry filed under key k, if any. */
  function Lookup(e: seq<AddressList>, k: string): (r: Option<AddressList>)
    ensures r.Some? ==> r.value in e && r.value.net.key == k
    ensures r.None? <==> forall i :: 0 <= i < |e| ==> e[i].net.key != k
  {
    if |e| == 0 then None else if e[0].net.key == k then Some(e[0]) else Lookup(e[1..], k)
  }

  /** What key n's entry becomes: the addresses of n appended to it, or a
      new entry holding n and its addresses. */
  function Joined(found: Option<AddressList>, n: Network): AddressList {
    match found
    case None => AddressList(n, n.ips)
    case Some(b) => AddressList(b.net, b.ips + n.ips)
  }

  /** Every key of e is above x. */
  predicate Below(x: string, e: seq<AddressList>) {
    forall i :: 0 <= i < |e| ==> SocketAddress.StringLess(x, e[i].net.key)
  }

  lemma BelowAscending(x: string, e: seq<AddressList>)
    requires Ascending(e) && |e| > 0 && SocketAddress.StringLess(x, e[0].net.key)
    ensures Below(x, e)
  {
    forall i | 0 < i < |e| ensures SocketAddress.StringLess(x, e[i].net.key) {
      SocketAddress.StringLessIsStrictTotalOrder(x, e[0].net.key, e[i].net.key);
    }
  }

  lemma BelowLookup(x: string, e: seq<AddressList>)
    requires Below(x, e)
    ensures Lookup(e, x).None?
  {
  }

  /** One network of the sorted list joins the entries: its addresses are
      appended to its key's entry, or a new entry is made for it in key
      order. */
  function Gather(e: seq<AddressList>, n: Network): (r: seq<AddressList>)
    requires Ascending(e)
    ensures Ascending(r)
    ensures forall k :: Lookup(r, k) == if k == n.key then Some(Joined(Lookup(e, k), n)) else Lookup(e, k)
    ensures |r| == |e| + (if Lookup(e, n.key).None? then 1 else 0)
    decreases |e|
  {
    if |e| == 0 then [AddressList(n, n.ips)]
    else if e[0].net.key == n.key then
      [AddressList(e[0].net, e[0].ips + n.ips)] + e[1..]
    else if SocketAddress.StringLess(n.key, e[0].net.key) then
      BelowAscending(n.key, e);
      BelowLookup(n.key, e);
      [AddressList(n, n.ips)] + e
    else
      SocketAddress.StringLessIsStrictTotalOrder(n.key, e[0].net.key, n.key);
      var rest := Gather(e[1..], n);
      GatherAbove(e, n, rest);
      [e[0]] + rest
  }

  /** The entries after the first stay above it when n joins them. */
  lemma GatherAbove(e: seq<AddressList>, n: Network, rest: seq<AddressList>)
    requires Ascending(e) && |e| > 0 && SocketAddress.StringLess(e[0].net.key, n.key)
    requires forall k :: Lookup(rest, k) == if k == n.key then Some(Joined(Lookup(e[1..], k), n)) else Lookup(e[1..], k)
    ensures Below(e[0].net.key, rest)
  {
    forall i | 0 <= i < |rest| ensures SocketAddress.StringLess(e[0].net.key, rest[i].net.key) {
      var k := rest[i].net.key;
      if k != n.key {
        var b := Lookup(e[1..], k).value;
        var j :| 0 <= j < |e[1..]| && e[1..][j] == b;
        assert e[j + 1] == b;
      }
    }
  }

  /** Entries hold addresses; the first address of each decides the
      statistics. */
  predicate HaveAddresses(e: seq<AddressList>) {
    forall i :: 0 <= i < |e| ==> |e[i].ips| > 0
  }

  /** The number of entries whose first address is IPv6 (or IPv4). */
  function FamilyCount(e: seq<AddressList>, ipv6: bool): nat {
    if |e| == 0 then 0 else (if CountsFor(e[0], ipv6) then 1 else 0) + FamilyCount(e[1..], ipv6)
  }

  /** The statistics of a set of entries: one count per key. */
  function CountFamilies(e: seq<AddressList>): Stats {
    Stats(FamilyCount(e, false), FamilyCount(e, true))
  }

  /** The count a new key adds to the statistics. */
  function CountNew(st: Stats, first: InterfaceAddress): Stats {
    if first.ip.V4? then st.(ipv4NetworkCount := st.ipv4NetworkCount + 1)
    else if first.ip.V6? then st.(ipv6NetworkCount := st.ipv6NetworkCount + 1)
    else st
  }

  /** Whether an entry counts for a family. */
  predicate CountsFor(a: AddressList, ipv6: bool) {
    |a.ips| > 0 && (if ipv6 then a.ips[0].ip.V6? else a.ips[0].ip.V4?)
  }

  lemma FamilyCountCons(x: AddressList, t: seq<AddressList>, ipv6: bool)
    ensures FamilyCount([x] + t, ipv6) == (if CountsFor(x, ipv6) then 1 else 0) + FamilyCount(t, ipv6)
  {
    assert ([x] + t)[1..] == t;
  }

  lemma LookupCons(x: AddressList, t: seq<AddressList>, k: string)
    ensures Lookup([x] + t, k) == if x.net.key == k then Some(x) else Lookup(t, k)
  {
    assert ([x] + t)[1..] == t;
  }

  /** The three ways a network joins non-empty entries. */
  lemma GatherCases(e: seq<AddressList>, n: Network)
    requires Ascending(e) && |e| > 0
    ensures e[0].net.key == n.key ==> Gather(e, n) == [AddressList(e[0].net, e[0].ips + n.ips)] + e[1..]
    ensures e[0].net.key != n.key && SocketAddress.StringLess(n.key, e[0].net.key) ==>
              Gather(e, n) == [AddressList(n, n.ips)] + e && Lookup(e, n.key).None?
    ensures e[0].net.key != n.key && !SocketAddress.StringLess(n.key, e[0].net.key) ==>
              Gather(e, n) == [e[0]] + Gather(e[1..], n) && Lookup(e, n.key) == Lookup(e[1..], n.key)
  {
    if e[0].net.key != n.key && SocketAddress.StringLess(n.key, e[0].net.key) {
      BelowAscending(n.key, e);
      BelowLookup(n.key, e);
    }
  }

  lemma {:induction false} GatherCounts(e: seq<AddressList>, n: Network, ipv6: bool)
    requires Ascending(e) && HaveAddresses(e) && (Lookup(e, n.key).None? ==> |n.ips| > 0)
    ensures HaveAddresses(Gather(e, n))
    ensures FamilyCount(Gather(e, n), ipv6) ==
            FamilyCount(e, ipv6) + (if Lookup(e, n.key).None? && CountsFor(AddressList(n, n.ips), ipv6) then 1 else 0)
    decreases |e|
  {
    if |e| == 0 {
      assert Gather(e, n) == [AddressList(n, n.ips)];
    } else {
      GatherCases(e, n);
      hide FamilyCount, Gather, Lookup;
      assert e == [e[0]] + e[1..];
      FamilyCountCons(e[0], e[1..], ipv6);
      if e[0].net.key == n.key {
        var j := AddressList(e[0].net, e[0].ips + n.ips);
        FamilyCountCons(j, e[1..], ipv6);
        LookupCons(e[0], e[1..], n.key);
        assert j.ips[0] == e[0].ips[0];
      } else if SocketAddress.StringLess(n.key, e[0].net.key) {
        FamilyCountCons(AddressList(n, n.ips), e, ipv6);
      } else {
        GatherCounts(e[1..], n, ipv6);
        FamilyCountCons(e[0], Gather(e[1..], n), ipv6);
      }
    }
  }

  /** No network before the i-th has its key. */
  predicate FirstOfKey(list: seq<Network>, i: nat)
    requires i < |list|
  {
    forall j :: 0 <= j < i ==> list[j].key != list[i].key
  }

  /** The first network with each key has an address: the source reads
      the first address of every new key. */
  predicate FirstsHaveAddresses(list: seq<Network>) {
    forall i :: 0 <= i < |list| && FirstOfKey(list, i) ==> |list[i].ips| > 0
  }

  function NetworkKeys(s: seq<Network>): set<string> {
    set n | n in s :: n.key
  }

  lemma NetworkKeysSnoc(p: seq<Network>, x: Network)
    ensures NetworkKeys(p + [x]) == NetworkKeys(p) + {x.key}
  {
    assert forall n :: n in p + [x] <==> n in p || n == x;
  }

  /** The merge's first map and the statistics it counts. */
  datatype Gathered = Gathered(entries: seq<AddressList>, stats: Stats)

  /** The first loop of `merge_network_list`, over the networks in the
      order the sort left them: one entry per key, in key order; the
      statistics count each key once, by the family of its first
      address. */
  function Consolidate(list: seq<Network>): (r: Gathered)
    requires FirstsHaveAddresses(list)
    ensures GatheredFrom(list, r)
    decreases |list|
  {
    if |list| == 0 then Gathered([], Stats(0, 0))
    else
      var p := list[..|list| - 1];
      var n := list[|list| - 1];
      FirstsOfPrefix(list);
      var g := Consolidate(p);
      ConsolidateStep(list, g)
  }

  /** What the first loop has built from the networks of list. */
  ghost predicate GatheredFrom(list: seq<Network>, r: Gathered) {
    Ascending(r.entries) && HaveAddresses(r.entries) &&
    (forall k :: Lookup(r.entries, k).Some? <==> k in NetworkKeys(list)) &&
    |r.entries| == |NetworkKeys(list)| &&
    r.stats == CountFamilies(r.entries)
  }

  lemma FirstsOfPrefix(list: seq<Network>)
    requires |list| > 0 && FirstsHaveAddresses(list)
    ensures FirstsHaveAddresses(list[..|list| - 1])
  {
    var p := list[..|list| - 1];
    forall i | 0 <= i < |p| && FirstOfKey(p, i) ensures |p[i].ips| > 0 {
      assert FirstOfKey(list, i);
    }
  }

  /** One step of the first loop: the last network joins what the others
      built. */
  function ConsolidateStep(list: seq<Network>, g: Gathered): (r: Gathered)
    requires |list| > 0 && FirstsHaveAddresses(list)
    requires GatheredFrom(list[..|list| - 1], g)
    ensures GatheredFrom(list, r)
  {
    var p := list[..|list| - 1];
    var n := list[|list| - 1];
    var isNew := Lookup(g.entries, n.key).None?;
    NewKeyHasAddresses(list, g);
    GatherCounts(g.entries, n, false);
    GatherCounts(g.entries, n, true);
    var st := if isNew then CountNew(g.stats, n.ips[0]) else g.stats;
    var e := Gather(g.entries, n);
    StepGathered(list, g, e, st);
    Gathered(e, st)
  }

  lemma StepGathered(list: seq<Network>, g: Gathered, e: seq<AddressList>, st: Stats)
    requires |list| > 0 && GatheredFrom(list[..|list| - 1], g)
    requires e == Gather(g.entries, list[|list| - 1]) && HaveAddresses(e)
    requires st.ipv4NetworkCount == FamilyCount(e, false) && st.ipv6NetworkCount == FamilyCount(e, true)
    ensures GatheredFrom(list, Gathered(e, st))
  {
    var p := list[..|list| - 1];
    var n := list[|list| - 1];
    assert list == p + [n];
    NetworkKeysSnoc(p, n);
    assert NetworkKeys(list) == NetworkKeys(p) + {n.key};
    StepKeys(g.entries, n, e, NetworkKeys(p));
    assert forall k :: Lookup(e, k).Some? <==> k in NetworkKeys(list);
    StepCard(NetworkKeys(p), n.key, |g.entries|);
    assert |e| == |NetworkKeys(list)|;
  }

  lemma NewKeyHasAddresses(list: seq<Network>, g: Gathered)
    requires |list| > 0 && FirstsHaveAddresses(list)
    requires GatheredFrom(list[..|list| - 1], g)
    ensures Lookup(g.entries, list[|list| - 1].key).None? ==> |list[|list| - 1].ips| > 0
  {
    var p := list[..|list| - 1];
    var n := list[|list| - 1];
    if Lookup(g.entries, n.key).None? {
      assert forall j :: 0 <= j < |p| ==> p[j].key in NetworkKeys(p);
      assert FirstOfKey(list, |list| - 1);
    }
  }

  lemma StepKeys(e: seq<AddressList>, n: Network, r: seq<AddressList>, keys: set<string>)
    requires forall k :: Lookup(r, k) == if k == n.key then Some(Joined(Lookup(e, k), n)) else Lookup(e, k)
    requires forall k :: Lookup(e, k).Some? <==> k in keys
    ensures forall k :: Lookup(r, k).Some? <==> k in keys + {n.key}
  {
  }

  lemma StepCard(keys: set<string>, x: string, m: nat)
    requires |keys| == m
    ensures |keys + {x}| == m + (if x in keys then 0 else 1)
  {
    if x in keys {
      assert keys + {x} == keys;
    }
  }

  // ---------------------------------------------------------------------
  // Merging: reusing the networks already known

  /** The keys of the entries, in order. */
  function EntryKeys(e: seq<AddressList>): (r: seq<string>)
    ensures |r| == |e| && forall i :: 0 <= i < |e| ==> r[i] == e[i].net.key
  {
    seq(|e|, i requires 0 <= i < |e| => e[i].net.key)
  }

  lemma EntryKeysCons(e: seq<AddressList>)
    requires |e| > 0
    ensures EntryKeys(e) == [e[0].net.key] + EntryKeys(e[1..])
  {
  }

  /** No two entries share a key. */
  predicate KeysDistinct(e: seq<AddressList>) {
    forall i, j :: 0 <= i < j < |e| ==> e[i].net.key != e[j].net.key
  }

  lemma AscendingDistinct(e: seq<AddressList>)
    requires Ascending(e)
    ensures KeysDistinct(e)
  {
  }

  /** The type of the newly enumerated network replaces the known one's
      unless it is unknown. */
  predicate TypeChanges(known: Network, seen: Network) {
    seen.adapterType != Unknown && seen.adapterType != known.adapterType
  }

  /** A known network once its entry has been merged: it takes the
      entry's addresses, and the type of the entry's network when that
      changes; everything else, its id included, stays. */
  function Refreshed(known: Network, a: AddressList): Network {
    known.(ips := a.ips, adapterType := if TypeChanges(known, a.net) then a.net.adapterType else known.adapterType)
  }

  /** A network seen for the first time: the entry's network, with the
      entry's addresses and the id handed to it. */
  function Fresh(a: AddressList, id: u16): Network {
    a.net.(ips := a.ips, id := id)
  }

  /** An entry changes the networks when its key is new, or the known
      network's addresses or type differ, or the known network was
      inactive. */
  predicate EntryChanges(known: map<string, Network>, a: AddressList) {
    a.net.key !in known || IPsDiffer(known[a.net.key].ips, a.ips) ||
    TypeChanges(known[a.net.key], a.net) || !known[a.net.key].active
  }

  /** The number of entries whose key is not known. */
  function NewCount(known: map<string, Network>, e: seq<AddressList>): nat {
    if |e| == 0 then 0 else (if e[0].net.key in known then 0 else 1) + NewCount(known, e[1..])
  }

  /** The id k increments after id on the 16-bit counter
      `_next_available_network_id`. */
  function IdAfter(id: u16, k: nat): u16 {
    (id + k) % 0x1_0000
  }

  lemma IdAfterAdd(id: u16, a: nat, b: nat)
    ensures IdAfter(IdAfter(id, a), b) == IdAfter(id, a + b)
    ensures IdAfter(id, 0) == id
  {
  }

  /** The map, merged list, next id and change flag after the second
      loop. */
  datatype Reused = Reused(networksMap: map<string, Network>, merged: seq<string>, nextId: u16, changed: bool)

  /** The second loop of `merge_network_list`, over the entries in key
      order: a new key files its entry's network with the next id and the
      entry's addresses; a known key's network takes the addresses (and the
      type) and goes on the merged list in place of the entry's. */
  function Reuse(known: map<string, Network>, e: seq<AddressList>, nextId: u16, changed: bool): (r: Reused)
    ensures |r.merged| == |e|
    ensures changed ==> r.changed
    decreases |e|
  {
    if |e| == 0 then Reused(known, [], nextId, changed)
    else
      var a := e[0];
      var k := a.net.key;
      if k !in known then
        var added := SetIPs(a.net.(id := nextId), a.ips, true).0;
        var rest := Reuse(known[k := added], e[1..], IdAfter(nextId, 1), true);
        rest.(merged := [k] + rest.merged)
      else
        var existing := known[k];
        var reset := SetIPs(existing, a.ips, changed);
        var typed := if TypeChanges(existing, a.net) then SetType(reset.0, a.net.adapterType) else reset.0;
        var rest := Reuse(known[k := typed], e[1..], nextId,
                          reset.1 || TypeChanges(existing, a.net) || !existing.active);
        rest.(merged := [k] + rest.merged)
  }

  /** One step of the loop: the first entry's key is merged, then the
      others. */
  lemma ReuseFirst(known: map<string, Network>, e: seq<AddressList>, nextId: u16, changed: bool)
    requires |e| > 0
    ensures var k := e[0].net.key;
            var x := if k in known then Refreshed(known[k], e[0]) else Fresh(e[0], nextId);
            var c := changed || EntryChanges(known, e[0]);
            var rest := Reuse(known[k := x], e[1..], if k in known then nextId else IdAfter(nextId, 1), c);
            Reuse(known, e, nextId, changed) == rest.(merged := [k] + rest.merged)
  {
  }

  /** The merged list is the entries' keys in order. */
  lemma {:induction false} ReuseMerged(known: map<string, Network>, e: seq<AddressList>, nextId: u16, changed: bool)
    ensures Reuse(known, e, nextId, changed).merged == EntryKeys(e)
    decreases |e|
  {
    if |e| == 0 {
      assert EntryKeys(e) == [];
    } else {
      var k := e[0].net.key;
      var x := if k in known then Refreshed(known[k], e[0]) else Fresh(e[0], nextId);
      var c := changed || EntryChanges(known, e[0]);
      var id := if k in known then nextId else IdAfter(nextId, 1);
      ReuseFirst(known, e, nextId, changed);
      EntryKeysCons(e);
      hide *;
      ReuseMerged(known[k := x], e[1..], id, c);
    }
  }

  /** The map gains the entries' keys and keeps every network whose key no
      entry has. */
  lemma {:induction false} ReuseDomain(known: map<string, Network>, e: seq<AddressList>, nextId: u16, changed: bool)
    ensures var r := Reuse(known, e, nextId, changed);
            (forall k :: k in r.networksMap <==> k in known || k in EntryKeys(e)) &&
            (forall k :: k in known && k !in EntryKeys(e) ==> r.networksMap[k] == known[k])
    decreases |e|
  {
    if |e| > 0 {
      var k := e[0].net.key;
      var x := if k in known then Refreshed(known[k], e[0]) else Fresh(e[0], nextId);
      var c := changed || EntryChanges(known, e[0]);
      var id := if k in known then nextId else IdAfter(nextId, 1);
      ReuseFirst(known, e, nextId, changed);
      hide Reuse, Refreshed, Fresh, EntryChanges;
      ReuseDomain(known[k := x], e[1..], id, c);
      EntryKeysCons(e);
    }
  }

  /** Every network stays filed under its own key. */
  lemma {:induction false} ReuseFiled(known: map<string, Network>, e: seq<AddressList>, nextId: u16, changed: bool)
    requires FiledByKey(known)
    ensures FiledByKey(Reuse(known, e, nextId, changed).networksMap)
    decreases |e|
  {
    if |e| > 0 {
      var k := e[0].net.key;
      var x := if k in known then Refreshed(known[k], e[0]) else Fresh(e[0], nextId);
      var c := changed || EntryChanges(known, e[0]);
      var id := if k in known then nextId else IdAfter(nextId, 1);
      ReuseFirst(known, e, nextId, changed);
      hide Reuse, EntryChanges;
      ReuseFiled(known[k := x], e[1..], id, c);
    }
  }

  lemma {:induction false} NewCountOther(known: map<string, Network>, k: string, x: Network, e: seq<AddressList>)
    requires forall j :: 0 <= j < |e| ==> e[j].net.key != k
    ensures NewCount(known[k := x], e) == NewCount(known, e)
    decreases |e|
  {
    if |e| > 0 {
      NewCountOther(known, k, x, e[1..]);
    }
  }

  /** Each entry's key ends up with the known network refreshed by the
      entry, or, for a new key, with the entry's network and the id
      counted from the new keys before it. */
  lemma {:induction false} ReuseEntry(known: map<string, Network>, e: seq<AddressList>, nextId: u16, changed: bool, i: nat)
    requires KeysDistinct(e) && i < |e|
    ensures var k := e[i].net.key;
            var r := Reuse(known, e, nextId, changed);
            k in r.networksMap && r.networksMap[k] ==
              if k in known then Refreshed(known[k], e[i]) else Fresh(e[i], IdAfter(nextId, NewCount(known, e[..i])))
    decreases |e|
  {
    var k := e[0].net.key;
    var x := if k in known then Refreshed(known[k], e[0]) else Fresh(e[0], nextId);
    var c := changed || EntryChanges(known, e[0]);
    var id := if k in known then nextId else IdAfter(nextId, 1);
    ReuseFirst(known, e, nextId, changed);
    hide Reuse, Refreshed, Fresh, EntryChanges;
    if i == 0 {
      ReuseDomain(known[k := x], e[1..], id, c);
      assert k !in EntryKeys(e[1..]);
      assert NewCount(known, e[..0]) == 0 by {
        assert e[..0] == [];
      }
      IdAfterAdd(nextId, 0, 0);
    } else {
      ReuseEntry(known[k := x], e[1..], id, c, i - 1);
      ReuseEntryCount(known, e, nextId, k, x, i);
    }
  }

  lemma ReuseEntryCount(known: map<string, Network>, e: seq<AddressList>, nextId: u16, k: string, x: Network, i: nat)
    requires KeysDistinct(e) && 0 < i < |e| && k == e[0].net.key
    ensures IdAfter(if k in known then nextId else IdAfter(nextId, 1), NewCount(known[k := x], e[1..][..i - 1])) ==
            IdAfter(nextId, NewCount(known, e[..i]))
  {
    assert e[1..][..i - 1] == e[1..i];
    NewCountOther(known, k, x, e[1..i]);
    assert e[..i][1..] == e[1..i];
    IdAfterAdd(nextId, 1, NewCount(known, e[1..i]));
  }

  /** The loop reports a change exactly when some entry changes the
      networks (or a change was already reported). */
  lemma {:induction false} ReuseChanged(known: map<string, Network>, e: seq<AddressList>, nextId: u16, changed: bool)
    requires KeysDistinct(e)
    ensures Reuse(known, e, nextId, changed).changed <==>
            changed || exists i :: 0 <= i < |e| && EntryChanges(known, e[i])
    decreases |e|
  {
    if |e| > 0 {
      var k := e[0].net.key;
      var x := if k in known then Refreshed(known[k], e[0]) else Fresh(e[0], nextId);
      var c := changed || EntryChanges(known, e[0]);
      var id := if k in known then nextId else IdAfter(nextId, 1);
      ReuseFirst(known, e, nextId, changed);
      hide Reuse, Refreshed, Fresh;
      ReuseChanged(known[k := x], e[1..], id, c);
      assert forall j :: 0 <= j < |e[1..]| ==> (EntryChanges(known[k := x], e[1..][j]) <==> EntryChanges(known, e[j + 1]));
      if exists i :: 0 <= i < |e| && EntryChanges(known, e[i]) {
        var i :| 0 <= i < |e| && EntryChanges(known, e[i]);
        if i > 0 {
          assert EntryChanges(known[k := x], e[1..][i - 1]);
        }
      }
    }
  }

  /** The next id has advanced once per new key, wrapping at 65536. */
  lemma {:induction false} ReuseNextId(known: map<string, Network>, e: seq<AddressList>, nextId: u16, changed: bool)
    requires KeysDistinct(e)
    ensures Reuse(known, e, nextId, changed).nextId == IdAfter(nextId, NewCount(known, e))
    decreases |e|
  {
    if |e| > 0 {
      var k := e[0].net.key;
      var x := if k in known then Refreshed(known[k], e[0]) else Fresh(e[0], nextId);
      var c := changed || EntryChanges(known, e[0]);
      var id := if k in known then nextId else IdAfter(nextId, 1);
      ReuseFirst(known, e, nextId, changed);
      hide Reuse, Refreshed, Fresh, EntryChanges;
      ReuseNextId(known[k := x], e[1..], id, c);
      NewCountOther(known, k, x, e[1..]);
      IdAfterAdd(nextId, 1, NewCount(known, e[1..]));
      IdAfterAdd(nextId, 0, NewCount(known, e[1..]));
    }
  }

  // ---------------------------------------------------------------------
  // Merging: activity, order and preference

  /** The loop resetting activity: a network is active exactly when the
      merged list holds its key. */
  function MarkActive(known: map<string, Network>, listed: seq<string>): (r: map<string, Network>)
    ensures forall k :: k in r <==> k in known
    ensures forall k :: k in r ==> (r[k].active <==> k in listed) && r[k].(active := known[k].active) == known[k]
  {
    map k | k in known :: SetActive(known[k], k in listed)
  }

  /** A list in the order of `sort_networks`. */
  predicate SortedBy(s: seq<Network>) {
    forall i, j :: 0 <= i < j < |s| ==> SortBefore(s[i], s[j])
  }

  /** No two networks of the list share a key. */
  predicate NetKeysDistinct(s: seq<Network>) {
    forall i, j :: 0 <= i < j < |s| ==> s[i].key != s[j].key
  }

  /** One step of the insertion sort: x goes before the first network it
      precedes. */
  function Insert(x: Network, s: seq<Network>): (r: seq<Network>)
    ensures multiset(r) == multiset(s) + multiset{x}
    decreases |s|
  {
    if |s| == 0 then [x]
    else if SortBefore(x, s[0]) then [x] + s
    else
      assert s == [s[0]] + s[1..];
      [s[0]] + Insert(x, s[1..])
  }

  /** `std::sort(..., sort_networks)`, as an insertion sort. */
  function SortNetworks(s: seq<Network>): (r: seq<Network>)
    ensures multiset(r) == multiset(s)
    decreases |s|
  {
    if |s| == 0 then []
    else
      assert s == [s[0]] + s[1..];
      Insert(s[0], SortNetworks(s[1..]))
  }

  /** The elements of a list after its first are the others. */
  lemma MultisetTail(s: seq<Network>)
    requires |s| > 0
    ensures multiset(s[1..]) == multiset(s) - multiset{s[0]}
    ensures forall y :: y in s[1..] ==> y in s
  {
    assert s == [s[0]] + s[1..];
  }

  /** Putting y before a sorted list of networks it precedes keeps it
      sorted. */
  lemma SortedCons(y: Network, rest: seq<Network>)
    requires SortedBy(rest)
    requires forall z :: z in multiset(rest) ==> SortBefore(y, z)
    ensures SortedBy([y] + rest)
  {
    forall j | 0 <= j < |rest| ensures SortBefore(y, rest[j]) {
      assert rest[j] in multiset(rest);
    }
  }

  /** Inserting into a sorted list keeps it sorted, when x's key is not
      already there. */
  lemma {:induction false} InsertSorted(x: Network, s: seq<Network>)
    requires SortedBy(s) && forall i :: 0 <= i < |s| ==> s[i].key != x.key
    ensures SortedBy(Insert(x, s))
    decreases |s|
  {
    if |s| > 0 {
      MultisetTail(s);
      if SortBefore(x, s[0]) {
        forall z | z in multiset(s) ensures SortBefore(x, z) {
          var j :| 0 <= j < |s| && s[j] == z;
          SortBeforeIsStrictTotalOrder(x, s[0], s[j]);
        }
        SortedCons(x, s);
      } else {
        SortBeforeIsStrictTotalOrder(x, s[0], x);
        InsertSorted(x, s[1..]);
        forall z | z in multiset(Insert(x, s[1..])) ensures SortBefore(s[0], z) {
          if z != x {
            var j :| 0 <= j < |s[1..]| && s[1..][j] == z;
            assert s[j + 1] == z;
          }
        }
        SortedCons(s[0], Insert(x, s[1..]));
      }
    }
  }

  /** Every key of the list is other than k. */
  predicate KeyAbsent(k: string, s: seq<Network>) {
    forall i :: 0 <= i < |s| ==> s[i].key != k
  }

  lemma KeyAbsentMultiset(k: string, s: seq<Network>)
    ensures KeyAbsent(k, s) <==> forall z :: z in multiset(s) ==> z.key != k
  {
    if KeyAbsent(k, s) {
      forall z | z in multiset(s) ensures z.key != k {
        var j :| 0 <= j < |s| && s[j] == z;
      }
    }
  }

  /** Inserting x, whose key is not there, keeps the keys distinct. */
  lemma {:induction false} InsertKeys(x: Network, s: seq<Network>)
    requires NetKeysDistinct(s) && KeyAbsent(x.key, s)
    ensures NetKeysDistinct(Insert(x, s))
    decreases |s|
  {
    if |s| > 0 && !SortBefore(x, s[0]) {
      MultisetTail(s);
      InsertKeys(x, s[1..]);
      var rest := Insert(x, s[1..]);
      KeyAbsentMultiset(s[0].key, s[1..]);
      KeyAbsentMultiset(s[0].key, rest);
      assert Insert(x, s) == [s[0]] + rest;
    }
  }

  /** Sorting networks with different keys yields them in the order of
      `sort_networks`, each key once. */
  lemma {:induction false} SortNetworksSorted(s: seq<Network>)
    requires NetKeysDistinct(s)
    ensures SortedBy(SortNetworks(s)) && NetKeysDistinct(SortNetworks(s))
    decreases |s|
  {
    if |s| > 0 {
      SortNetworksSorted(s[1..]);
      var rest := SortNetworks(s[1..]);
      KeyAbsentMultiset(s[0].key, s[1..]);
      KeyAbsentMultiset(s[0].key, rest);
      InsertSorted(s[0], rest);
      InsertKeys(s[0], rest);
    }
  }

  /** The order is determined: two sorted permutations of a list are the
      same list, so which sorting algorithm the library uses does not
      matter. */
  lemma {:induction false} SortedUnique(a: seq<Network>, b: seq<Network>)
    requires SortedBy(a) && SortedBy(b) && multiset(a) == multiset(b)
    ensures a == b
    decreases |a|
  {
    assert |a| == |multiset(a)| == |b|;
    if |a| > 0 {
      assert a[0] in multiset(b) && b[0] in multiset(a);
      var i :| 0 <= i < |b| && b[i] == a[0];
      var j :| 0 <= j < |a| && a[j] == b[0];
      SortBeforeIsStrictTotalOrder(a[0], b[0], a[0]);
      assert i == 0 || j == 0;
      MultisetTail(a);
      MultisetTail(b);
      SortedUnique(a[1..], b[1..]);
      assert a == [a[0]] + a[1..] && b == [b[0]] + b[1..];
    }
  }

  /** The keys of a list of networks, in order. */
  function KeysOf(s: seq<Network>): (r: seq<string>)
    ensures |r| == |s| && forall i :: 0 <= i < |s| ==> r[i] == s[i].key
  {
    seq(|s|, i requires 0 <= i < |s| => s[i].key)
  }

  /** The loop assigning preferences: the list's networks get pref,
      pref - 1, ... down to 0, and the loop stops after the one that got
      0. */
  function AssignPreferences(known: map<string, Network>, keys: seq<string>, pref: nat): (r: map<string, Network>)
    requires forall i :: 0 <= i < |keys| ==> keys[i] in known
    ensures forall k :: k in r <==> k in known
    ensures forall k :: k in r ==> r[k].(preference := known[k].preference) == known[k]
    decreases |keys|
  {
    if |keys| == 0 then known
    else
      var k := keys[0];
      var set1 := known[k := known[k].(preference := pref)];
      if pref > 0 then AssignPreferences(set1, keys[1..], pref - 1) else set1
  }

  /** The i-th network of the list gets pref - i while that is not
      negative; the networks after the one that got 0, and those not on
      the list, keep their preference. */
  lemma {:induction false} PreferencesAssigned(known: map<string, Network>, keys: seq<string>, pref: nat, k: string)
    requires forall i :: 0 <= i < |keys| ==> keys[i] in known
    requires Distinct(keys) && k in known
    ensures var r := AssignPreferences(known, keys, pref);
            (forall i :: 0 <= i < |keys| && i <= pref && keys[i] == k ==> r[k] == known[k].(preference := pref - i)) &&
            ((forall i :: 0 <= i < |keys| && i <= pref ==> keys[i] != k) ==> r[k] == known[k])
    decreases |keys|
  {
    if |keys| > 0 {
      var set1 := known[keys[0] := known[keys[0]].(preference := pref)];
      assert AssignPreferences(known, keys, pref) ==
             if pref > 0 then AssignPreferences(set1, keys[1..], pref - 1) else set1;
      if pref > 0 {
        assert Distinct(keys[1..]);
        PreferencesAssigned(set1, keys[1..], pref - 1, k);
        assert forall i :: 1 <= i < |keys| ==> keys[1..][i - 1] == keys[i];
        assert keys[0] == k ==> forall i :: 1 <= i < |keys| ==> keys[i] != k;
      }
    }
  }

  /** The networks filed under a list of keys, in order. */
  function NetworksOf(known: map<string, Network>, keys: seq<string>): (r: seq<Network>)
    requires forall i :: 0 <= i < |keys| ==> keys[i] in known
    ensures |r| == |keys| && forall i :: 0 <= i < |keys| ==> r[i] == known[keys[i]]
  {
    seq(|keys|, i requires 0 <= i < |keys| => known[keys[i]])
  }

  /** `std::sort(_networks, sort_networks)` on the merged list: the keys
      of the sorted networks. */
  function SortedKeys(known: map<string, Network>, keys: seq<string>): (r: seq<string>)
    requires FiledByKey(known) && Distinct(keys)
    requires forall i :: 0 <= i < |keys| ==> keys[i] in known
    ensures |r| == |keys| && Distinct(r)
    ensures forall k :: k in r <==> k in keys
    ensures forall i :: 0 <= i < |r| ==> r[i] in known
    ensures SortedBy(NetworksOf(known, r))
  {
    var nets := NetworksOf(known, keys);
    var list := SortNetworks(nets);
    SortedKeysFacts(known, keys, list);
    KeysOf(list)
  }

  lemma SortedKeysFacts(known: map<string, Network>, keys: seq<string>, list: seq<Network>)
    requires FiledByKey(known) && Distinct(keys)
    requires forall i :: 0 <= i < |keys| ==> keys[i] in known
    requires list == SortNetworks(NetworksOf(known, keys))
    ensures var r := KeysOf(list);
            |r| == |keys| && Distinct(r) &&
            (forall k :: k in r <==> k in keys) &&
            (forall i :: 0 <= i < |r| ==> r[i] in known) &&
            NetworksOf(known, r) == list && SortedBy(list)
  {
    var nets := NetworksOf(known, keys);
    assert NetKeysDistinct(nets);
    SortNetworksSorted(nets);
    var r := KeysOf(list);
    assert |list| == |multiset(list)| == |nets|;
    forall i | 0 <= i < |list| ensures list[i].key in keys && known[list[i].key] == list[i] {
      assert list[i] in multiset(nets);
      var j :| 0 <= j < |nets| && nets[j] == list[i];
    }
    forall k | k in keys ensures k in r {
      var j :| 0 <= j < |keys| && keys[j] == k;
      assert nets[j] in multiset(list);
      var i :| 0 <= i < |list| && list[i] == nets[j];
      assert r[i] == k;
    }
  }

  // ---------------------------------------------------------------------
  // merge_network_list

  /** Preferences and activity play no part in the order. */
  lemma SortedIgnoresMarks(s: seq<Network>, t: seq<Network>)
    requires SortedBy(s) && |s| == |t|
    requires forall i :: 0 <= i < |s| ==> t[i].(active := s[i].active, preference := s[i].preference) == s[i]
    ensures SortedBy(t)
  {
    forall i, j | 0 <= i < j < |t| ensures SortBefore(t[i], t[j]) {
      assert t[i].ips == s[i].ips && t[j].ips == s[j].ips;
      assert GetBestIP(t[i]) == GetBestIP(s[i]) && GetBestIP(t[j]) == GetBestIP(s[j]);
    }
  }

  /** The part of the merge run when the networks changed: every known
      network is active exactly when the merged list holds it, the list is
      sorted by `sort_networks`, and its networks get preferences from
      127 down. Returns the new list and map. */
  function Relist(known: map<string, Network>, merged: seq<string>): (r: (seq<string>, map<string, Network>))
    requires FiledByKey(known) && Distinct(merged)
    requires forall i :: 0 <= i < |merged| ==> merged[i] in known
    ensures |r.0| == |merged| && Distinct(r.0) && forall k :: k in r.0 <==> k in merged
    ensures forall k :: k in r.1 <==> k in known
    ensures FiledByKey(r.1)
    ensures forall k :: k in r.1 ==>
              r.1[k].(active := known[k].active, preference := known[k].preference) == known[k] &&
              (r.1[k].active <==> k in merged)
    ensures forall i :: 0 <= i < |r.0| ==> r.0[i] in r.1
    ensures SortedBy(NetworksOf(r.1, r.0))
    ensures forall i :: 0 <= i < |r.0| && i <= HIGHEST_PREFERENCE ==> r.1[r.0[i]].preference == HIGHEST_PREFERENCE - i
    ensures forall k :: k in r.1 && (forall i :: 0 <= i < |r.0| && i <= HIGHEST_PREFERENCE ==> r.0[i] != k) ==>
              r.1[k].preference == known[k].preference
  {
    var marked := MarkActive(known, merged);
    var keys := SortedKeys(marked, merged);
    var prefs := AssignPreferences(marked, keys, HIGHEST_PREFERENCE);
    RelistFacts(known, merged, marked, keys, prefs);
    (keys, prefs)
  }

  lemma RelistFacts(known: map<string, Network>, merged: seq<string>, marked: map<string, Network>,
                    keys: seq<string>, prefs: map<string, Network>)
    requires FiledByKey(known) && Distinct(merged)
    requires forall i :: 0 <= i < |merged| ==> merged[i] in known
    requires marked == MarkActive(known, merged)
    requires keys == SortedKeys(marked, merged)
    requires prefs == AssignPreferences(marked, keys, HIGHEST_PREFERENCE)
    ensures FiledByKey(prefs)
    ensures SortedBy(NetworksOf(prefs, keys))
    ensures forall i :: 0 <= i < |keys| && i <= HIGHEST_PREFERENCE ==> prefs[keys[i]].preference == HIGHEST_PREFERENCE - i
    ensures forall k :: k in prefs && (forall i :: 0 <= i < |keys| && i <= HIGHEST_PREFERENCE ==> keys[i] != k) ==>
              prefs[k].preference == known[k].preference
  {
    hide MarkActive, SortedKeys, AssignPreferences;
    SortedIgnoresMarks(NetworksOf(marked, keys), NetworksOf(prefs, keys));
    forall k | k in prefs ensures
      (forall i :: 0 <= i < |keys| && i <= HIGHEST_PREFERENCE && keys[i] == k ==>
         prefs[k] == marked[k].(preference := HIGHEST_PREFERENCE - i)) &&
      ((forall i :: 0 <= i < |keys| && i <= HIGHEST_PREFERENCE ==> keys[i] != k) ==> prefs[k] == marked[k])
    {
      PreferencesAssigned(marked, keys, HIGHEST_PREFERENCE, k);
    }
  }

  /** What `merge_network_list` leaves: the manager, whether the networks
      changed, and the statistics. */
  datatype MergeResult = MergeResult(manager: Manager, changed: bool, stats: Stats)

  /** `merge_network_list`. The first sort's order is the parameter
      `sorted`, a permutation of the new networks: `compare_networks` is
      not a strict weak order, so that order is whatever the library's
      sort leaves. The networks are gathered by key, known networks are
      reused and new ones filed; when anything changed, the list becomes
      the merged keys, re-sorted, with activity and preferences reset. */
  function MergeNetworkList(m: Manager, newNetworks: seq<Network>, sorted: seq<Network>): (r: MergeResult)
    requires Valid(m)
    requires multiset(sorted) == multiset(newNetworks) && FirstsHaveAddresses(sorted)
    ensures Valid(r.manager)
    ensures r.manager.maxIPv6Networks == m.maxIPv6Networks && r.manager.ipv6Enabled == m.ipv6Enabled
  {
    var g := Consolidate(sorted);
    var u := Reuse(m.networksMap, g.entries, m.nextId, false);
    MergeFacts(m, g, u);
    var changed := u.changed || |u.merged| != |m.networks|;
    if !changed then
      MergeResult(m.(networksMap := u.networksMap, nextId := u.nextId), false, g.stats)
    else
      var relisted := Relist(u.networksMap, u.merged);
      MergeResult(Manager(relisted.0, relisted.1, u.nextId, m.maxIPv6Networks, m.ipv6Enabled), true, g.stats)
  }

  /** What the second loop leaves, as the rest of the merge needs it. */
  lemma MergeFacts(m: Manager, g: Gathered, u: Reused)
    requires Valid(m) && Ascending(g.entries)
    requires u == Reuse(m.networksMap, g.entries, m.nextId, false)
    ensures Distinct(u.merged) && FiledByKey(u.networksMap)
    ensures forall k :: k in u.networksMap <==> k in m.networksMap || k in u.merged
    ensures forall k :: k in m.networks ==> k in u.networksMap
  {
    ReuseMerged(m.networksMap, g.entries, m.nextId, false);
    ReuseDomain(m.networksMap, g.entries, m.nextId, false);
    ReuseFiled(m.networksMap, g.entries, m.nextId, false);
    AscendingDistinct(g.entries);
  }

  // ---------------------------------------------------------------------
  // What the merge promises

  /** The addresses of every network with key k, in list order. */
  function IPsOfKey(list: seq<Network>, k: string): seq<InterfaceAddress>
    decreases |list|
  {
    if |list| == 0 then []
    else IPsOfKey(list[..|list| - 1], k) + (if list[|list| - 1].key == k then list[|list| - 1].ips else [])
  }

  lemma {:induction false} IPsOfKeyAbsent(list: seq<Network>, k: string)
    requires k !in NetworkKeys(list)
    ensures IPsOfKey(list, k) == []
    decreases |list|
  {
    if |list| > 0 {
      var p := list[..|list| - 1];
      assert list == p + [list[|list| - 1]];
      NetworkKeysSnoc(p, list[|list| - 1]);
      IPsOfKeyAbsent(p, k);
    }
  }

  /** What the last network does to key k's entry. */
  lemma ConsolidateLast(list: seq<Network>, k: string)
    requires |list| > 0 && FirstsHaveAddresses(list)
    ensures FirstsHaveAddresses(list[..|list| - 1])
    ensures var x := list[|list| - 1];
            var before := Lookup(Consolidate(list[..|list| - 1]).entries, k);
            Lookup(Consolidate(list).entries, k) == if k == x.key then Some(Joined(before, x)) else before
  {
    FirstsOfPrefix(list);
  }

  /** Each key's entry holds the first network with the key and the
      addresses of all the networks with it, in order. */
  lemma {:induction false} ConsolidateEntry(list: seq<Network>, i: nat)
    requires FirstsHaveAddresses(list) && i < |list| && FirstOfKey(list, i)
    ensures Lookup(Consolidate(list).entries, list[i].key) == Some(AddressList(list[i], IPsOfKey(list, list[i].key)))
    decreases |list|
  {
    hide Consolidate, IPsOfKey, Lookup, Joined;
    var p := list[..|list| - 1];
    var k := list[i].key;
    ConsolidateLast(list, k);
    IPsOfKeyLast(list, k);
    if i < |list| - 1 {
      assert FirstOfKey(p, i);
      ConsolidateEntry(p, i);
      JoinEarlier(list, i, Lookup(Consolidate(p).entries, k));
    } else {
      JoinFirst(list, Consolidate(p));
    }
  }

  lemma IPsOfKeyLast(list: seq<Network>, k: string)
    requires |list| > 0
    ensures IPsOfKey(list, k) == IPsOfKey(list[..|list| - 1], k) + (if list[|list| - 1].key == k then list[|list| - 1].ips else [])
  {
  }

  /** The last network joins the entry of an earlier key. */
  lemma JoinEarlier(list: seq<Network>, i: nat, before: Option<AddressList>)
    requires i < |list| - 1
    requires before == Some(AddressList(list[i], IPsOfKey(list[..|list| - 1], list[i].key)))
    requires IPsOfKey(list, list[i].key) == IPsOfKey(list[..|list| - 1], list[i].key) +
               (if list[|list| - 1].key == list[i].key then list[|list| - 1].ips else [])
    ensures (if list[i].key == list[|list| - 1].key then Some(Joined(before, list[|list| - 1])) else before) ==
            Some(AddressList(list[i], IPsOfKey(list, list[i].key)))
  {
    var p := list[..|list| - 1];
    var k := list[i].key;
    assert p[i] == list[i];
    if list[|list| - 1].key != k {
      assert IPsOfKey(p, k) + [] == IPsOfKey(p, k);
    }
  }

  /** The last network, first of its key, makes its own entry. */
  lemma JoinFirst(list: seq<Network>, g: Gathered)
    requires |list| > 0 && FirstOfKey(list, |list| - 1)
    requires GatheredFrom(list[..|list| - 1], g)
    ensures var x := list[|list| - 1];
            Lookup(g.entries, x.key).None? &&
            Joined(Lookup(g.entries, x.key), x) == AddressList(x, IPsOfKey(list[..|list| - 1], x.key) + x.ips)
  {
    var p := list[..|list| - 1];
    var x := list[|list| - 1];
    assert x.key !in NetworkKeys(p);
    IPsOfKeyAbsent(p, x.key);
    assert [] + x.ips == x.ips;
  }

  /** The keys of the entries are those of the gathered networks. */
  lemma EntryKeysOfGathered(list: seq<Network>, g: Gathered)
    requires GatheredFrom(list, g)
    ensures forall k :: k in EntryKeys(g.entries) <==> k in NetworkKeys(list)
    ensures |g.entries| == |NetworkKeys(list)|
  {
    forall k | k in NetworkKeys(list) ensures k in EntryKeys(g.entries) {
      var a := Lookup(g.entries, k).value;
      var j :| 0 <= j < |g.entries| && g.entries[j] == a;
    }
  }

  /** The merge in terms of its phases. */
  lemma MergeIs(m: Manager, newNetworks: seq<Network>, sorted: seq<Network>, g: Gathered, u: Reused, r: MergeResult)
    requires Valid(m)
    requires multiset(sorted) == multiset(newNetworks) && FirstsHaveAddresses(sorted)
    requires g == Consolidate(sorted) && u == Reuse(m.networksMap, g.entries, m.nextId, false)
    requires r == MergeNetworkList(m, newNetworks, sorted)
    ensures Distinct(u.merged) && FiledByKey(u.networksMap)
    ensures forall k :: k in u.networksMap <==> k in m.networksMap || k in u.merged
    ensures forall i :: 0 <= i < |u.merged| ==> u.merged[i] in u.networksMap
    ensures r.stats == g.stats && (r.changed <==> u.changed || |u.merged| != |m.networks|) &&
            r.manager.nextId == u.nextId &&
            (!r.changed ==> r.manager.networks == m.networks && r.manager.networksMap == u.networksMap) &&
            (r.changed ==> (r.manager.networks, r.manager.networksMap) == Relist(u.networksMap, u.merged))
  {
    MergeFacts(m, g, u);
  }

  /** The merge reports a change exactly when some key is new, or a known
      network's addresses or type change or it was inactive, or the
      number of networks differs. */
  lemma MergeChanged(m: Manager, newNetworks: seq<Network>, sorted: seq<Network>)
    requires Valid(m)
    requires multiset(sorted) == multiset(newNetworks) && FirstsHaveAddresses(sorted)
    ensures var e := Consolidate(sorted).entries;
            MergeNetworkList(m, newNetworks, sorted).changed <==>
              (exists i :: 0 <= i < |e| && EntryChanges(m.networksMap, e[i])) ||
              |NetworkKeys(sorted)| != |m.networks|
  {
    var g := Consolidate(sorted);
    var u := Reuse(m.networksMap, g.entries, m.nextId, false);
    MergeIs(m, newNetworks, sorted, g, u, MergeNetworkList(m, newNetworks, sorted));
    AscendingDistinct(g.entries);
    ReuseChanged(m.networksMap, g.entries, m.nextId, false);
    ReuseMerged(m.networksMap, g.entries, m.nextId, false);
    EntryKeysOfGathered(sorted, g);
    hide *;
    assert |u.merged| == |NetworkKeys(sorted)|;
  }

  /** After a change the list holds the new networks' keys, each once, in
      the order of `sort_networks`; with no change the list is kept. */
  lemma MergeList(m: Manager, newNetworks: seq<Network>, sorted: seq<Network>)
    requires Valid(m)
    requires multiset(sorted) == multiset(newNetworks) && FirstsHaveAddresses(sorted)
    ensures var r := MergeNetworkList(m, newNetworks, sorted);
            (!r.changed ==> r.manager.networks == m.networks) &&
            (r.changed ==> (forall k :: k in r.manager.networks <==> k in NetworkKeys(sorted)) &&
                           SortedBy(NetworkList(r.manager)))
  {
    var g := Consolidate(sorted);
    var u := Reuse(m.networksMap, g.entries, m.nextId, false);
    MergeIs(m, newNetworks, sorted, g, u, MergeNetworkList(m, newNetworks, sorted));
    ReuseMerged(m.networksMap, g.entries, m.nextId, false);
    EntryKeysOfGathered(sorted, g);
    var r := MergeNetworkList(m, newNetworks, sorted);
    if r.changed {
      assert NetworkList(r.manager) == NetworksOf(r.manager.networksMap, r.manager.networks);
    }
  }

  /** The map after the merge holds the networks it held and one for every
      new key. */
  lemma MergeDomain(m: Manager, newNetworks: seq<Network>, sorted: seq<Network>)
    requires Valid(m)
    requires multiset(sorted) == multiset(newNetworks) && FirstsHaveAddresses(sorted)
    ensures var r := MergeNetworkList(m, newNetworks, sorted);
            forall k :: k in r.manager.networksMap <==> k in m.networksMap || k in NetworkKeys(sorted)
  {
    hide *;
    var g := Consolidate(sorted);
    var u := Reuse(m.networksMap, g.entries, m.nextId, false);
    MergeIs(m, newNetworks, sorted, g, u, MergeNetworkList(m, newNetworks, sorted));
    ReuseMerged(m.networksMap, g.entries, m.nextId, false);
    EntryKeysOfGathered(sorted, g);
  }

  /** The network of each new key after the merge: the known network
      refreshed by the key's entry, or, for a key seen for the first time,
      the key's first network with all the key's addresses and the id
      counted from the new keys before it. Activity and preference aside,
      that is all; after a change the network is active. */
  lemma MergeEntry(m: Manager, newNetworks: seq<Network>, sorted: seq<Network>, i: nat)
    requires Valid(m)
    requires multiset(sorted) == multiset(newNetworks) && FirstsHaveAddresses(sorted)
    requires i < |Consolidate(sorted).entries|
    ensures var e := Consolidate(sorted).entries;
            var k := e[i].net.key;
            var base := if k in m.networksMap then Refreshed(m.networksMap[k], e[i])
                        else Fresh(e[i], IdAfter(m.nextId, NewCount(m.networksMap, e[..i])));
            var r := MergeNetworkList(m, newNetworks, sorted);
            k in r.manager.networksMap &&
            r.manager.networksMap[k].(active := base.active, preference := base.preference) == base &&
            (r.changed ==> r.manager.networksMap[k].active)
  {
    var g := Consolidate(sorted);
    var u := Reuse(m.networksMap, g.entries, m.nextId, false);
    var r := MergeNetworkList(m, newNetworks, sorted);
    MergeIs(m, newNetworks, sorted, g, u, r);
    AscendingDistinct(g.entries);
    ReuseEntry(m.networksMap, g.entries, m.nextId, false, i);
    ReuseMerged(m.networksMap, g.entries, m.nextId, false);
    hide *;
    assert g.entries[i].net.key in u.merged;
  }

  /** A known network that the new enumeration lacks stays in the map, and
      after a change it is inactive. */
  lemma MergeDropped(m: Manager, newNetworks: seq<Network>, sorted: seq<Network>, k: string)
    requires Valid(m)
    requires multiset(sorted) == multiset(newNetworks) && FirstsHaveAddresses(sorted)
    requires k in m.networksMap && k !in NetworkKeys(sorted)
    ensures var r := MergeNetworkList(m, newNetworks, sorted);
            k in r.manager.networksMap &&
            r.manager.networksMap[k] == if r.changed then m.networksMap[k].(active := false) else m.networksMap[k]
  {
    hide *;
    var g := Consolidate(sorted);
    var u := Reuse(m.networksMap, g.entries, m.nextId, false);
    var r := MergeNetworkList(m, newNetworks, sorted);
    MergeIs(m, newNetworks, sorted, g, u, r);
    ReuseMerged(m.networksMap, g.entries, m.nextId, false);
    ReuseDomain(m.networksMap, g.entries, m.nextId, false);
    EntryKeysOfGathered(sorted, g);
    assert k !in u.merged && u.networksMap[k] == m.networksMap[k];
  }

  /** After a change the first 128 networks of the list get preferences
      127, 126, ..., 0 in order. */
  lemma MergePreferences(m: Manager, newNetworks: seq<Network>, sorted: seq<Network>)
    requires Valid(m)
    requires multiset(sorted) == multiset(newNetworks) && FirstsHaveAddresses(sorted)
    ensures var r := MergeNetworkList(m, newNetworks, sorted);
            r.changed ==>
              forall i :: 0 <= i < |r.manager.networks| && i <= HIGHEST_PREFERENCE ==>
                r.manager.networksMap[r.manager.networks[i]].preference == HIGHEST_PREFERENCE - i
  {
    var g := Consolidate(sorted);
    var u := Reuse(m.networksMap, g.entries, m.nextId, false);
    MergeIs(m, newNetworks, sorted, g, u, MergeNetworkList(m, newNetworks, sorted));
  }

  /** A known network past the 128th of the list, or off it, keeps its
      preference. */
  lemma MergeKeepsPreference(m: Manager, newNetworks: seq<Network>, sorted: seq<Network>, k: string)
    requires Valid(m)
    requires multiset(sorted) == multiset(newNetworks) && FirstsHaveAddresses(sorted)
    requires k in m.networksMap
    ensures var r := MergeNetworkList(m, newNetworks, sorted);
            (forall i :: 0 <= i < |r.manager.networks| && i <= HIGHEST_PREFERENCE ==> r.manager.networks[i] != k) ==>
              k in r.manager.networksMap && r.manager.networksMap[k].preference == m.networksMap[k].preference
  {
    var g := Consolidate(sorted);
    var u := Reuse(m.networksMap, g.entries, m.nextId, false);
    var r := MergeNetworkList(m, newNetworks, sorted);
    MergeIs(m, newNetworks, sorted, g, u, r);
    ReuseDomain(m.networksMap, g.entries, m.nextId, false);
    ReuseMerged(m.networksMap, g.entries, m.nextId, false);
    AscendingDistinct(g.entries);
    if k in EntryKeys(g.entries) {
      var i :| 0 <= i < |g.entries| && EntryKeys(g.entries)[i] == k;
      ReuseEntry(m.networksMap, g.entries, m.nextId, false, i);
    }
    assert u.networksMap[k].preference == m.networksMap[k].preference;
  }

  /** The statistics count each new key once, by the family of the first
      address of its first network. */
  lemma MergeStats(m: Manager, newNetworks: seq<Network>, sorted: seq<Network>)
    requires Valid(m)
    requires multiset(sorted) == multiset(newNetworks) && FirstsHaveAddresses(sorted)
    ensures MergeNetworkList(m, newNetworks, sorted).stats == CountFamilies(Consolidate(sorted).entries)
  {
    var g := Consolidate(sorted);
    var u := Reuse(m.networksMap, g.entries, m.nextId, false);
    MergeIs(m, newNetworks, sorted, g, u, MergeNetworkList(m, newNetworks, sorted));
  }

  /** The keys of the entries not known yet. */
  function NewKeys(known: map<string, Network>, e: seq<AddressList>): set<string> {
    set k | k in EntryKeys(e) && k !in known
  }

  /** Counting the new entries one by one counts the new keys. */
  lemma {:induction false} NewCountCard(known: map<string, Network>, e: seq<AddressList>)
    requires KeysDistinct(e)
    ensures NewCount(known, e) == |NewKeys(known, e)|
    decreases |e|
  {
    if |e| == 0 {
      assert NewKeys(known, e) == {};
    } else {
      var k := e[0].net.key;
      NewCountCard(known, e[1..]);
      EntryKeysCons(e);
      assert k !in EntryKeys(e[1..]);
      if k in known {
        assert NewKeys(known, e) == NewKeys(known, e[1..]);
      } else {
        assert NewKeys(known, e) == {k} + NewKeys(known, e[1..]);
      }
    }
  }

  /** Ids go on from the manager's next id, one per new key, on the 16-bit
      counter. */
  lemma MergeNextId(m: Manager, newNetworks: seq<Network>, sorted: seq<Network>)
    requires Valid(m)
    requires multiset(sorted) == multiset(newNetworks) && FirstsHaveAddresses(sorted)
    ensures MergeNetworkList(m, newNetworks, sorted).manager.nextId ==
            IdAfter(m.nextId, |NetworkKeys(sorted) - m.networksMap.Keys|)
  {
    var g := Consolidate(sorted);
    var u := Reuse(m.networksMap, g.entries, m.nextId, false);
    MergeIs(m, newNetworks, sorted, g, u, MergeNetworkList(m, newNetworks, sorted));
    AscendingDistinct(g.entries);
    ReuseNextId(m.networksMap, g.entries, m.nextId, false);
    NewCountCard(m.networksMap, g.entries);
    EntryKeysOfGathered(sorted, g);
    assert NewKeys(m.networksMap, g.entries) == NetworkKeys(sorted) - m.networksMap.Keys;
  }

  /** A network is active exactly when the current list holds it. */
  predicate ActiveIffListed(m: Manager) {
    forall k :: k in m.networksMap ==> (m.networksMap[k].active <==> k in m.networks)
  }

  lemma DistinctCard(s: seq<string>)
    requires Distinct(s)
    ensures |set x | x in s| == |s|
  {
    if |s| > 0 {
      var t := s[1..];
      DistinctCard(t);
      assert (set x | x in s) == {s[0]} + (set x | x in t);
    }
  }

  /** A list of distinct keys inside another as long holds all of it. */
  lemma DistinctInside(a: seq<string>, b: seq<string>)
    requires Distinct(a) && Distinct(b) && |a| == |b|
    requires forall x :: x in a ==> x in b
    ensures forall x :: x in b ==> x in a
  {
    var sa := set x | x in a;
    var sb := set x | x in b;
    DistinctCard(a);
    DistinctCard(b);
    if exists x :: x in b && x !in a {
      var x :| x in b && x !in a;
      assert sa <= sb - {x};
      assert |sb - {x}| == |sb| - 1;
      SubsetCard(sa, sb - {x});
      assert false;
    }
  }

  lemma SubsetCard(a: set<string>, b: set<string>)
    requires a <= b
    ensures |a| <= |b|
  {
    assert b == a + (b - a);
  }

  /** The merge keeps every network active exactly when listed; when it
      reports no change, the list already held exactly the new keys. */
  lemma MergeActive(m: Manager, newNetworks: seq<Network>, sorted: seq<Network>)
    requires Valid(m) && ActiveIffListed(m)
    requires multiset(sorted) == multiset(newNetworks) && FirstsHaveAddresses(sorted)
    ensures var r := MergeNetworkList(m, newNetworks, sorted);
            ActiveIffListed(r.manager) &&
            (!r.changed ==> forall k :: k in m.networks <==> k in NetworkKeys(sorted))
  {
    var g := Consolidate(sorted);
    var u := Reuse(m.networksMap, g.entries, m.nextId, false);
    var r := MergeNetworkList(m, newNetworks, sorted);
    MergeIs(m, newNetworks, sorted, g, u, r);
    ReuseMerged(m.networksMap, g.entries, m.nextId, false);
    EntryKeysOfGathered(sorted, g);
    if !r.changed {
      UnchangedListed(m, g, u);
    }
  }

  /** With no change reported, every merged key was known, active and so
      listed; as many keys are merged as listed, so the two agree, and
      the map's networks keep their activity. */
  lemma UnchangedListed(m: Manager, g: Gathered, u: Reused)
    requires Valid(m) && ActiveIffListed(m) && Ascending(g.entries)
    requires u == Reuse(m.networksMap, g.entries, m.nextId, false)
    requires !u.changed && |u.merged| == |m.networks|
    ensures forall k :: k in m.networks <==> k in u.merged
    ensures forall k :: k in u.networksMap ==> (u.networksMap[k].active <==> k in m.networks)
  {
    var e := g.entries;
    AscendingDistinct(e);
    ReuseChanged(m.networksMap, e, m.nextId, false);
    ReuseMerged(m.networksMap, e, m.nextId, false);
    ReuseDomain(m.networksMap, e, m.nextId, false);
    MergeFacts(m, g, u);
    forall i | 0 <= i < |e| ensures e[i].net.key in m.networksMap && m.networksMap[e[i].net.key].active {
      assert !EntryChanges(m.networksMap, e[i]);
    }
    DistinctInside(u.merged, m.networks);
    forall k | k in u.networksMap ensures u.networksMap[k].active <==> k in m.networks {
      if k in u.merged {
        var i :| 0 <= i < |e| && u.merged[i] == k;
        ReuseEntry(m.networksMap, e, m.nextId, false, i);
      }
    }
  }
}
