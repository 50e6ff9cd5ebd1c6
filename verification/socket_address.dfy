/** `SocketAddress`: a host (a name, an IP address, or both) with a port and
    an IPv6 scope id, its text form `host:port` (`[host]:port` for IPv6) and
    its ordering. Converting between IP addresses and their text is done by
    the system (`inet_pton`/`inet_ntop`); both directions are parameters. */
module SocketAddress {
  import opened Ints
  import opened Wrappers
  import StringEncode
  import IpAddress

  type IPAddress = IpAddress.IPAddress

  /** The text-to-address conversion of `IP_from_string`: an address, or
      nothing when the text is not a literal IP address. */
  type IPParser = string -> Option<IPAddress>

  /** The address-to-text conversion of `IPAddress::to_string`. */
  type IPPrinter = IPAddress -> string

  /** The fields of a `SocketAddress`. `literal` records that `hostname` is
      the text of `ip`. */
  datatype Address = Address(hostname: string, ip: IPAddress, port: u16, scopeId: int, literal: bool)

  /** The default constructor and `clear`: no name, no address, port 0. */
  function Clear(): (a: Address)
    ensures IsNil(a) && a.scopeId == 0 && !a.literal
  {
    Address([], IpAddress.Unspec, 0, 0, false)
  }

  /** `is_nil`. */
  predicate IsNil(a: Address) {
    a.hostname == [] && IpAddress.IsUnspec(a.ip) && a.port == 0
  }

  /** `set_port`: a port outside 0..65535 is ignored. */
  function SetPort(a: Address, port: int): (r: Address)
    ensures 0 <= port < 0x1_0000 ==> r.port == port
    ensures !(0 <= port < 0x1_0000) ==> r == a
    ensures r.hostname == a.hostname && r.ip == a.ip && r.scopeId == a.scopeId && r.literal == a.literal
  {
    if port < 0 || port >= 0x1_0000 then a else a.(port := port)
  }

  /** `set_IP(const IPAddress&)`: the address replaces any name, and the
      scope id is reset. */
  function SetIP(a: Address, ip: IPAddress): (r: Address)
    ensures r.ip == ip && r.port == a.port
    ensures r.hostname == [] && !r.literal && r.scopeId == 0
  {
    Address([], ip, a.port, 0, false)
  }

  /** `set_IP(uint32_t)`: an IPv4 address given as a host-order number. */
  function SetIPHostOrder(a: Address, v: u32): (r: Address)
    ensures r.ip.V4? && IpAddress.HostOrderInteger(r.ip) == v && r.port == a.port
    ensures r.hostname == [] && !r.literal && r.scopeId == 0
  {
    SetIP(a, IpAddress.FromHostOrder(v))
  }

  /** `set_IP(const std::string&)`: the name is kept; when it is the text of
      an IP address that address is taken and the name is marked literal,
      otherwise the address is cleared. */
  function SetHostname(a: Address, hostname: string, parse: IPParser): (r: Address)
    ensures r.hostname == hostname && r.port == a.port && r.scopeId == 0
    ensures r.literal <==> parse(hostname).Some?
    ensures r.literal ==> r.ip == parse(hostname).value
    ensures !r.literal ==> r.ip == IpAddress.Unspec
  {
    match parse(hostname)
    case Some(ip) => Address(hostname, ip, a.port, 0, true)
    case None => Address(hostname, IpAddress.Unspec, a.port, 0, false)
  }

  /** The constructors taking a port: as `set_IP` followed by `set_port`.
      The port field is not initialised first, so an out-of-range port
      leaves whatever the memory held (the value given). */
  function FromHostname(hostname: string, port: int, parse: IPParser, uninitialisedPort: u16): (r: Address)
    ensures r.hostname == hostname && r.scopeId == 0
    ensures r.port == if 0 <= port < 0x1_0000 then port else uninitialisedPort
  {
    SetPort(SetHostname(Address([], IpAddress.Unspec, uninitialisedPort, 0, false), hostname, parse), port)
  }

  function FromIP(ip: IPAddress, port: int, uninitialisedPort: u16): (r: Address)
    ensures r.ip == ip && r.hostname == [] && !r.literal && r.scopeId == 0
    ensures r.port == if 0 <= port < 0x1_0000 then port else uninitialisedPort
  {
    SetPort(SetIP(Address([], IpAddress.Unspec, uninitialisedPort, 0, false), ip), port)
  }

  /** `is_unresolved_IP`: a name that is not an IP literal and has no
      address yet. */
  predicate IsUnresolved(a: Address) {
    IpAddress.IsUnspec(a.ip) && !a.literal && a.hostname != []
  }

  // ---------------------------------------------------------------------
  // Text form

  /** `host_as_URI_string`: a name that is not an IP literal as it is;
      otherwise the address text, in brackets for IPv6. */
  function HostAsUriString(a: Address, show: IPPrinter): (s: string)
    ensures !a.literal && a.hostname != [] ==> s == a.hostname
    ensures (a.literal || a.hostname == []) && a.ip.V6? ==> s == "[" + show(a.ip) + "]"
    ensures (a.literal || a.hostname == []) && !a.ip.V6? ==> s == show(a.ip)
  {
    if !a.literal && a.hostname != [] then a.hostname
    else if a.ip.V6? then "[" + show(a.ip) + "]"
    else show(a.ip)
  }

  /** The decimal digits of a number, most significant first, without
      leading zeros (how the port is written to a stream). */
  function DecimalText(n: nat): (s: string)
    ensures |s| > 0 && AllDigits(s) && (|s| > 1 ==> s[0] != '0')
    decreases n
  {
    if n < 10 then [Digit(n)] else DecimalText(n / 10) + [Digit(n % 10)]
  }

  function Digit(d: nat): (c: char)
    requires d < 10
    ensures IsDigit(c) && DigitValue(c) == d
  {
    (48 + d) as char
  }

  predicate IsDigit(c: char) {
    '0' <= c <= '9'
  }

  function DigitValue(c: char): nat
    requires IsDigit(c)
  {
    c as int - 48
  }

  predicate AllDigits(s: string) {
    forall i :: 0 <= i < |s| ==> IsDigit(s[i])
  }

  /** The number a run of decimal digits denotes. */
  function DecimalValue(s: string): (v: nat)
    requires AllDigits(s)
    decreases |s|
  {
    if |s| == 0 then 0 else DecimalValue(s[..|s| - 1]) * 10 + DigitValue(s[|s| - 1])
  }

  /** `to_string` (`operator<<`): `host:port`. */
  function ToString(a: Address, show: IPPrinter): (s: string)
    ensures s == HostAsUriString(a, show) + ":" + DecimalText(a.port)
  {
    HostAsUriString(a, show) + ":" + DecimalText(a.port)
  }

  // ---------------------------------------------------------------------
  // strtoul(text, NULL, 10)

  /** The characters `isspace` accepts in the C locale. */
  predicate IsSpace(c: char) {
    c == ' ' || (9 <= c as int <= 13)
  }

  const ULONG_MAX: u64 := TWO_64 - 1

  /** The index of the first character from i on that is not white space. */
  function SkipSpaces(s: string, i: nat): (j: nat)
    requires i <= |s|
    ensures i <= j <= |s| && (j < |s| ==> !IsSpace(s[j]))
    ensures forall k :: i <= k < j ==> IsSpace(s[k])
    decreases |s| - i
  {
    if i == |s| || !IsSpace(s[i]) then i else SkipSpaces(s, i + 1)
  }

  /** The end of the run of digits starting at i. */
  function DigitRun(s: string, i: nat): (j: nat)
    requires i <= |s|
    ensures i <= j <= |s| && (j < |s| ==> !IsDigit(s[j]))
    ensures AllDigits(s[i..j])
    decreases |s| - i
  {
    if i == |s| || !IsDigit(s[i]) then i
    else
      var j := DigitRun(s, i + 1);
      assert s[i..j] == [s[i]] + s[i + 1..j];
      j
  }

  /** `strtoul` in base 10: leading white space and one sign are skipped,
      the digits after them are read, a minus sign negates modulo 2^64, a
      value beyond the range saturates at ULONG_MAX, and text without digits
      gives 0. */
  function Strtoul(s: string): (r: u64)
    ensures var i := SkipSpaces(s, 0);
            var j := if i < |s| && (s[i] == '+' || s[i] == '-') then i + 1 else i;
            DigitRun(s, j) == j ==> r == 0
  {
    var i := SkipSpaces(s, 0);
    var negative := i < |s| && s[i] == '-';
    var j := if i < |s| && (s[i] == '+' || s[i] == '-') then i + 1 else i;
    var k := DigitRun(s, j);
    if k == j then 0
    else
      var v := DecimalValue(s[j..k]);
      if v > ULONG_MAX then ULONG_MAX
      else if negative then (TWO_64 - v) % TWO_64
      else v
  }

  /** The port `from_string` passes to `set_port`: the unsigned long of
      `strtoul`, converted to int (truncated to 32 bits, two's
      complement). */
  function PortOfText(s: string): (p: i32)
    ensures Strtoul(s) < 0x8000_0000 ==> p == Strtoul(s)
  {
    ToSigned32(U32(Strtoul(s)))
  }

  // ---------------------------------------------------------------------
  // from_string

  /** Index of the last occurrence of d in s, if any (`std::string::rfind`). */
  function FindLast(s: string, d: char): (r: Option<nat>)
    ensures r.Some? <==> d in s
    ensures r.Some? ==> r.value < |s| && s[r.value] == d && d !in s[r.value + 1..]
    decreases |s|
  {
    if |s| == 0 then None
    else if s[|s| - 1] == d then Some(|s| - 1)
    else
      var r := FindLast(s[..|s| - 1], d);
      assert r.Some? ==> s[r.value + 1..] == s[..|s| - 1][r.value + 1..] + [s[|s| - 1]];
      assert r.None? ==> s == s[..|s| - 1] + [s[|s| - 1]];
      r
  }

  /** What `from_string` produces: its result and the address after. */
  datatype Parsed = Parsed(ok: bool, addr: Address)

  /** `from_string`. Text starting with '[' is `[host]...:port`, the host
      ending at the last ']' and the port following the first ':' after it;
      without a ']' nothing changes and the result is true. Other text is
      `host:port`, split at the first ':'. The port goes through `set_port`
      (so an out-of-range port leaves the old one), then the host through
      `set_IP`. The source reads the first character unchecked, so the text
      must not be empty. */
  function FromString(a: Address, str: string, parse: IPParser): (r: Parsed)
    requires |str| > 0
    ensures str[0] == '[' && ']' !in str ==> r == Parsed(true, a)
    ensures !r.ok ==> r.addr == a
    ensures str[0] != '[' ==> (r.ok <==> ':' in str)
    ensures str[0] != '[' && r.ok ==>
              |r.addr.hostname| < |str| && ':' !in r.addr.hostname &&
              str[..|r.addr.hostname| + 1] == r.addr.hostname + ":" &&
              r.addr == SetHostname(SetPort(a, PortOfText(str[|r.addr.hostname| + 1..])), r.addr.hostname, parse)
    ensures str[0] == '[' && ']' in str ==>
              var close := FindLast(str, ']').value;
              (r.ok <==> ':' in str[close..]) &&
              (r.ok ==> r.addr.hostname == str[1..close] && ']' !in str[close + 1..])
  {
    if str[0] == '[' then FromBracketed(a, str, parse) else FromPlain(a, str, parse)
  }

  /** `from_string` on text starting with '['. */
  function FromBracketed(a: Address, str: string, parse: IPParser): (r: Parsed)
    requires |str| > 0 && str[0] == '['
    ensures ']' !in str ==> r == Parsed(true, a)
    ensures !r.ok ==> r.addr == a
    ensures ']' in str ==>
              var close := FindLast(str, ']').value;
              (r.ok <==> ':' in str[close..]) &&
              (r.ok ==> r.addr.hostname == str[1..close] && ']' !in str[close + 1..])
  {
    match FindLast(str, ']')
    case None => Parsed(true, a)
    case Some(close) =>
      match StringEncode.Find(str[close..], ':')
      case None => Parsed(false, a)
      case Some(offset) =>
        var colon := close + offset;
        var withPort := SetPort(a, PortOfText(str[colon + 1..]));
        Parsed(true, SetHostname(withPort, str[1..close], parse))
  }

  /** `from_string` on text not starting with '['. */
  function FromPlain(a: Address, str: string, parse: IPParser): (r: Parsed)
    ensures !r.ok ==> r.addr == a
    ensures r.ok <==> ':' in str
    ensures r.ok ==>
              |r.addr.hostname| < |str| && ':' !in r.addr.hostname &&
              str[..|r.addr.hostname| + 1] == r.addr.hostname + ":" &&
              r.addr == SetHostname(SetPort(a, PortOfText(str[|r.addr.hostname| + 1..])), r.addr.hostname, parse)
  {
    match StringEncode.Find(str, ':')
    case None => Parsed(false, a)
    case Some(pos) =>
      var withPort := SetPort(a, PortOfText(str[pos + 1..]));
      assert str[..pos + 1] == str[..pos] + ":";
      Parsed(true, SetHostname(withPort, str[..pos], parse))
  }

  // ---------------------------------------------------------------------
  // Comparison

  /** `equal_IPs`: the same address, and the same name too when the address
      is any or unspecified. */
  function EqualIPs(a: Address, b: Address): (r: bool)
    ensures r <==> a.ip == b.ip && (IpAddress.IsAny(a.ip) || IpAddress.IsUnspec(a.ip) ==> a.hostname == b.hostname)
  {
    IpAddress.Equal(a.ip, b.ip) &&
    ((!IpAddress.IsAny(a.ip) && !IpAddress.IsUnspec(a.ip)) || a.hostname == b.hostname)
  }

  /** `equal_ports`. */
  function EqualPorts(a: Address, b: Address): (r: bool)
    ensures r <==> a.port == b.port
  {
    a.port == b.port
  }

  /** `operator==`. */
  function Equal(a: Address, b: Address): (r: bool)
    ensures r <==> EqualIPs(a, b) && EqualPorts(a, b)
  {
    EqualIPs(a, b) && EqualPorts(a, b)
  }

  /** `std::string`'s `operator<`: lexicographic, a proper prefix first. */
  function StringLess(x: string, y: string): (r: bool)
    ensures r ==> x != y
    decreases |x|
  {
    if |x| == 0 then |y| > 0
    else if |y| == 0 then false
    else if x[0] != y[0] then x[0] < y[0]
    else StringLess(x[1..], y[1..])
  }

  /** `operator<`: by address; then, for an any or unspecified address, by
      name; then by port. */
  function Less(a: Address, b: Address): bool {
    if !IpAddress.Equal(a.ip, b.ip) then IpAddress.Less(a.ip, b.ip)
    else if (IpAddress.IsAny(a.ip) || IpAddress.IsUnspec(a.ip)) && a.hostname != b.hostname then
      StringLess(a.hostname, b.hostname)
    else a.port < b.port
  }

  // ---------------------------------------------------------------------
  // Properties

  /** Clearing gives the nil address whatever the address was, and nil is
      exactly no name, no address and port 0. */
  lemma ClearIsNil(a: Address)
    ensures IsNil(a) <==> a.hostname == [] && a.ip.Unspec? && a.port == 0
    ensures IsNil(Clear()) && !IsUnresolved(Clear())
  {
  }

  /** A name that is not an IP literal leaves the address unresolved; an
      address set directly never is. */
  lemma ResolvedState(a: Address, hostname: string, ip: IPAddress, parse: IPParser)
    ensures IsUnresolved(SetHostname(a, hostname, parse)) <==> parse(hostname).None? && hostname != []
    ensures !IsUnresolved(SetIP(a, ip))
  {
  }

  /** Setting a valid port and then the address, in either order, gives the
      same address: the two setters touch different fields. */
  lemma SettersCommute(a: Address, port: int, hostname: string, parse: IPParser)
    ensures SetPort(SetHostname(a, hostname, parse), port) == SetHostname(SetPort(a, port), hostname, parse)
  {
  }

  /** `==` is an equivalence relation. */
  lemma EqualIsEquivalence(a: Address, b: Address, c: Address)
    ensures Equal(a, a)
    ensures Equal(a, b) ==> Equal(b, a)
    ensures Equal(a, b) && Equal(b, c) ==> Equal(a, c)
  {
  }

  /** Two addresses with the same fields apart from the name are equal
      unless the address is any or unspecified. */
  lemma NameMattersOnlyWithoutAddress(a: Address, name: string)
    ensures Equal(a, a.(hostname := name)) <==>
              name == a.hostname || (!IpAddress.IsAny(a.ip) && !IpAddress.IsUnspec(a.ip))
  {
  }

  /** The string order is a strict total order. */
  lemma {:induction false} StringLessIsStrictTotalOrder(x: string, y: string, z: string)
    ensures !StringLess(x, x)
    ensures StringLess(x, y) && StringLess(y, z) ==> StringLess(x, z)
    ensures x != y ==> StringLess(x, y) || StringLess(y, x)
    ensures !(StringLess(x, y) && StringLess(y, x))
    decreases |x|
  {
    if |x| > 0 && |y| > 0 && |z| > 0 {
      StringLessIsStrictTotalOrder(x[1..], y[1..], z[1..]);
      if x[0] == y[0] && x != y {
        assert x == [x[0]] + x[1..] && y == [y[0]] + y[1..];
      }
    } else if |x| > 0 && |y| > 0 {
      StringLessIsStrictTotalOrder(x[1..], y[1..], y[1..]);
      if x[0] == y[0] && x != y {
        assert x == [x[0]] + x[1..] && y == [y[0]] + y[1..];
      }
    }
  }

  /** `<` is a strict order, and two addresses are `==` exactly when
      neither is less than the other: `<` and `==` agree on which fields
      matter. */
  lemma LessAgreesWithEqual(a: Address, b: Address)
    ensures !Less(a, a)
    ensures Equal(a, b) <==> !Less(a, b) && !Less(b, a)
  {
    IpAddress.LessIsStrictTotalOrder(a.ip, b.ip, b.ip);
    StringLessIsStrictTotalOrder(a.hostname, b.hostname, b.hostname);
    StringLessIsStrictTotalOrder(a.hostname, a.hostname, a.hostname);
  }

  /** `<` is transitive. */
  lemma LessIsTransitive(a: Address, b: Address, c: Address)
    requires Less(a, b) && Less(b, c)
    ensures Less(a, c)
  {
    IpAddress.LessIsStrictTotalOrder(a.ip, b.ip, c.ip);
    IpAddress.LessIsStrictTotalOrder(a.ip, c.ip, b.ip);
    StringLessIsStrictTotalOrder(a.hostname, b.hostname, c.hostname);
  }

  /** Digits and their values. */
  lemma {:induction false} DecimalRoundTrip(n: nat)
    ensures DecimalValue(DecimalText(n)) == n
    decreases n
  {
    if n >= 10 {
      var s := DecimalText(n);
      assert s[..|s| - 1] == DecimalText(n / 10);
      DecimalRoundTrip(n / 10);
    }
  }

  /** `strtoul` reads back a number written in decimal, whatever follows
      the digits. */
  lemma StrtoulOfDecimal(n: nat, rest: string)
    requires n <= ULONG_MAX
    requires |rest| > 0 ==> !IsDigit(rest[0])
    ensures Strtoul(DecimalText(n) + rest) == n
  {
    var d := DecimalText(n);
    var s := d + rest;
    assert !IsSpace(s[0]) && s[0] != '+' && s[0] != '-';
    assert SkipSpaces(s, 0) == 0;
    DigitsRunToEnd(s, 0, |d|);
    assert s[0..|d|] == d;
    DecimalRoundTrip(n);
  }

  lemma {:induction false} DigitsRunToEnd(s: string, i: nat, k: nat)
    requires i <= k <= |s|
    requires AllDigits(s[i..k]) && (k < |s| ==> !IsDigit(s[k]))
    ensures DigitRun(s, i) == k
    decreases k - i
  {
    if i < k {
      assert IsDigit(s[i]) by {
        assert s[i..k][0] == s[i];
      }
      assert s[i + 1..k] == s[i..k][1..];
      DigitsRunToEnd(s, i + 1, k);
    }
  }

  /** A port written in decimal is read back by `from_string`. */
  lemma PortRoundTrip(port: u16)
    ensures PortOfText(DecimalText(port)) == port
  {
    StrtoulOfDecimal(port, []);
    assert DecimalText(port) + [] == DecimalText(port);
  }

  /** `find` stops at the first occurrence. */
  lemma {:induction false} FindAt(s: string, d: char, k: nat)
    requires k < |s| && s[k] == d && d !in s[..k]
    ensures StringEncode.Find(s, d) == Some(k)
  {
    if k > 0 {
      assert s[0] in s[..k];
      assert s[1..][..k - 1] == s[1..k];
      FindAt(s[1..], d, k - 1);
    }
  }

  /** `rfind` stops at the last occurrence. */
  lemma {:induction false} FindLastAt(s: string, d: char, k: nat)
    requires k < |s| && s[k] == d && d !in s[k + 1..]
    ensures FindLast(s, d) == Some(k)
    decreases |s|
  {
    if k < |s| - 1 {
      assert s[|s| - 1] in s[k + 1..];
      assert s[..|s| - 1][k + 1..] == s[k + 1..|s| - 1];
      FindLastAt(s[..|s| - 1], d, k);
    }
  }

  /** The port text is not range-checked before the conversion to int: a
      number 2^32 above a valid port (4294967376 for port 80) passes
      `set_port` as that port. */
  lemma OversizedPortWraps(a: Address, host: string, port: u16, parse: IPParser)
    requires ':' !in host && (|host| > 0 ==> host[0] != '[')
    ensures FromString(a, host + ":" + DecimalText(port + TWO_32), parse) ==
              Parsed(true, SetHostname(SetPort(a, port), host, parse))
  {
    var digits := DecimalText(port + TWO_32);
    var str := host + ":" + digits;
    assert PortOfText(digits) == port by {
      StrtoulOfDecimal(port + TWO_32, []);
      assert digits + [] == digits;
      hide Strtoul, DecimalText;
      DivUnique(port + TWO_32, TWO_32, 1, port);
    }
    assert str[..|host|] == host;
    assert str[|host| + 1..] == digits;
    hide PortOfText, DecimalText;
    FindAt(str, ':', |host|);
  }

  /** `host:port` with a host free of ':' not starting with '[' parses back
      to that host and port. */
  lemma FromStringPlain(a: Address, host: string, port: u16, parse: IPParser)
    requires ':' !in host && (|host| > 0 ==> host[0] != '[')
    ensures FromString(a, host + ":" + DecimalText(port), parse) ==
              Parsed(true, SetHostname(SetPort(a, port), host, parse))
  {
    var str := host + ":" + DecimalText(port);
    assert str[..|host|] == host;
    FindAt(str, ':', |host|);
    assert str[|host| + 1..] == DecimalText(port);
    PortRoundTrip(port);
  }

  /** `[host]:port` with a host free of ']' parses back to that host and
      port. */
  lemma FromStringBracketed(a: Address, host: string, port: u16, parse: IPParser)
    requires ']' !in host
    ensures FromString(a, "[" + host + "]:" + DecimalText(port), parse) ==
              Parsed(true, SetHostname(SetPort(a, port), host, parse))
  {
    var digits := DecimalText(port);
    var str := "[" + host + "]:" + digits;
    var close := |host| + 1;
    assert str[close + 2..] == digits && str[1..close] == host;
    assert ']' !in str[close + 1..] by {
      assert str[close + 1..] == [':'] + digits;
    }
    FindLastAt(str, ']', close);
    assert str[close..] == "]:" + digits;
    FindAt(str[close..], ':', 1);
    hide FindLast, StringEncode.Find;
    PortRoundTrip(port);
  }

  /** An address named by a host name that is not an IP literal, as
      `set_IP` leaves it, with a name `from_string` can split off. */
  predicate NamedForm(a: Address, parse: IPParser) {
    !a.literal && a.hostname != [] && ':' !in a.hostname && a.hostname[0] != '[' &&
    parse(a.hostname).None? && a.ip.Unspec? && a.scopeId == 0
  }

  /** An address named by the text of its IP address, when printing and
      parsing the address agree and the text can be split off. */
  predicate LiteralForm(a: Address, show: IPPrinter, parse: IPParser) {
    a.literal && a.hostname == show(a.ip) && parse(show(a.ip)) == Some(a.ip) && a.scopeId == 0 &&
    (a.ip.V6? ==> ']' !in show(a.ip)) &&
    (!a.ip.V6? ==> ':' !in show(a.ip) && (|show(a.ip)| > 0 ==> show(a.ip)[0] != '['))
  }

  /** The text form of an address parses back to it, whatever address
      `from_string` is applied to. */
  lemma ToStringRoundTrip(a: Address, b: Address, show: IPPrinter, parse: IPParser)
    requires NamedForm(a, parse) || LiteralForm(a, show, parse)
    ensures FromString(b, ToString(a, show), parse) == Parsed(true, a)
  {
    if NamedForm(a, parse) {
      assert ToString(a, show) == a.hostname + ":" + DecimalText(a.port);
      assert SetHostname(SetPort(b, a.port), a.hostname, parse) == a;
      hide *;
      FromStringPlain(b, a.hostname, a.port, parse);
    } else if a.ip.V6? {
      assert ToString(a, show) == "[" + show(a.ip) + "]:" + DecimalText(a.port);
      assert SetHostname(SetPort(b, a.port), show(a.ip), parse) == a;
      hide *;
      FromStringBracketed(b, show(a.ip), a.port, parse);
    } else {
      assert ToString(a, show) == show(a.ip) + ":" + DecimalText(a.port);
      assert SetHostname(SetPort(b, a.port), show(a.ip), parse) == a;
      hide *;
      FromStringPlain(b, show(a.ip), a.port, parse);
    }
  }
}
