/** Big- and little-endian packing of 16-, 32- and 64-bit integers into
    memory, and the host/network conversions built from them. The width in
    bytes is a parameter: 2, 4 and 8 give the source's three variants. */
module ByteOrder {
  import opened Ints

  /** `set_be*`: the bytes of v, most significant first. */
  function SetBE(width: nat, v: nat): (r: seq<byte>)
    requires v < Pow256(width)
    ensures |r| == width
    ensures width > 0 ==> r[width - 1] == v % 256
    decreases width
  {
    if width == 0 then [] else SetBE(width - 1, v / 256) + [v % 256]
  }

  /** `get_be*`: the value of bytes read most significant first. */
  function GetBE(b: seq<byte>): (r: nat)
    ensures r < Pow256(|b|)
    decreases |b|
  {
    if |b| == 0 then 0
    else
      var hi := GetBE(b[..|b| - 1]);
      assert hi * 256 + b[|b| - 1] < Pow256(|b|) by {
        assert hi <= Pow256(|b| - 1) - 1;
      }
      hi * 256 + b[|b| - 1]
  }

  /** `set_le*`: the bytes of v, least significant first. */
  function SetLE(width: nat, v: nat): (r: seq<byte>)
    requires v < Pow256(width)
    ensures |r| == width
    ensures width > 0 ==> r[0] == v % 256
    decreases width
  {
    if width == 0 then [] else [v % 256] + SetLE(width - 1, v / 256)
  }

  /** `get_le*`: the value of bytes read least significant first. */
  function GetLE(b: seq<byte>): (r: nat)
    ensures r < Pow256(|b|)
    decreases |b|
  {
    if |b| == 0 then 0
    else
      var hi := GetLE(b[1..]);
      assert b[0] + 256 * hi < Pow256(|b|) by {
        assert hi <= Pow256(|b| - 1) - 1;
      }
      b[0] + 256 * hi
  }

  function Reverse<T>(s: seq<T>): (r: seq<T>)
    ensures |r| == |s|
    ensures forall i :: 0 <= i < |s| ==> r[i] == s[|s| - 1 - i]
  {
    if |s| == 0 then [] else [s[|s| - 1]] + Reverse(s[..|s| - 1])
  }

  /** Reading back what `set_be*` wrote gives the value. */
  lemma {:induction false} GetSetBE(width: nat, v: nat)
    requires v < Pow256(width)
    ensures GetBE(SetBE(width, v)) == v
    decreases width
  {
    if width > 0 {
      var b := SetBE(width, v);
      assert b[..width - 1] == SetBE(width - 1, v / 256);
      GetSetBE(width - 1, v / 256);
    }
  }

  /** Writing back what `get_be*` read gives the bytes. */
  lemma {:induction false} SetGetBE(b: seq<byte>)
    ensures SetBE(|b|, GetBE(b)) == b
    decreases |b|
  {
    if |b| > 0 {
      var n := |b|;
      var hi := GetBE(b[..n - 1]);
      assert (hi * 256 + b[n - 1]) / 256 == hi;
      assert (hi * 256 + b[n - 1]) % 256 == b[n - 1];
      SetGetBE(b[..n - 1]);
      assert b == b[..n - 1] + [b[n - 1]];
    }
  }

  /** Reading back what `set_le*` wrote gives the value. */
  lemma {:induction false} GetSetLE(width: nat, v: nat)
    requires v < Pow256(width)
    ensures GetLE(SetLE(width, v)) == v
    decreases width
  {
    if width > 0 {
      var b := SetLE(width, v);
      assert b[1..] == SetLE(width - 1, v / 256);
      GetSetLE(width - 1, v / 256);
    }
  }

  /** Writing back what `get_le*` read gives the bytes. */
  lemma {:induction false} SetGetLE(b: seq<byte>)
    ensures SetLE(|b|, GetLE(b)) == b
    decreases |b|
  {
    if |b| > 0 {
      var hi := GetLE(b[1..]);
      assert (b[0] + 256 * hi) / 256 == hi;
      assert (b[0] + 256 * hi) % 256 == b[0];
      SetGetLE(b[1..]);
      assert b == [b[0]] + b[1..];
    }
  }

  /** `set_be*` writes the most significant byte first. */
  lemma {:induction false} SetBEFirstByte(width: nat, v: nat)
    requires 0 < width && v < Pow256(width)
    ensures SetBE(width, v)[0] == v / Pow256(width - 1)
    decreases width
  {
    if width > 1 {
      SetBEFirstByte(width - 1, v / 256);
      assert SetBE(width, v)[0] == SetBE(width - 1, v / 256)[0];
      DivDiv(v, 256, Pow256(width - 2));
    }
  }

  /** The little-endian bytes of v are its big-endian bytes reversed. */
  lemma {:induction false} SetLEIsReversedSetBE(width: nat, v: nat)
    requires v < Pow256(width)
    ensures SetLE(width, v) == Reverse(SetBE(width, v))
    decreases width
  {
    if width > 0 {
      var be := SetBE(width, v);
      assert be[..width - 1] == SetBE(width - 1, v / 256);
      SetLEIsReversedSetBE(width - 1, v / 256);
    }
  }

  /** The bytes a host stores for v, in its own byte order. */
  function HostBytes(hostBigEndian: bool, width: nat, v: nat): (r: seq<byte>)
    requires v < Pow256(width)
    ensures |r| == width
  {
    if hostBigEndian then SetBE(width, v) else SetLE(width, v)
  }

  /** The value a host reads from bytes in its own byte order. */
  function HostValue(hostBigEndian: bool, b: seq<byte>): (r: nat)
    ensures r < Pow256(|b|)
  {
    if hostBigEndian then GetBE(b) else GetLE(b)
  }

  /** `host_to_network*`: the integer whose in-memory bytes are n in network
      (big-endian) order. */
  function HostToNetwork(hostBigEndian: bool, width: nat, n: nat): (r: nat)
    requires n < Pow256(width)
    ensures r < Pow256(width)
    ensures HostBytes(hostBigEndian, width, r) == SetBE(width, n)
  {
    var r := HostValue(hostBigEndian, SetBE(width, n));
    SetGetBE(SetBE(width, n));
    SetGetLE(SetBE(width, n));
    r
  }

  /** `network_to_host*`: the integer whose big-endian reading is the
      in-memory bytes of n. */
  function NetworkToHost(hostBigEndian: bool, width: nat, n: nat): (r: nat)
    requires n < Pow256(width)
    ensures r < Pow256(width)
    ensures SetBE(width, r) == HostBytes(hostBigEndian, width, n)
  {
    var b := HostBytes(hostBigEndian, width, n);
    SetGetBE(b);
    GetBE(b)
  }

  /** Converting to network order and back gives the original value. */
  lemma NetworkToHostInvertsHostToNetwork(hostBigEndian: bool, width: nat, n: nat)
    requires n < Pow256(width)
    ensures NetworkToHost(hostBigEndian, width, HostToNetwork(hostBigEndian, width, n)) == n
  {
    var r := HostToNetwork(hostBigEndian, width, n);
    GetSetBE(width, NetworkToHost(hostBigEndian, width, r));
    GetSetBE(width, n);
  }

  /** On a big-endian host the conversion is the identity. */
  lemma HostToNetworkOnBigEndianHost(width: nat, n: nat)
    requires n < Pow256(width)
    ensures HostToNetwork(true, width, n) == n
  {
    GetSetBE(width, n);
  }

  /** On a little-endian host the conversion reverses the bytes. */
  lemma HostToNetworkOnLittleEndianHost(width: nat, n: nat)
    requires n < Pow256(width)
    ensures SetBE(width, HostToNetwork(false, width, n)) == Reverse(SetBE(width, n))
  {
    var r := HostToNetwork(false, width, n);
    SetLEIsReversedSetBE(width, r);
    assert SetLE(width, r) == SetBE(width, n);
    assert Reverse(SetBE(width, r)) == SetBE(width, n);
    var a := SetBE(width, r);
    assert Reverse(Reverse(a)) == a;
  }
}
