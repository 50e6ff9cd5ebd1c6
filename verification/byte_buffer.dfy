/** `ByteBufferWriter` and `ByteBufferReader`: a growable byte buffer that
    serialises integers in network or host byte order, and a cursor that
    reads them back. The host is fixed to be little-endian. */
module ByteBuffer {
  import opened Ints
  import opened Wrappers
  import opened ByteOrder

  datatype Order = OrderNetwork | OrderHost

  /** The byte order of the modelled host. */
  const HOST_BIG_ENDIAN := false
  const DEFAULT_SIZE := 4096

  // ---------------------------------------------------------------------
  // Fixed-width integers

  /** The bytes `write_uint16/32/64` copy out of the converted integer: in
      network order its in-memory bytes after `host_to_network*`, in host
      order the host's own bytes. */
  function EncodeInt(order: Order, width: nat, v: nat): (b: seq<byte>)
    requires v < Pow256(width)
    ensures |b| == width
    ensures order == OrderNetwork ==> b == SetBE(width, v)
  {
    var converted := if order == OrderNetwork then HostToNetwork(HOST_BIG_ENDIAN, width, v) else v;
    HostBytes(HOST_BIG_ENDIAN, width, converted)
  }

  /** The value `read_uint16/32/64` makes of the bytes it copied in. */
  function DecodeInt(order: Order, b: seq<byte>): (v: nat)
    ensures v < Pow256(|b|)
  {
    var raw := HostValue(HOST_BIG_ENDIAN, b);
    if order == OrderNetwork then NetworkToHost(HOST_BIG_ENDIAN, |b|, raw) else raw
  }

  /** Reading back the bytes written gives the value, in either order. */
  lemma DecodeEncodeInt(order: Order, width: nat, v: nat)
    requires v < Pow256(width)
    ensures DecodeInt(order, EncodeInt(order, width, v)) == v
  {
    var b := EncodeInt(order, width, v);
    if order == OrderNetwork {
      SetGetLE(b);
      var r := DecodeInt(order, b);
      GetSetBE(width, r);
      GetSetBE(width, v);
    } else {
      GetSetLE(width, v);
    }
  }

  /** `write_uint24`: the 32-bit value is converted as for `write_uint32`
      and three of its four in-memory bytes are copied: the last three in
      network order (or on a big-endian host), the first three otherwise. */
  function EncodeUint24(order: Order, v: u32): (b: seq<byte>)
    ensures |b| == 3
    ensures order == OrderNetwork ==> b == SetBE(3, v % 0x100_0000)
  {
    Pow256Values();
    var mem := EncodeInt(order, 4, v);
    var skip := if order == OrderNetwork || HOST_BIG_ENDIAN then 1 else 0;
    if order == OrderNetwork then
      assert mem == SetBE(4, v);
      SetBEBytes(v);
      SetBE3Bytes(v);
      mem[skip..skip + 3]
    else mem[skip..skip + 3]
  }

  /** The big-endian bytes of the low 24 bits are the value's three low
      bytes. */
  lemma SetBE3Bytes(v: u32)
    ensures SetBE(3, v % 0x100_0000) == [v / 0x1_0000 % 0x100, v / 0x100 % 0x100, v % 0x100]
  {
    Pow256Values();
    var x := v % 0x100_0000;
    var b2, b1, b0 := v / 0x1_0000 % 0x100, v / 0x100 % 0x100, v % 0x100;
    Uint24Digits(v);
    DivUnique(x, 0x100, b2 * 0x100 + b1, b0);
    DivUnique(x / 0x100, 0x100, b2, b1);
    assert SetBE(3, x) == SetBE(2, x / 256) + [b0];
    assert SetBE(2, x / 256) == SetBE(1, b2) + [b1];
    assert SetBE(1, b2) == SetBE(0, 0) + [b2];
  }

  /** `read_uint24`: the three bytes go into a zeroed 32-bit integer at the
      same offset `write_uint24` copied them from, which is then converted
      as for `read_uint32`. */
  function DecodeUint24(order: Order, b: seq<byte>): (v: nat)
    requires |b| == 3
    ensures v < TWO_32
  {
    Pow256Values();
    var mem := if order == OrderNetwork || HOST_BIG_ENDIAN then [0] + b else b + [0];
    DecodeInt(order, mem)
  }

  /** A 24-bit round trip keeps the low 24 bits of the value. */
  lemma DecodeEncodeUint24(order: Order, v: u32)
    ensures DecodeUint24(order, EncodeUint24(order, v)) == v % 0x100_0000
  {
    if order == OrderNetwork {
      Uint24Network(v);
    } else {
      Uint24Host(v);
    }
  }

  lemma Uint24Network(v: u32)
    ensures DecodeUint24(OrderNetwork, EncodeUint24(OrderNetwork, v)) == v % 0x100_0000
  {
    Pow256Values();
    var b2, b1, b0 := v / 0x1_0000 % 0x100, v / 0x100 % 0x100, v % 0x100;
    var mem := EncodeInt(OrderNetwork, 4, v);
    assert mem == SetBE(4, v);
    SetBEBytes(v);
    hide SetBE, GetBE, SetLE, GetLE, HostToNetwork, NetworkToHost, EncodeInt, Pow256;
    assert EncodeUint24(OrderNetwork, v) == [b2, b1, b0];
    assert [0] + [b2, b1, b0] == [0, b2, b1, b0];
    DecodeNetworkInt([0, b2, b1, b0]);
    GetBE4(0, b2, b1, b0);
    Uint24Digits(v);
  }

  lemma Uint24Host(v: u32)
    ensures DecodeUint24(OrderHost, EncodeUint24(OrderHost, v)) == v % 0x100_0000
  {
    Pow256Values();
    var b2, b1, b0 := v / 0x1_0000 % 0x100, v / 0x100 % 0x100, v % 0x100;
    var mem := EncodeInt(OrderHost, 4, v);
    assert mem == SetLE(4, v);
    SetLEBytes(v);
    hide SetBE, GetBE, SetLE, GetLE, HostToNetwork, NetworkToHost, EncodeInt, Pow256;
    assert EncodeUint24(OrderHost, v) == [b0, b1, b2];
    assert [b0, b1, b2] + [0] == [b0, b1, b2, 0];
    assert DecodeInt(OrderHost, [b0, b1, b2, 0]) == GetLE([b0, b1, b2, 0]);
    GetLE4(b0, b1, b2, 0);
    Uint24Digits(v);
  }

  /** In network order the bytes read are taken most significant first. */
  lemma DecodeNetworkInt(b: seq<byte>)
    ensures DecodeInt(OrderNetwork, b) == GetBE(b)
  {
    SetGetLE(b);
    GetSetBE(|b|, DecodeInt(OrderNetwork, b));
  }

  lemma GetBE4(a: byte, b: byte, c: byte, d: byte)
    ensures GetBE([a, b, c, d]) == a * 0x100_0000 + b * 0x1_0000 + c * 0x100 + d
  {
    assert [a][..0] == [];
    assert GetBE([a]) == a;
    assert [a, b][..1] == [a];
    assert GetBE([a, b]) == a * 0x100 + b;
    assert [a, b, c][..2] == [a, b];
    assert GetBE([a, b, c]) == a * 0x1_0000 + b * 0x100 + c;
    assert [a, b, c, d][..3] == [a, b, c];
  }

  lemma GetLE4(a: byte, b: byte, c: byte, d: byte)
    ensures GetLE([a, b, c, d]) == a + b * 0x100 + c * 0x1_0000 + d * 0x100_0000
  {
    assert [d][1..] == [];
    assert GetLE([d]) == d;
    assert [c, d][1..] == [d];
    assert GetLE([c, d]) == c + d * 0x100;
    assert [b, c, d][1..] == [c, d];
    assert GetLE([b, c, d]) == b + c * 0x100 + d * 0x1_0000;
    assert [a, b, c, d][1..] == [b, c, d];
  }

  /** The low 24 bits of v are its three low bytes. */
  lemma Uint24Digits(v: nat)
    ensures v % 0x100_0000 == v / 0x1_0000 % 0x100 * 0x1_0000 + v / 0x100 % 0x100 * 0x100 + v % 0x100
  {
    DivDiv(v, 0x100, 0x100);
    DivDiv(v, 0x1_0000, 0x100);
    var b2, b1, b0 := v / 0x1_0000 % 0x100, v / 0x100 % 0x100, v % 0x100;
    assert v == v / 0x100 * 0x100 + b0;
    assert v / 0x100 == v / 0x1_0000 * 0x100 + b1;
    assert v / 0x1_0000 == v / 0x100_0000 * 0x100 + b2;
    DivUnique(v, 0x100_0000, v / 0x100_0000, b2 * 0x1_0000 + b1 * 0x100 + b0);
  }

  lemma SetBEBytes(v: u32)
    ensures SetBE(4, v) == [v / 0x100_0000, v / 0x1_0000 % 0x100, v / 0x100 % 0x100, v % 0x100]
  {
    Pow256Values();
    DivDiv(v, 0x100, 0x100);
    DivDiv(v, 0x1_0000, 0x100);
  }

  lemma SetLEBytes(v: u32)
    ensures SetLE(4, v) == [v % 0x100, v / 0x100 % 0x100, v / 0x1_0000 % 0x100, v / 0x100_0000]
  {
    Pow256Values();
    DivDiv(v, 0x100, 0x100);
    DivDiv(v, 0x1_0000, 0x100);
  }

  // ---------------------------------------------------------------------
  // Unsigned varints

  /** w shifted left by 7k bits, unbounded: w times 128^k, defined
      without a product of two variables. */
  function Shl7(w: nat, k: nat): (r: nat)
    ensures r >= w
    decreases k
  {
    if k == 0 then w else Shl7(0x80 * w, k - 1)
  }

  lemma {:induction false} Shl7Add(a: nat, b: nat, k: nat)
    ensures Shl7(a + b, k) == Shl7(a, k) + Shl7(b, k)
    decreases k
  {
    if k > 0 {
      Shl7Add(0x80 * a, 0x80 * b, k - 1);
    }
  }

  lemma {:induction false} Shl7Scale(a: nat, k: nat)
    ensures Shl7(0x80 * a, k) == 0x80 * Shl7(a, k)
    decreases k
  {
    if k > 0 {
      Shl7Scale(0x80 * a, k - 1);
    }
  }

  lemma Shl7Mono(a: nat, b: nat, k: nat)
    requires a <= b
    ensures Shl7(a, k) <= Shl7(b, k)
  {
    Shl7Add(a, b - a, k);
  }

  lemma {:induction false} Shl7Grows(w: nat, j: nat, k: nat)
    requires j <= k
    ensures Shl7(w, j) <= Shl7(w, k)
    decreases k
  {
    if j < k {
      Shl7Grows(w, j, k - 1);
      Shl7Scale(w, k - 1);
    }
  }

  /** The weights of the groups at shifts 56 and 63. */
  lemma Shl7Values(h: nat)
    ensures Shl7(1, 8) == 0x100_0000_0000_0000
    ensures Shl7(h, 9) == h * 0x8000_0000_0000_0000
  {
    assert Shl7(1, 9) == 0x8000_0000_0000_0000;
    Shl7Linear(h, 9);
  }

  lemma {:induction false} Shl7Linear(h: nat, k: nat)
    ensures Shl7(h, k) == h * Shl7(1, k)
    decreases k
  {
    if k > 0 {
      Shl7Linear(0x80 * h, k - 1);
      Shl7Linear(0x80, k - 1);
    }
  }

  /** `write_uvarint`: seven bits at a time, least significant first, the
      high bit set on every byte but the last. The source writes the low
      eight bits of the value or'ed with 0x80, which is the low seven bits
      plus 0x80. */
  function UvarintBytes(v: nat): (b: seq<byte>)
    ensures 1 <= |b| && b[|b| - 1] < 0x80
    ensures forall k :: 0 <= k < |b| - 1 ==> b[k] >= 0x80
    decreases v
  {
    if v < 0x80 then [v]
    else [v % 0x80 + 0x80] + UvarintBytes(v / 0x80)
  }

  /** A value below 128^n takes at most n bytes; so a 64-bit value takes
      at most 10. */
  lemma {:induction false} UvarintLength(v: nat, n: nat)
    requires 1 <= n && v < Shl7(1, n)
    ensures |UvarintBytes(v)| <= n
    decreases n
  {
    if v >= 0x80 {
      assert n > 1;
      Shl7Scale(1, n - 1);
      UvarintLength(v / 0x80, n - 1);
    }
  }

  lemma UvarintAtMostTenBytes(v: u64)
    ensures |UvarintBytes(v)| <= 10
  {
    Shl7Values(1);
    Shl7Scale(1, 9);
    UvarintLength(v, 10);
  }

  /** The outcome of `read_uvarint`: the value, if one was read, and the
      number of bytes consumed either way (a failed read does not give back
      the bytes it took). */
  datatype VarintRead = VarintRead(value: Option<u64>, consumed: nat)

  /** `static_cast<uint64_t>(byte & 0x7F) << i` for the shift i = 7k: the
      group cut to 64 bits (only at k = 9 does anything fall off). */
  function Shifted(b: byte, k: nat): (x: nat)
    requires k <= 9
    ensures x < TWO_64
  {
    Shl7(b % 0x80, k) % TWO_64
  }

  /** The loop of `read_uvarint` from its k-th iteration (shift 7k) with
      the bits gathered so far: each shifted group is or'ed in; the bit
      ranges are disjoint, so the or is a sum. It fails when the input
      ends, or when the tenth byte (shift 63) still has its continuation
      bit. */
  function ReadUvarintFrom(data: seq<byte>, k: nat, acc: nat): (r: VarintRead)
    requires k <= 10 && k <= |data| && acc < Shl7(1, k) && acc < TWO_64
    ensures k <= r.consumed <= |data| && r.consumed <= 10
    decreases 10 - k
  {
    if k == 10 || k >= |data| then VarintRead(None, k)
    else
      var b := data[k];
      VarintAccStep(acc, b, k);
      var v := acc + Shifted(b, k);
      if b < 0x80 then VarintRead(Some(v), k + 1)
      else ReadUvarintFrom(data, k + 1, v)
  }

  /** The loop ends, without a value, at the end of the input or after
      ten bytes. */
  lemma ReadUvarintEnd(data: seq<byte>, k: nat, acc: nat)
    requires k <= 10 && k <= |data| && acc < Shl7(1, k) && acc < TWO_64
    requires k == 10 || k == |data|
    ensures ReadUvarintFrom(data, k, acc) == VarintRead(None, k)
  {
  }

  /** One iteration of the loop. */
  lemma ReadUvarintStep(data: seq<byte>, k: nat, acc: nat)
    requires k < 10 && k < |data| && acc < Shl7(1, k) && acc < TWO_64
    ensures acc + Shifted(data[k], k) < Shl7(1, k + 1) && acc + Shifted(data[k], k) < TWO_64
    ensures ReadUvarintFrom(data, k, acc) ==
            if data[k] < 0x80 then VarintRead(Some(acc + Shifted(data[k], k)), k + 1)
            else ReadUvarintFrom(data, k + 1, acc + Shifted(data[k], k))
  {
    VarintAccStep(acc, data[k], k);
  }

  /** Every byte the read takes before its last has the continuation
      bit. */
  lemma {:induction false} ReadUvarintContinues(data: seq<byte>, k: nat, acc: nat)
    requires k <= 10 && k <= |data| && acc < Shl7(1, k) && acc < TWO_64
    ensures var r := ReadUvarintFrom(data, k, acc);
            forall j :: k <= j < r.consumed - 1 ==> data[j] >= 0x80
    decreases 10 - k
  {
    hide ReadUvarintFrom, Shifted, Shl7;
    if k < 10 && k < |data| {
      ReadUvarintStep(data, k, acc);
      var v := acc + Shifted(data[k], k);
      if data[k] >= 0x80 {
        ReadUvarintContinues(data, k + 1, v);
        var r := ReadUvarintFrom(data, k, acc);
        assert r == ReadUvarintFrom(data, k + 1, v);
        forall j | k <= j < r.consumed - 1
          ensures data[j] >= 0x80
        {
        }
      }
    } else {
      ReadUvarintEnd(data, k, acc);
    }
  }

  /** The read yields a value exactly when it stops at a byte without the
      continuation bit; it fails having taken the input up to its end or
      up to the tenth byte, the last taken being a continuation byte. */
  lemma {:induction false} ReadUvarintStops(data: seq<byte>, k: nat, acc: nat)
    requires k <= 10 && k <= |data| && acc < Shl7(1, k) && acc < TWO_64
    ensures var r := ReadUvarintFrom(data, k, acc);
            r.value.Some? ==> k < r.consumed && data[r.consumed - 1] < 0x80
    ensures var r := ReadUvarintFrom(data, k, acc);
            r.value.None? ==> (r.consumed == |data| || r.consumed == 10) &&
                              (r.consumed > k ==> data[r.consumed - 1] >= 0x80)
    decreases 10 - k
  {
    hide ReadUvarintFrom, Shifted, Shl7;
    if k < 10 && k < |data| {
      ReadUvarintStep(data, k, acc);
      var v := acc + Shifted(data[k], k);
      if data[k] >= 0x80 {
        ReadUvarintStops(data, k + 1, v);
      }
    } else {
      ReadUvarintEnd(data, k, acc);
    }
  }

  /** A group below 128 at shift 7k stays below 128^(k+1) on top of bits
      below 128^k. */
  lemma GroupFits(acc: nat, g: nat, k: nat)
    requires acc < Shl7(1, k) && g < 0x80
    ensures acc + Shl7(g, k) < Shl7(1, k + 1)
  {
    Shl7Mono(g, 0x7f, k);
    Shl7Add(1, 0x7f, k);
    Shl7Scale(1, k);
  }

  /** Adding the k-th group keeps the gathered bits below 128^(k+1) and
      inside 64 bits. */
  lemma VarintAccStep(acc: nat, b: byte, k: nat)
    requires k <= 9 && acc < Shl7(1, k)
    ensures acc + Shifted(b, k) < Shl7(1, k + 1) && acc + Shifted(b, k) < TWO_64
  {
    var h := b % 0x80;
    Shl7Values(h);
    GroupFits(acc, h, k);
    if k <= 8 {
      Shl7Grows(1, k, 8);
      Shl7Mono(h, 0x7f, k);
      Shl7Add(1, 0x7f, k);
      Shl7Scale(1, k);
      Shl7Grows(0x80, k, 8);
      Shl7Scale(1, 8);
      assert Shl7(h, k) < TWO_64;
    } else {
      Shl7Values(1);
      DivUnique(Shl7(h, k), TWO_64, h / 2, (h % 2) * 0x8000_0000_0000_0000);
    }
  }

  /** Reading the varint that `write_uvarint` wrote, at the k-th group with
      the lower groups already gathered, finishes the value and consumes
      exactly its bytes. */
  lemma {:induction false} ReadEncodedUvarint(data: seq<byte>, k: nat, acc: nat, w: nat)
    requires k <= 9 && acc < Shl7(1, k) && acc + Shl7(w, k) < TWO_64
    requires k + |UvarintBytes(w)| <= |data| && data[k..k + |UvarintBytes(w)|] == UvarintBytes(w)
    ensures ReadUvarintFrom(data, k, acc) == VarintRead(Some(acc + Shl7(w, k)), k + |UvarintBytes(w)|)
    decreases w
  {
    var e := UvarintBytes(w);
    UvarintBytesUnfold(w);
    hide ReadUvarintFrom, UvarintBytes, Shl7;
    if w < 0x80 {
      SliceCons(data, k, w, []);
      ReadLastGroup(data, k, acc, w);
    } else {
      var lo, hi := w % 0x80, w / 0x80;
      var tail := UvarintBytes(hi);
      GroupSplit(w, k, acc);
      SliceCons(data, k, lo + 0x80, tail);
      ReadNextGroup(data, k, acc, lo);
      var v := acc + Shl7(lo, k);
      ReadEncodedUvarint(data, k + 1, v, hi);
      assert v + Shl7(hi, k + 1) == acc + Shl7(w, k);
      assert k + 1 + |tail| == k + |e|;
    }
  }

  lemma UvarintBytesUnfold(w: nat)
    ensures w < 0x80 ==> UvarintBytes(w) == [w] + []
    ensures w >= 0x80 ==> UvarintBytes(w) == [w % 0x80 + 0x80] + UvarintBytes(w / 0x80)
  {
  }

  lemma SliceCons(data: seq<byte>, k: nat, x: byte, tail: seq<byte>)
    requires k + 1 + |tail| <= |data| && data[k..k + 1 + |tail|] == [x] + tail
    ensures data[k] == x && data[k + 1..k + 1 + |tail|] == tail
  {
    assert data[k] == data[k..k + 1 + |tail|][0];
    assert data[k + 1..k + 1 + |tail|] == data[k..k + 1 + |tail|][1..];
  }

  /** A value of two or more groups splits into its low group at shift 7k
      and the groups above at shift 7(k+1); within 64 bits that needs
      k <= 8. */
  lemma GroupSplit(w: nat, k: nat, acc: nat)
    requires w >= 0x80 && acc + Shl7(w, k) < TWO_64
    ensures k <= 8
    ensures Shl7(w, k) == Shl7(w % 0x80, k) + Shl7(w / 0x80, k + 1)
  {
    var hi, lo := w / 0x80, w % 0x80;
    assert w == 0x80 * hi + lo;
    Shl7Add(0x80 * hi, lo, k);
    Shl7Mono(0x80, w, k);
    Shl7Scale(1, k);
    Shl7Large(k);
  }

  lemma Shl7Large(k: nat)
    ensures k >= 9 ==> Shl7(1, k) >= 0x8000_0000_0000_0000
  {
    if k >= 9 {
      Shl7Grows(1, 9, k);
      Shl7Values(1);
    }
  }

  /** A final byte (no continuation bit) ends the read with the value. */
  lemma ReadLastGroup(data: seq<byte>, k: nat, acc: nat, w: nat)
    requires k <= 9 && acc < Shl7(1, k) && acc + Shl7(w, k) < TWO_64
    requires w < 0x80 && k < |data| && data[k] == w
    ensures ReadUvarintFrom(data, k, acc) == VarintRead(Some(acc + Shl7(w, k)), k + 1)
  {
    hide ReadUvarintFrom, Shl7, Shifted;
    DivUnique(w, 0x80, 0, w);
    ShiftedFits(data[k], k);
    ReadUvarintStep(data, k, acc);
  }

  /** A continuation byte adds its group and goes on with the next. */
  lemma ReadNextGroup(data: seq<byte>, k: nat, acc: nat, lo: nat)
    requires k <= 8 && acc < Shl7(1, k) && lo < 0x80 && k < |data| && data[k] == lo + 0x80
    requires acc + Shl7(lo, k) < TWO_64
    ensures acc + Shl7(lo, k) < Shl7(1, k + 1)
    ensures ReadUvarintFrom(data, k, acc) == ReadUvarintFrom(data, k + 1, acc + Shl7(lo, k))
  {
    hide ReadUvarintFrom, Shl7, Shifted;
    DivUnique(lo + 0x80, 0x80, 1, lo);
    ShiftedFits(data[k], k);
    ReadUvarintStep(data, k, acc);
  }

  /** A group that fits in 64 bits loses nothing to the shift. */
  lemma ShiftedFits(b: byte, k: nat)
    requires k <= 9 && Shl7(b % 0x80, k) < TWO_64
    ensures Shifted(b, k) == Shl7(b % 0x80, k)
  {
  }

  /** Any 64-bit value survives a varint round trip, whatever follows it. */
  lemma UvarintRoundTrip(v: u64, rest: seq<byte>)
    ensures ReadUvarintFrom(UvarintBytes(v) + rest, 0, 0) == VarintRead(Some(v), |UvarintBytes(v)|)
  {
    var data := UvarintBytes(v) + rest;
    assert data[0..|UvarintBytes(v)|] == UvarintBytes(v);
    ReadEncodedUvarint(data, 0, 0, v);
  }

  /** Input made only of continuation bytes never yields a value: the read
      fails when the input ends or after ten bytes, whichever is first. */
  lemma UvarintNeedsFinalByte(data: seq<byte>)
    requires forall j :: 0 <= j < |data| ==> data[j] >= 0x80
    ensures ReadUvarintFrom(data, 0, 0) == VarintRead(None, if |data| < 10 then |data| else 10)
  {
    ContinuationsOnly(data, 0, 0);
  }

  lemma {:induction false} ContinuationsOnly(data: seq<byte>, k: nat, acc: nat)
    requires k <= 10 && k <= |data| && acc < Shl7(1, k) && acc < TWO_64
    requires forall j :: k <= j < |data| ==> data[j] >= 0x80
    ensures ReadUvarintFrom(data, k, acc) == VarintRead(None, if |data| < 10 then |data| else 10)
    decreases 10 - k
  {
    hide ReadUvarintFrom, Shifted, Shl7;
    if k < 10 && k < |data| {
      ReadUvarintStep(data, k, acc);
      ContinuationsOnly(data, k + 1, acc + Shifted(data[k], k));
    } else {
      ReadUvarintEnd(data, k, acc);
    }
  }

  // ---------------------------------------------------------------------
  // ByteBufferWriter

  /** The writer's buffer: the byte order, the bytes written (from `_start`
      to `_end`, where `_start` is always 0 for a writer) and the allocated
      size. */
  datatype Writer = Writer(order: Order, data: seq<byte>, size: nat)

  predicate ValidWriter(w: Writer) {
    |w.data| <= w.size
  }

  /** The default constructors: an empty buffer of 4096 bytes. */
  function NewWriter(order: Order): (w: Writer)
    ensures ValidWriter(w) && w.data == [] && w.size == DEFAULT_SIZE
  {
    Writer(order, [], DEFAULT_SIZE)
  }

  /** The constructors from bytes: exactly those bytes, and no spare room. */
  function NewWriterFrom(order: Order, bytes: seq<byte>): (w: Writer)
    ensures ValidWriter(w) && w.data == bytes && w.size == |bytes|
  {
    Writer(order, bytes, |bytes|)
  }

  function Length(w: Writer): nat {
    |w.data|
  }

  function Capacity(w: Writer): nat {
    w.size
  }

  /** `resize`: keeps the first min(length, size) bytes at the front; the
      allocation is kept when it already holds `size` bytes, and otherwise
      grows to the larger of `size` and one and a half times the old
      size. */
  function Resize(w: Writer, size: nat): (r: Writer)
    requires ValidWriter(w)
    ensures ValidWriter(r) && r.order == w.order
    ensures |r.data| == if |w.data| < size then |w.data| else size
    ensures r.data == w.data[..|r.data|]
    ensures size <= w.size ==> r.size == w.size
    ensures size > w.size ==> r.size == if size > 3 * w.size / 2 then size else 3 * w.size / 2
  {
    var len := if |w.data| < size then |w.data| else size;
    var newSize := if size <= w.size then w.size else if size > 3 * w.size / 2 then size else 3 * w.size / 2;
    Writer(w.order, w.data[..len], newSize)
  }

  /** `write_bytes` through `reserve_write_buffer`: room is made with
      `resize` when the bytes do not fit, then they go after the bytes
      already written. */
  function WriteBytes(w: Writer, val: seq<byte>): (r: Writer)
    requires ValidWriter(w)
    ensures ValidWriter(r) && r.order == w.order
    ensures r.data == w.data + val
    ensures |w.data| + |val| <= w.size ==> r.size == w.size
    ensures |w.data| + |val| > w.size ==>
              r.size == if |w.data| + |val| > 3 * w.size / 2 then |w.data| + |val| else 3 * w.size / 2
    ensures |r.data| <= r.size
  {
    var room := if |w.data| + |val| > w.size then Resize(w, |w.data| + |val|) else w;
    Writer(room.order, room.data + val, room.size)
  }

  function WriteUint8(w: Writer, val: byte): (r: Writer)
    requires ValidWriter(w)
    ensures ValidWriter(r) && r.data == w.data + [val]
  {
    WriteBytes(w, [val])
  }

  function WriteUint16(w: Writer, val: u16): (r: Writer)
    requires ValidWriter(w)
    ensures ValidWriter(r) && |r.data| == |w.data| + 2 && r.data[..|w.data|] == w.data
    ensures w.order == OrderNetwork ==> r.data[|w.data|..] == SetBE(2, val)
  {
    Pow256Values();
    WriteBytes(w, EncodeInt(w.order, 2, val))
  }

  function WriteUint24(w: Writer, val: u32): (r: Writer)
    requires ValidWriter(w)
    ensures ValidWriter(r) && |r.data| == |w.data| + 3 && r.data[..|w.data|] == w.data
    ensures w.order == OrderNetwork ==> r.data[|w.data|..] == SetBE(3, val % 0x100_0000)
  {
    WriteBytes(w, EncodeUint24(w.order, val))
  }

  function WriteUint32(w: Writer, val: u32): (r: Writer)
    requires ValidWriter(w)
    ensures ValidWriter(r) && |r.data| == |w.data| + 4 && r.data[..|w.data|] == w.data
    ensures w.order == OrderNetwork ==> r.data[|w.data|..] == SetBE(4, val)
  {
    Pow256Values();
    WriteBytes(w, EncodeInt(w.order, 4, val))
  }

  function WriteUint64(w: Writer, val: u64): (r: Writer)
    requires ValidWriter(w)
    ensures ValidWriter(r) && |r.data| == |w.data| + 8 && r.data[..|w.data|] == w.data
    ensures w.order == OrderNetwork ==> r.data[|w.data|..] == SetBE(8, val)
  {
    Pow256Values();
    WriteBytes(w, EncodeInt(w.order, 8, val))
  }

  function WriteUvarint(w: Writer, val: u64): (r: Writer)
    requires ValidWriter(w)
    ensures ValidWriter(r) && r.data == w.data + UvarintBytes(val)
    ensures 1 <= |r.data| - |w.data| <= 10
  {
    UvarintAtMostTenBytes(val);
    WriteBytes(w, UvarintBytes(val))
  }

  /** `clear`: nothing written, the allocation kept (and zeroed). */
  function Clear(w: Writer): (r: Writer)
    ensures r.data == [] && r.size == w.size && r.order == w.order && ValidWriter(r)
  {
    Writer(w.order, [], w.size)
  }

  // ---------------------------------------------------------------------
  // ByteBufferReader

  /** The reader: the byte order, the bytes it was given, and the position
      of the next unread byte. */
  datatype Reader = Reader(order: Order, bytes: seq<byte>, start: nat)

  predicate ValidReader(rd: Reader) {
    rd.start <= |rd.bytes|
  }

  /** A reader over what a writer holds, in the writer's order. */
  function ReaderOf(w: Writer): (rd: Reader)
    ensures ValidReader(rd) && rd.start == 0 && rd.bytes == w.data
  {
    Reader(w.order, w.data, 0)
  }

  function Unread(rd: Reader): seq<byte>
    requires ValidReader(rd)
  {
    rd.bytes[rd.start..]
  }

  /** `read_bytes`: fails without moving when fewer than `len` bytes are
      left; otherwise yields the next `len` bytes and moves past them. */
  function ReadBytes(rd: Reader, len: nat): (r: Option<(seq<byte>, Reader)>)
    requires ValidReader(rd)
    ensures r.None? <==> len > |Unread(rd)|
    ensures r.Some? ==> ValidReader(r.value.1) && r.value.1.start == rd.start + len &&
                        r.value.1.bytes == rd.bytes && r.value.1.order == rd.order &&
                        r.value.0 + Unread(r.value.1) == Unread(rd) && |r.value.0| == len
  {
    if len > |rd.bytes| - rd.start then None
    else Some((rd.bytes[rd.start..rd.start + len], rd.(start := rd.start + len)))
  }

  /** `read_string`: as `read_bytes`, the bytes being appended to the
      string given. */
  function ReadString(rd: Reader, val: seq<byte>, len: nat): (r: Option<(seq<byte>, Reader)>)
    requires ValidReader(rd)
    ensures r.None? <==> len > |Unread(rd)|
    ensures r.Some? ==> |r.value.0| == |val| + len && r.value.0[..|val|] == val &&
                        r.value.0[|val|..] == Unread(rd)[..len] && r.value.1 == ReadBytes(rd, len).value.1
  {
    match ReadBytes(rd, len)
    case None => None
    case Some((bytes, next)) => Some((val + bytes, next))
  }

  /** `consume`: skips `len` bytes, or fails without moving. */
  function Consume(rd: Reader, len: nat): (r: Option<Reader>)
    requires ValidReader(rd)
    ensures r.None? <==> len > |Unread(rd)|
    ensures r.Some? ==> ValidReader(r.value) && r.value.start == rd.start + len && r.value.bytes == rd.bytes
  {
    if len > |rd.bytes| - rd.start then None else Some(rd.(start := rd.start + len))
  }

  function ReadUint8(rd: Reader): (r: Option<(byte, Reader)>)
    requires ValidReader(rd)
    ensures r.None? <==> |Unread(rd)| < 1
    ensures r.Some? ==> ValidReader(r.value.1) && r.value.1.start == rd.start + 1 && r.value.0 == rd.bytes[rd.start]
  {
    match ReadBytes(rd, 1)
    case None => None
    case Some((b, next)) => Some((b[0], next))
  }

  /** `read_uint16/32/64` on `width` bytes. */
  function ReadInt(rd: Reader, width: nat): (r: Option<(nat, Reader)>)
    requires ValidReader(rd)
    ensures r.None? <==> |Unread(rd)| < width
    ensures r.Some? ==> ValidReader(r.value.1) && r.value.1.start == rd.start + width &&
                        r.value.0 < Pow256(width)
  {
    match ReadBytes(rd, width)
    case None => None
    case Some((b, next)) => Some((DecodeInt(rd.order, b), next))
  }

  function ReadUint24(rd: Reader): (r: Option<(nat, Reader)>)
    requires ValidReader(rd)
    ensures r.None? <==> |Unread(rd)| < 3
    ensures r.Some? ==> ValidReader(r.value.1) && r.value.1.start == rd.start + 3 && r.value.0 < TWO_32
  {
    match ReadBytes(rd, 3)
    case None => None
    case Some((b, next)) => Some((DecodeUint24(rd.order, b), next))
  }

  /** `read_uvarint`: the value, if any, and the reader moved past every
      byte the loop took. */
  function ReadUvarint(rd: Reader): (r: (Option<u64>, Reader))
    requires ValidReader(rd)
    ensures ValidReader(r.1) && rd.start <= r.1.start <= rd.start + 10 && r.1.bytes == rd.bytes
  {
    var res := ReadUvarintFrom(Unread(rd), 0, 0);
    (res.value, rd.(start := rd.start + res.consumed))
  }

  // ---------------------------------------------------------------------
  // Writer/reader round trips

  /** A reader placed at what one write added reads it back and ends where
      the write ended. */
  lemma WriteReadBytes(w: Writer, val: seq<byte>, rest: seq<byte>)
    requires ValidWriter(w)
    ensures var rd := Reader(w.order, WriteBytes(w, val).data + rest, |w.data|);
            ReadBytes(rd, |val|) == Some((val, rd.(start := |w.data| + |val|)))
  {
    var data := WriteBytes(w, val).data + rest;
    assert data[|w.data|..|w.data| + |val|] == val;
  }

  lemma WriteReadUint16(w: Writer, val: u16, rest: seq<byte>)
    requires ValidWriter(w)
    ensures var rd := Reader(w.order, WriteUint16(w, val).data + rest, |w.data|);
            ReadInt(rd, 2) == Some((val as nat, rd.(start := |w.data| + 2)))
  {
    Pow256Values();
    WriteReadBytes(w, EncodeInt(w.order, 2, val), rest);
    DecodeEncodeInt(w.order, 2, val);
  }

  lemma WriteReadUint32(w: Writer, val: u32, rest: seq<byte>)
    requires ValidWriter(w)
    ensures var rd := Reader(w.order, WriteUint32(w, val).data + rest, |w.data|);
            ReadInt(rd, 4) == Some((val as nat, rd.(start := |w.data| + 4)))
  {
    Pow256Values();
    WriteReadBytes(w, EncodeInt(w.order, 4, val), rest);
    DecodeEncodeInt(w.order, 4, val);
  }

  lemma WriteReadUint64(w: Writer, val: u64, rest: seq<byte>)
    requires ValidWriter(w)
    ensures var rd := Reader(w.order, WriteUint64(w, val).data + rest, |w.data|);
            ReadInt(rd, 8) == Some((val as nat, rd.(start := |w.data| + 8)))
  {
    Pow256Values();
    WriteReadBytes(w, EncodeInt(w.order, 8, val), rest);
    DecodeEncodeInt(w.order, 8, val);
  }

  lemma WriteReadUint24(w: Writer, val: u32, rest: seq<byte>)
    requires ValidWriter(w)
    ensures var rd := Reader(w.order, WriteUint24(w, val).data + rest, |w.data|);
            ReadUint24(rd) == Some((val % 0x100_0000, rd.(start := |w.data| + 3)))
  {
    WriteReadBytes(w, EncodeUint24(w.order, val), rest);
    DecodeEncodeUint24(w.order, val);
  }

  lemma WriteReadUvarint(w: Writer, val: u64, rest: seq<byte>)
    requires ValidWriter(w)
    ensures var rd := Reader(w.order, WriteUvarint(w, val).data + rest, |w.data|);
            ReadUvarint(rd) == (Some(val), rd.(start := |w.data| + |UvarintBytes(val)|))
  {
    hide ReadUvarintFrom, UvarintBytes, Shl7, WriteBytes, WriteUvarint, ReadUvarint;
    ReadUvarintAt(w.order, w.data, val, rest);
  }

  /** A reader whose unread bytes start with the varint of v reads v and
      moves past exactly those bytes. */
  lemma ReadUvarintAt(order: Order, a: seq<byte>, v: u64, rest: seq<byte>)
    ensures var rd := Reader(order, a + UvarintBytes(v) + rest, |a|);
            ReadUvarint(rd) == (Some(v), rd.(start := |a| + |UvarintBytes(v)|))
  {
    var u := UvarintBytes(v);
    hide ReadUvarintFrom, UvarintBytes, Shl7, Unread, ReadUvarint;
    UnreadAfterPrefix(order, a, u, rest);
    ReadUvarintOn(Reader(order, a + u + rest, |a|), v, rest);
  }

  lemma ReadUvarintOn(rd: Reader, v: u64, rest: seq<byte>)
    requires ValidReader(rd) && Unread(rd) == UvarintBytes(v) + rest
    ensures ReadUvarint(rd) == (Some(v), rd.(start := rd.start + |UvarintBytes(v)|))
  {
    hide ReadUvarintFrom, UvarintBytes, Shl7;
    UvarintRoundTrip(v, rest);
  }

  lemma UnreadAfterPrefix(order: Order, a: seq<byte>, u: seq<byte>, rest: seq<byte>)
    ensures var rd := Reader(order, a + u + rest, |a|);
            ValidReader(rd) && Unread(rd) == u + rest
  {
    assert a + u + rest == a + (u + rest);
  }
}
