/**
 * The packed header structures of raw_rdmx.cpp (`eth_hdr_t`, `ipv4_hdr_t`,
 * `udp_hdr_t`, `rdmx_hdr_t`, `raw_rdmx_t`) as values, with their byte images.
 *
 * The C code lays the structures over the byte buffer with `#pragma pack(1)`;
 * here each structure has an explicit encoder and decoder, with every
 * multi-byte number in network byte order. Every byte string of the right
 * length decodes, and decoding and encoding are inverse both ways, so a
 * 64-byte buffer and an `RdmxFrame` value are two views of the same thing.
 */
module Headers {
  import opened ByteOrder
  import Ipv4Checksum
  import Memory

  type Mac = s: seq<uint8> | |s| == 6 witness [0, 0, 0, 0, 0, 0]
  type IpAddr = s: seq<uint8> | |s| == 4 witness [0, 0, 0, 0]
  type Reserved = s: seq<uint8> | |s| == 12 witness [0, 0, 0, 0, 0, 0, 0, 0, 0, 0, 0, 0]

  const EthSize: nat := 14
  const Ipv4Size: nat := 20
  const UdpSize: nat := 8
  const RdmxSize: nat := 22

  /** Byte offsets of the sub-headers within a frame. */
  const Ipv4Offset: nat := EthSize
  const UdpOffset: nat := EthSize + Ipv4Size
  const RdmxOffset: nat := EthSize + Ipv4Size + UdpSize
  /** Size of an Ethernet/IPv4/UDP header and of one with the RDMX extension. */
  const UdpFrameSize: nat := EthSize + Ipv4Size + UdpSize
  const RdmxFrameSize: nat := EthSize + Ipv4Size + UdpSize + RdmxSize

  const BroadcastMac: Mac := [0xFF, 0xFF, 0xFF, 0xFF, 0xFF, 0xFF]

  /** An address argument passed by pointer that may be `nullptr`. */
  datatype Option<T> = None | Some(value: T)

  datatype EthHeader = EthHeader(dstMac: Mac, srcMac: Mac, frameType: uint16)

  datatype Ipv4Header = Ipv4Header(
    version: uint8, dsf: uint8, length: uint16, id: uint16, flags: uint16,
    timeToLive: uint8, protocol: uint8, checksum: uint16,
    srcIp: IpAddr, dstIp: IpAddr)

  datatype UdpHeader = UdpHeader(srcPort: uint16, dstPort: uint16, length: uint16, checksum: uint16)

  datatype RdmxHeader = RdmxHeader(magic: uint16, targetAddr: uint64, reserved: Reserved)

  datatype RdmxFrame = RdmxFrame(eth: EthHeader, ipv4: Ipv4Header, udp: UdpHeader, rdmx: RdmxHeader)

  datatype UdpFrame = UdpFrame(eth: EthHeader, ipv4: Ipv4Header, udp: UdpHeader)

  function EncodeEth(e: EthHeader): (r: seq<uint8>)
    ensures |r| == EthSize
  {
    e.dstMac + e.srcMac + Be16(e.frameType)
  }

  function DecodeEth(b: seq<uint8>): EthHeader
    requires |b| == EthSize
  {
    EthHeader(b[0..6], b[6..12], FromBe16(b[12..14]))
  }

  function EncodeIpv4(h: Ipv4Header): (r: seq<uint8>)
    ensures |r| == Ipv4Size
  {
    [h.version, h.dsf] + Be16(h.length) + Be16(h.id) + Be16(h.flags)
    + [h.timeToLive, h.protocol] + Be16(h.checksum) + h.srcIp + h.dstIp
  }

  function DecodeIpv4(b: seq<uint8>): Ipv4Header
    requires |b| == Ipv4Size
  {
    Ipv4Header(b[0], b[1], FromBe16(b[2..4]), FromBe16(b[4..6]), FromBe16(b[6..8]),
               b[8], b[9], FromBe16(b[10..12]), b[12..16], b[16..20])
  }

  function EncodeUdp(u: UdpHeader): (r: seq<uint8>)
    ensures |r| == UdpSize
  {
    Be16(u.srcPort) + Be16(u.dstPort) + Be16(u.length) + Be16(u.checksum)
  }

  function DecodeUdp(b: seq<uint8>): UdpHeader
    requires |b| == UdpSize
  {
    UdpHeader(FromBe16(b[0..2]), FromBe16(b[2..4]), FromBe16(b[4..6]), FromBe16(b[6..8]))
  }

  function EncodeRdmx(x: RdmxHeader): (r: seq<uint8>)
    ensures |r| == RdmxSize
  {
    Be16(x.magic) + Be64(x.targetAddr) + x.reserved
  }

  function DecodeRdmx(b: seq<uint8>): RdmxHeader
    requires |b| == RdmxSize
  {
    RdmxHeader(FromBe16(b[0..2]), FromBe64(b[2..10]), b[10..22])
  }

  function EncodeRdmxFrame(f: RdmxFrame): (r: seq<uint8>)
    ensures |r| == RdmxFrameSize
  {
    EncodeEth(f.eth) + EncodeIpv4(f.ipv4) + EncodeUdp(f.udp) + EncodeRdmx(f.rdmx)
  }

  function DecodeRdmxFrame(b: seq<uint8>): RdmxFrame
    requires |b| == RdmxFrameSize
  {
    RdmxFrame(DecodeEth(b[..Ipv4Offset]), DecodeIpv4(b[Ipv4Offset..UdpOffset]),
              DecodeUdp(b[UdpOffset..RdmxOffset]), DecodeRdmx(b[RdmxOffset..RdmxFrameSize]))
  }

  function EncodeUdpFrame(f: UdpFrame): (r: seq<uint8>)
    ensures |r| == UdpFrameSize
  {
    EncodeEth(f.eth) + EncodeIpv4(f.ipv4) + EncodeUdp(f.udp)
  }

  function DecodeUdpFrame(b: seq<uint8>): UdpFrame
    requires |b| == UdpFrameSize
  {
    UdpFrame(DecodeEth(b[..Ipv4Offset]), DecodeIpv4(b[Ipv4Offset..UdpOffset]),
             DecodeUdp(b[UdpOffset..UdpFrameSize]))
  }

  /** The IPv4 checksum of a header value, computed over its byte image. */
  function HeaderChecksum(h: Ipv4Header): uint16
  {
    Ipv4Checksum.Checksum(EncodeIpv4(h))
  }

  lemma EthRoundTrip(e: EthHeader)
    ensures DecodeEth(EncodeEth(e)) == e
  {
    var b := EncodeEth(e);
    assert b[0..6] == e.dstMac && b[6..12] == e.srcMac && b[12..14] == Be16(e.frameType);
    Be16RoundTrip(e.frameType);
  }

  lemma EthBytesRoundTrip(b: seq<uint8>)
    requires |b| == EthSize
    ensures EncodeEth(DecodeEth(b)) == b
  {
    FromBe16RoundTrip(b[12..14]);
    assert b == b[0..6] + b[6..12] + b[12..14];
  }

  lemma Ipv4RoundTrip(h: Ipv4Header)
    ensures DecodeIpv4(EncodeIpv4(h)) == h
  {
    var b := EncodeIpv4(h);
    assert b[2..4] == Be16(h.length) && b[4..6] == Be16(h.id) && b[6..8] == Be16(h.flags);
    assert b[10..12] == Be16(h.checksum);
    assert b[12..16] == h.srcIp;
    assert b[16..20] == h.dstIp by {
      assert forall k | 0 <= k < 4 :: b[16 + k] == h.dstIp[k];
    }
    Be16RoundTrip(h.length);
    Be16RoundTrip(h.id);
    Be16RoundTrip(h.flags);
    Be16RoundTrip(h.checksum);
  }

  lemma Ipv4BytesRoundTrip(b: seq<uint8>)
    requires |b| == Ipv4Size
    ensures EncodeIpv4(DecodeIpv4(b)) == b
  {
    FromBe16RoundTrip(b[2..4]);
    FromBe16RoundTrip(b[4..6]);
    FromBe16RoundTrip(b[6..8]);
    FromBe16RoundTrip(b[10..12]);
    assert b == [b[0], b[1]] + b[2..4] + b[4..6] + b[6..8] + [b[8], b[9]]
                + b[10..12] + b[12..16] + b[16..20];
  }

  lemma UdpRoundTrip(u: UdpHeader)
    ensures DecodeUdp(EncodeUdp(u)) == u
  {
    var b := EncodeUdp(u);
    assert b[0..2] == Be16(u.srcPort) && b[2..4] == Be16(u.dstPort);
    assert b[4..6] == Be16(u.length) && b[6..8] == Be16(u.checksum);
    Be16RoundTrip(u.srcPort);
    Be16RoundTrip(u.dstPort);
    Be16RoundTrip(u.length);
    Be16RoundTrip(u.checksum);
  }

  lemma UdpBytesRoundTrip(b: seq<uint8>)
    requires |b| == UdpSize
    ensures EncodeUdp(DecodeUdp(b)) == b
  {
    FromBe16RoundTrip(b[0..2]);
    FromBe16RoundTrip(b[2..4]);
    FromBe16RoundTrip(b[4..6]);
    FromBe16RoundTrip(b[6..8]);
    assert b == b[0..2] + b[2..4] + b[4..6] + b[6..8];
  }

  lemma RdmxRoundTrip(x: RdmxHeader)
    ensures DecodeRdmx(EncodeRdmx(x)) == x
  {
    var b := EncodeRdmx(x);
    assert b[0..2] == Be16(x.magic) && b[2..10] == Be64(x.targetAddr) && b[10..22] == x.reserved;
    Be16RoundTrip(x.magic);
    Be64RoundTrip(x.targetAddr);
  }

  lemma RdmxBytesRoundTrip(b: seq<uint8>)
    requires |b| == RdmxSize
    ensures EncodeRdmx(DecodeRdmx(b)) == b
  {
    FromBe16RoundTrip(b[0..2]);
    FromBe64RoundTrip(b[2..10]);
    assert b == b[0..2] + b[2..10] + b[10..22];
  }

  /** A byte string is the concatenation of its pieces between three cut points. */
  lemma SplitFour(b: seq<uint8>, i: nat, j: nat, k: nat)
    requires i <= j <= k <= |b|
    ensures b == b[..i] + b[i..j] + b[j..k] + b[k..|b|]
  {
    var c := b[..i] + b[i..j] + b[j..k] + b[k..|b|];
    forall n | 0 <= n < |b|
      ensures c[n] == b[n]
    {
      if n < i {
      } else if n < j {
      } else if n < k {
      } else {
      }
    }
  }

  /**
   * The sum the IPv4 checksum covers, in terms of the header's fields: the
   * sixteen-bit fields count by value, the byte pairs as big-endian words,
   * and the checksum field not at all.
   */
  lemma EncodedIpv4Sum(h: Ipv4Header)
    ensures Ipv4Checksum.PartialSum(EncodeIpv4(h), 10)
            == (h.version as nat * 0x100 + h.dsf as nat) + h.length as nat + h.id as nat + h.flags as nat
               + (h.timeToLive as nat * 0x100 + h.protocol as nat)
               + (h.srcIp[0] as nat * 0x100 + h.srcIp[1] as nat) + (h.srcIp[2] as nat * 0x100 + h.srcIp[3] as nat)
               + (h.dstIp[0] as nat * 0x100 + h.dstIp[1] as nat) + (h.dstIp[2] as nat * 0x100 + h.dstIp[3] as nat)
  {
    var b := EncodeIpv4(h);
    assert b[2..4] == Be16(h.length) && b[4..6] == Be16(h.id) && b[6..8] == Be16(h.flags);
    assert b[0] == h.version && b[1] == h.dsf && b[8] == h.timeToLive && b[9] == h.protocol;
    assert b[12..16] == h.srcIp;
    assert b[16..20] == h.dstIp by {
      assert forall k | 0 <= k < 4 :: b[16 + k] == h.dstIp[k];
    }
    Ipv4Checksum.PartialSumWords(b);
  }

  /**
   * Where the fields that the builders set or stamp sit in the packed
   * 64-byte frame: the offsets of `raw_rdmx_t`'s members.
   */
  lemma RdmxFrameLayout(f: RdmxFrame)
    ensures var b := EncodeRdmxFrame(f);
      b[0..6] == f.eth.dstMac && b[6..12] == f.eth.srcMac
      && b[16..18] == Be16(f.ipv4.length) && b[24..26] == Be16(f.ipv4.checksum)
      && b[26..30] == f.ipv4.srcIp && b[30..34] == f.ipv4.dstIp
      && b[34..36] == Be16(f.udp.srcPort) && b[36..38] == Be16(f.udp.dstPort)
      && b[38..40] == Be16(f.udp.length) && b[44..52] == Be64(f.rdmx.targetAddr)
  {
    var b := EncodeRdmxFrame(f);
    var e, h, u, x := EncodeEth(f.eth), EncodeIpv4(f.ipv4), EncodeUdp(f.udp), EncodeRdmx(f.rdmx);
    assert forall k | 0 <= k < EthSize :: b[k] == e[k];
    assert forall k | 0 <= k < Ipv4Size :: b[Ipv4Offset + k] == h[k];
    assert forall k | 0 <= k < UdpSize :: b[UdpOffset + k] == u[k];
    assert forall k | 0 <= k < 10 :: b[RdmxOffset + k] == x[k];
  }

  /** Decoding the byte image of a frame gives the frame back. */
  lemma RdmxFrameRoundTrip(f: RdmxFrame)
    ensures DecodeRdmxFrame(EncodeRdmxFrame(f)) == f
  {
    var b := EncodeRdmxFrame(f);
    assert b[..Ipv4Offset] == EncodeEth(f.eth);
    assert b[Ipv4Offset..UdpOffset] == EncodeIpv4(f.ipv4);
    assert b[UdpOffset..RdmxOffset] == EncodeUdp(f.udp);
    assert b[RdmxOffset..RdmxFrameSize] == EncodeRdmx(f.rdmx);
    EthRoundTrip(f.eth);
    Ipv4RoundTrip(f.ipv4);
    UdpRoundTrip(f.udp);
    RdmxRoundTrip(f.rdmx);
  }

  /** Every 64-byte buffer is the image of the frame it decodes to. */
  lemma RdmxFrameBytesRoundTrip(b: seq<uint8>)
    requires |b| == RdmxFrameSize
    ensures EncodeRdmxFrame(DecodeRdmxFrame(b)) == b
  {
    EthBytesRoundTrip(b[..Ipv4Offset]);
    Ipv4BytesRoundTrip(b[Ipv4Offset..UdpOffset]);
    UdpBytesRoundTrip(b[UdpOffset..RdmxOffset]);
    RdmxBytesRoundTrip(b[RdmxOffset..RdmxFrameSize]);
    SplitFour(b, Ipv4Offset, UdpOffset, RdmxOffset);
  }

  lemma UdpFrameRoundTrip(f: UdpFrame)
    ensures DecodeUdpFrame(EncodeUdpFrame(f)) == f
  {
    var b := EncodeUdpFrame(f);
    assert b[..Ipv4Offset] == EncodeEth(f.eth);
    assert b[Ipv4Offset..UdpOffset] == EncodeIpv4(f.ipv4);
    assert b[UdpOffset..UdpFrameSize] == EncodeUdp(f.udp);
    EthRoundTrip(f.eth);
    Ipv4RoundTrip(f.ipv4);
    UdpRoundTrip(f.udp);
  }

  /**
   * Two 42-byte headers that agree on the MACs (bytes 0-11), the IP
   * addresses (26-33) and the ports (34-37) decode to headers with the same
   * addresses and ports, whatever they hold elsewhere.
   */
  lemma UdpFrameSameAddresses(a: seq<uint8>, b: seq<uint8>)
    requires |a| == UdpFrameSize && |b| == UdpFrameSize
    requires forall i | 0 <= i < 12 || 26 <= i < 38 :: a[i] == b[i]
    ensures var d, t := DecodeUdpFrame(a), DecodeUdpFrame(b);
      d.eth == t.eth.(frameType := d.eth.frameType)
      && d.ipv4.srcIp == t.ipv4.srcIp && d.ipv4.dstIp == t.ipv4.dstIp
      && d.udp.srcPort == t.udp.srcPort && d.udp.dstPort == t.udp.dstPort
  {
    Memory.SameSlice(a, b, 0, 6);
    Memory.SameSlice(a, b, 6, 12);
    Memory.SameSlice(a, b, 26, 30);
    Memory.SameSlice(a, b, 30, 34);
    Memory.SameSlice(a, b, 34, 36);
    Memory.SameSlice(a, b, 36, 38);
    Memory.SliceOfSlice(a, 0, Ipv4Offset, 0, 6);
    Memory.SliceOfSlice(a, 0, Ipv4Offset, 6, 12);
    Memory.SliceOfSlice(a, Ipv4Offset, UdpOffset, 12, 16);
    Memory.SliceOfSlice(a, Ipv4Offset, UdpOffset, 16, 20);
    Memory.SliceOfSlice(a, UdpOffset, UdpFrameSize, 0, 2);
    Memory.SliceOfSlice(a, UdpOffset, UdpFrameSize, 2, 4);
    Memory.SliceOfSlice(b, 0, Ipv4Offset, 0, 6);
    Memory.SliceOfSlice(b, 0, Ipv4Offset, 6, 12);
    Memory.SliceOfSlice(b, Ipv4Offset, UdpOffset, 12, 16);
    Memory.SliceOfSlice(b, Ipv4Offset, UdpOffset, 16, 20);
    Memory.SliceOfSlice(b, UdpOffset, UdpFrameSize, 0, 2);
    Memory.SliceOfSlice(b, UdpOffset, UdpFrameSize, 2, 4);
  }

  lemma UdpFrameBytesRoundTrip(b: seq<uint8>)
    requires |b| == UdpFrameSize
    ensures EncodeUdpFrame(DecodeUdpFrame(b)) == b
  {
    EthBytesRoundTrip(b[..Ipv4Offset]);
    Ipv4BytesRoundTrip(b[Ipv4Offset..UdpOffset]);
    UdpBytesRoundTrip(b[UdpOffset..UdpFrameSize]);
    SplitFour(b, Ipv4Offset, UdpOffset, UdpFrameSize);
    assert b[UdpFrameSize..|b|] == [];
  }
}
