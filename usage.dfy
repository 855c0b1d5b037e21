/**
 * The intended use of both builders (raw_rdmx.h and raw_udp.h): construct,
 * call the three setters, then stamp headers. The concrete values are the
 * ones the demonstration driver (main.cpp) passes.
 */
module Usage {
  import opened ByteOrder
  import opened Headers
  import Ipv4Checksum
  import Rdmx
  import Udp
  import Memory

  /** The RDMX template after the three setters have been applied to a fresh one. */
  function Configured(srcMac: Mac, dstMac: Option<Mac>, srcIp: IpAddr, dstIp: IpAddr,
                      srcPort: uint16, dstPort: uint16): RdmxFrame
  {
    var t := Rdmx.DefaultTemplate;
    t.(eth := t.eth.(dstMac := if dstMac.Some? then dstMac.value else BroadcastMac, srcMac := srcMac),
       ipv4 := t.ipv4.(srcIp := srcIp, dstIp := dstIp),
       udp := t.udp.(srcPort := srcPort, dstPort := dstPort))
  }

  /**
   * Construct a `CRawRDMX`, configure it, and stamp one header into `where`.
   * The header is the image of the stamped configured template, so it
   * depends on nothing but the arguments: stamping twice with the same
   * arguments writes the same 64 bytes.
   */
  method WriteConfiguredRdmxHeader(srcMac: Mac, dstMac: Option<Mac>, srcIp: IpAddr, dstIp: IpAddr,
                                   srcPort: uint16, dstPort: uint16,
                                   where: array<uint8>, payloadLength: uint16, targetAddr: uint64)
    requires where.Length >= RdmxFrameSize
    modifies where
    ensures where[..RdmxFrameSize]
            == EncodeRdmxFrame(Rdmx.Stamp(Configured(srcMac, dstMac, srcIp, dstIp, srcPort, dstPort),
                                          payloadLength, targetAddr))
    ensures where[RdmxFrameSize..] == old(where[RdmxFrameSize..])
  {
    var builder := new Rdmx.RawRdmx();
    builder.SetMacAddrs(srcMac, dstMac);
    builder.SetIpAddrs(srcIp, dstIp);
    builder.SetUdpPorts(srcPort, dstPort);
    builder.WriteHeader(where, payloadLength, targetAddr);
  }

  /**
   * Construct a `CRawUDP`, configure it, and stamp one header into `where`:
   * the header carries the addresses and the ports that were set, with the
   * broadcast MAC as destination when none was given.
   */
  method WriteConfiguredUdpHeader(srcMac: Mac, dstMac: Option<Mac>, srcIp: IpAddr, dstIp: IpAddr,
                                  srcPort: uint16, dstPort: uint16,
                                  where: array<uint8>, payloadLength: uint16)
    requires where.Length >= UdpFrameSize
    modifies where
    ensures where[0..6] == (if dstMac.Some? then dstMac.value else BroadcastMac)
    ensures where[6..12] == srcMac
    ensures where[26..30] == srcIp && where[30..34] == dstIp
    ensures where[34..36] == Be16(srcPort) && where[36..38] == Be16(dstPort)
    ensures where[UdpFrameSize..] == old(where[UdpFrameSize..])
  {
    var builder := new Udp.RawUdp();
    builder.SetMacAddrs(srcMac, dstMac);
    builder.SetIpAddrs(srcIp, dstIp);
    builder.SetUdpPorts(srcPort, dstPort);
    builder.WriteHeader(where, payloadLength);
    Memory.SameSlice(where[..], builder.frame[..], 0, 6);
    Memory.SameSlice(where[..], builder.frame[..], 6, 12);
    Memory.SameSlice(where[..], builder.frame[..], 26, 30);
    Memory.SameSlice(where[..], builder.frame[..], 30, 34);
    Memory.SameSlice(where[..], builder.frame[..], 34, 36);
    Memory.SameSlice(where[..], builder.frame[..], 36, 38);
  }

  const DemoSrcMac: Mac := [0xC4, 0x00, 0xAD, 0x3A, 0xD3, 0x6B]
  const DemoSrcIp: IpAddr := [10, 11, 12, 1]
  const DemoDstIp: IpAddr := [10, 11, 12, 255]
  const DemoSrcPort: uint16 := 1234
  const DemoPayloadLength: uint16 := 256
  const DemoTargetAddr: uint64 := 0x1234_5678_9ABC_DEF0

  /** The network-order images of the demonstration's stamped fields. */
  lemma DemoFieldBytes()
    ensures Be16(306) == [0x01, 0x32] && Be16(286) == [0x01, 0x1E] && Be16(0x2DF8) == [0x2D, 0xF8]
    ensures Be16(Rdmx.DefaultDstPort) == [0x2B, 0x67]
    ensures Be64(DemoTargetAddr) == [0x12, 0x34, 0x56, 0x78, 0x9A, 0xBC, 0xDE, 0xF0]
  {
  }

  /**
   * The demonstration's IPv4 header sums to 0x1D206, so its checksum is
   * 2D F8; the single fold does not carry here and gives the same value.
   */
  lemma DemoIpv4Checksum()
    ensures var h := Configured(DemoSrcMac, None, DemoSrcIp, DemoDstIp, DemoSrcPort, Rdmx.DefaultDstPort).ipv4;
      HeaderChecksum(h.(length := 306)) == 0x2DF8
      && Ipv4Checksum.ChecksumAsWritten(EncodeIpv4(h.(length := 306))) == 0x2DF8
  {
    var h := Configured(DemoSrcMac, None, DemoSrcIp, DemoDstIp, DemoSrcPort, Rdmx.DefaultDstPort).ipv4;
    var e := EncodeIpv4(h.(length := 306));
    EncodedIpv4Sum(h.(length := 306));
    assert Ipv4Checksum.PartialSum(e, 10) == 0x1_D206;
    assert Ipv4Checksum.Fold(0x1_D206) == 0xD207 && Ipv4Checksum.Fold(0xD207) == 0xD207;
  }

  /**
   * The RDMX header of the demonstration: broadcast destination, total
   * length 306 (01 32), UDP length 286 (01 1E), default destination port
   * (2B 67), the target address most significant byte first, and an IPv4
   * checksum of 2D F8 that verifies.
   */
  lemma DemoRdmxHeader()
    ensures var b := EncodeRdmxFrame(Rdmx.Stamp(
              Configured(DemoSrcMac, None, DemoSrcIp, DemoDstIp, DemoSrcPort, Rdmx.DefaultDstPort),
              DemoPayloadLength, DemoTargetAddr));
      b[0..6] == BroadcastMac && b[6..12] == DemoSrcMac
      && b[16..18] == [0x01, 0x32] && b[38..40] == [0x01, 0x1E]
      && b[36..38] == [0x2B, 0x67]
      && b[44..52] == [0x12, 0x34, 0x56, 0x78, 0x9A, 0xBC, 0xDE, 0xF0]
      && b[24..26] == [0x2D, 0xF8]
      && Ipv4Checksum.ChecksumVerifies(b[Ipv4Offset..UdpOffset])
  {
    var t := Configured(DemoSrcMac, None, DemoSrcIp, DemoDstIp, DemoSrcPort, Rdmx.DefaultDstPort);
    var s := Rdmx.Stamp(t, DemoPayloadLength, DemoTargetAddr);
    var b := EncodeRdmxFrame(s);
    Rdmx.StampIsSound(t, DemoPayloadLength, DemoTargetAddr);
    RdmxFrameLayout(s);
    DemoIpv4Checksum();
    assert s.ipv4.length == 306 && s.udp.length == 286 && s.ipv4.checksum == 0x2DF8;
    DemoFieldBytes();
  }

  /**
   * The header on which the single carry fold goes wrong: the demonstration
   * template with source IP 255.255.92.15, destination IP 0.0.0.0 and an
   * empty payload. Its nine words add up to 0x2FFFE; one fold gives 0x10000,
   * whose truncated complement 0xFFFF is stored, while the checksum is 0xFFFE,
   * and a receiver sums the header written by the source to 1, not 0xFFFF.
   */
  lemma SingleFoldCounterexample()
    ensures var h := EncodeIpv4(Configured(DemoSrcMac, None, [255, 255, 92, 15], [0, 0, 0, 0],
                                           DemoSrcPort, Rdmx.DefaultDstPort).ipv4.(length := Rdmx.Ipv4Length(0)));
      Ipv4Checksum.PartialSum(h, 10) == 0x2_FFFE
      && Ipv4Checksum.ChecksumAsWritten(h) == 0xFFFF && Ipv4Checksum.Checksum(h) == 0xFFFE
      && !Ipv4Checksum.ChecksumVerifies(Ipv4Checksum.WithChecksum(h, Ipv4Checksum.ChecksumAsWritten(h)))
      && Ipv4Checksum.ChecksumVerifies(Ipv4Checksum.WithChecksum(h, Ipv4Checksum.Checksum(h)))
  {
    var hdr := Configured(DemoSrcMac, None, [255, 255, 92, 15], [0, 0, 0, 0],
                          DemoSrcPort, Rdmx.DefaultDstPort).ipv4.(length := Rdmx.Ipv4Length(0));
    var h := EncodeIpv4(hdr);
    assert Rdmx.Ipv4Length(0) == 50;
    EncodedIpv4Sum(hdr);
    assert Ipv4Checksum.PartialSum(h, 10) == 0x2_FFFE;
    assert Ipv4Checksum.Fold(0x2_FFFE) == 0x1_0000;
    Ipv4Checksum.ChecksumAsWrittenFailsOnCarry(h);
  }
}
