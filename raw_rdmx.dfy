/**
 * `CRawRDMX` (raw_rdmx.h, raw_rdmx.cpp): a reusable 64-byte
 * Ethernet/IPv4/UDP/RDMX header template and the stamping of per-frame
 * copies of it into a caller's buffer.
 *
 * Byte layout of the template and of each stamped header:
 *   0..5 dst MAC, 6..11 src MAC, 12..13 EtherType,
 *   14..33 IPv4 header (16..17 total length, 24..25 checksum,
 *   26..29 src IP, 30..33 dst IP), 34..35 src port, 36..37 dst port,
 *   38..39 UDP length, 40..41 UDP checksum, 42..43 RDMX magic,
 *   44..51 target address, 52..63 reserved.
 *
 * Intended use: construct, call the three setters, then call `WriteHeader`
 * any number of times. Stamping only reads the template.
 */
module Rdmx {
  import opened ByteOrder
  import opened Headers
  import Ipv4Checksum
  import Memory

  /** UDP destination port used when the caller gives none. */
  const DefaultDstPort: uint16 := 11111
  /** Magic number identifying the RDMX extension header. */
  const RdmxMagic: uint16 := 0x0122

  const ZeroMac: Mac := [0, 0, 0, 0, 0, 0]
  const ZeroIp: IpAddr := [0, 0, 0, 0]
  const ZeroReserved: Reserved := [0, 0, 0, 0, 0, 0, 0, 0, 0, 0, 0, 0]

  /**
   * The template as the constructor leaves it: EtherType IPv4, version 4 with
   * a 5-word header, id 0xDEAD, "don't fragment", TTL 64, protocol UDP,
   * broadcast destination MAC, UDP checksum 0 ("no checksum"), the RDMX
   * magic, and zero everywhere else.
   */
  const DefaultTemplate: RdmxFrame := RdmxFrame(
    EthHeader(BroadcastMac, ZeroMac, 0x0800),
    Ipv4Header(0x45, 0, 0, 0xDEAD, 0x4000, 0x40, 0x11, 0, ZeroIp, ZeroIp),
    UdpHeader(0, 0, 0, 0),
    RdmxHeader(RdmxMagic, 0, ZeroReserved))

  /**
   * Byte `i` of the default template: FF x 6 (destination MAC), 00 x 6
   * (source MAC), 08 00, 45 00, length 00 00, DE AD, 40 00, 40, 11,
   * checksum 00 00, IPs and ports 00, lengths and UDP checksum 00, 01 22,
   * and 00 for the target address and the reserved bytes.
   */
  function DefaultByte(i: int): uint8
  {
    if 0 <= i < 6 then 0xFF
    else if i == 12 then 0x08
    else if i == 14 then 0x45
    else if i == 18 then 0xDE
    else if i == 19 then 0xAD
    else if i == 20 then 0x40
    else if i == 22 then 0x40
    else if i == 23 then 0x11
    else if i == 42 then 0x01
    else if i == 43 then 0x22
    else 0
  }

  lemma DefaultEthDecode(e: seq<uint8>)
    requires |e| == EthSize && forall k | 0 <= k < EthSize :: e[k] == DefaultByte(k)
    ensures DecodeEth(e) == DefaultTemplate.eth
  {
    assert e[0..6] == BroadcastMac && e[6..12] == ZeroMac && e[12..14] == [0x08, 0x00];
    assert Be16(0x0800) == [0x08, 0x00];
    Be16RoundTrip(0x0800);
  }

  lemma DefaultIpv4Decode(h: seq<uint8>)
    requires |h| == Ipv4Size && forall k | 0 <= k < Ipv4Size :: h[k] == DefaultByte(Ipv4Offset + k)
    ensures DecodeIpv4(h) == DefaultTemplate.ipv4
  {
    assert h[2..4] == [0, 0] && h[4..6] == [0xDE, 0xAD] && h[6..8] == [0x40, 0x00]
        && h[10..12] == [0, 0] && h[12..16] == ZeroIp && h[16..20] == ZeroIp;
    assert Be16(0) == [0, 0] && Be16(0xDEAD) == [0xDE, 0xAD] && Be16(0x4000) == [0x40, 0x00];
    Be16RoundTrip(0);
    Be16RoundTrip(0xDEAD);
    Be16RoundTrip(0x4000);
  }

  lemma DefaultUdpDecode(u: seq<uint8>)
    requires |u| == UdpSize && forall k | 0 <= k < UdpSize :: u[k] == DefaultByte(UdpOffset + k)
    ensures DecodeUdp(u) == DefaultTemplate.udp
  {
    assert u[0..2] == [0, 0] && u[2..4] == [0, 0] && u[4..6] == [0, 0] && u[6..8] == [0, 0];
    assert Be16(0) == [0, 0];
    Be16RoundTrip(0);
  }

  lemma DefaultRdmxDecode(r: seq<uint8>)
    requires |r| == RdmxSize && forall k | 0 <= k < RdmxSize :: r[k] == DefaultByte(RdmxOffset + k)
    ensures DecodeRdmx(r) == DefaultTemplate.rdmx
  {
    assert r[0..2] == [0x01, 0x22] && r[2..10] == Be64(0) && r[10..22] == ZeroReserved;
    assert Be16(RdmxMagic) == [0x01, 0x22];
    Be16RoundTrip(RdmxMagic);
    Be64RoundTrip(0);
  }

  /** A 64-byte image holding the default bytes decodes to the default template. */
  lemma DefaultBytesDecode(b: seq<uint8>)
    requires |b| == RdmxFrameSize
    requires forall i | 0 <= i < RdmxFrameSize :: b[i] == DefaultByte(i)
    ensures DecodeRdmxFrame(b) == DefaultTemplate
  {
    DefaultEthDecode(b[..Ipv4Offset]);
    DefaultIpv4Decode(b[Ipv4Offset..UdpOffset]);
    DefaultUdpDecode(b[UdpOffset..RdmxOffset]);
    DefaultRdmxDecode(b[RdmxOffset..RdmxFrameSize]);
  }

  /** The image of the default template is, byte for byte, the constructor's initial buffer. */
  lemma DefaultTemplateBytes()
    ensures |EncodeRdmxFrame(DefaultTemplate)| == RdmxFrameSize
    ensures forall i | 0 <= i < RdmxFrameSize :: EncodeRdmxFrame(DefaultTemplate)[i] == DefaultByte(i)
  {
    var b := seq(RdmxFrameSize, i => DefaultByte(i));
    DefaultBytesDecode(b);
    RdmxFrameBytesRoundTrip(b);
  }

  /** IPv4 total length for a payload of `len` bytes, truncated to 16 bits. */
  function Ipv4Length(len: uint16): (r: uint16)
    ensures len as int <= 0xFFFF - 50 <==> r as int == 50 + len as int
    ensures len as int > 0xFFFF - 50 ==> r as int == 50 + len as int - 0x1_0000
  {
    ((Ipv4Size + UdpSize + RdmxSize + len as nat) % 0x1_0000) as uint16
  }

  /** UDP length for a payload of `len` bytes, truncated to 16 bits. */
  function UdpLength(len: uint16): (r: uint16)
    ensures len as int <= 0xFFFF - 30 <==> r as int == 30 + len as int
    ensures len as int > 0xFFFF - 30 ==> r as int == 30 + len as int - 0x1_0000
  {
    ((UdpSize + RdmxSize + len as nat) % 0x1_0000) as uint16
  }

  /** The bytes a stamp fills in per frame: both lengths, the IPv4 checksum, the target. */
  predicate IsStampedByte(i: int)
  {
    16 <= i < 18 || 24 <= i < 26 || 38 <= i < 40 || 44 <= i < 52
  }

  /** The IPv4 header of a stamp: the total length, then the checksum over it. */
  function StampIpv4(h: Ipv4Header, len: uint16): (r: Ipv4Header)
    ensures r.length == Ipv4Length(len) && Ipv4Checksum.ChecksumVerifies(EncodeIpv4(r))
    ensures r.(length := h.length, checksum := h.checksum) == h
  {
    var withLength := h.(length := Ipv4Length(len));
    EncodeIpv4WithChecksum(withLength, HeaderChecksum(withLength));
    withLength.(checksum := HeaderChecksum(withLength))
  }

  /** The header value `write_header` produces from a template. */
  function Stamp(t: RdmxFrame, len: uint16, targetAddr: uint64): (r: RdmxFrame)
    ensures Ipv4Checksum.ChecksumVerifies(EncodeIpv4(r.ipv4))
    ensures r.ipv4.length == Ipv4Length(len) && r.udp.length == UdpLength(len)
            && r.rdmx.targetAddr == targetAddr
    ensures r.eth == t.eth && r.ipv4.(length := t.ipv4.length, checksum := t.ipv4.checksum) == t.ipv4
            && r.udp.(length := t.udp.length) == t.udp && r.rdmx.(targetAddr := t.rdmx.targetAddr) == t.rdmx
  {
    t.(ipv4 := StampIpv4(t.ipv4, len),
       udp := t.udp.(length := UdpLength(len)),
       rdmx := t.rdmx.(targetAddr := targetAddr))
  }

  /**
   * The IPv4 total length covers the IPv4 header and the UDP datagram, the
   * UDP length covers the UDP and RDMX headers and the payload, and neither
   * wraps unless the payload exceeds 65485 bytes.
   */
  lemma LengthsAgree(len: uint16)
    ensures Ipv4Length(len) as int == (Ipv4Size + UdpLength(len) as int) % 0x1_0000
    ensures len as int <= 0xFFFF - 50 <==> Ipv4Length(len) as int == 50 + len as int
    ensures len as int <= 0xFFFF - 30 <==> UdpLength(len) as int == 30 + len as int
  {
  }

  /** The byte image of an IPv4 header value with another checksum stored in it. */
  lemma EncodeIpv4WithChecksum(h: Ipv4Header, c: uint16)
    ensures EncodeIpv4(h.(checksum := c)) == Ipv4Checksum.WithChecksum(EncodeIpv4(h), c)
  {
    var e := EncodeIpv4(h);
    assert e[..10] == [h.version, h.dsf] + Be16(h.length) + Be16(h.id) + Be16(h.flags)
                      + [h.timeToLive, h.protocol];
    assert e[12..] == h.srcIp + h.dstIp;
  }

  /**
   * An IPv4 header image `wi` that agrees with `bi` except that it holds the
   * total length for a `len`-byte payload and the checksum of its own bytes
   * decodes to the stamped IPv4 header of `bi`.
   */
  lemma {:induction false} StampedIpv4(bi: seq<uint8>, wi: seq<uint8>, len: uint16)
    requires |bi| == Ipv4Size && |wi| == Ipv4Size
    requires forall i | 0 <= i < Ipv4Size && !(2 <= i < 4) && !(10 <= i < 12) :: wi[i] == bi[i]
    requires wi[2..4] == Be16(Ipv4Length(len))
    requires wi[10..12] == Be16(Ipv4Checksum.Checksum(wi))
    ensures DecodeIpv4(wi) == StampIpv4(DecodeIpv4(bi), len)
  {
    var d := DecodeIpv4(wi);
    var h := DecodeIpv4(bi).(length := Ipv4Length(len));
    Memory.SameSlice(wi, bi, 4, 6);
    Memory.SameSlice(wi, bi, 6, 8);
    Memory.SameSlice(wi, bi, 12, 16);
    Memory.SameSlice(wi, bi, 16, 20);
    Be16RoundTrip(Ipv4Length(len));
    assert h == d.(checksum := h.checksum);
    Ipv4BytesRoundTrip(wi);
    EncodeIpv4WithChecksum(d, h.checksum);
    Ipv4Checksum.ChecksumOfWithChecksum(wi, h.checksum);
    Be16RoundTrip(Ipv4Checksum.Checksum(wi));
  }

  lemma {:induction false} StampedUdp(bu: seq<uint8>, wu: seq<uint8>, len: uint16)
    requires |bu| == UdpSize && |wu| == UdpSize
    requires forall i | 0 <= i < UdpSize && !(4 <= i < 6) :: wu[i] == bu[i]
    requires wu[4..6] == Be16(UdpLength(len))
    ensures DecodeUdp(wu) == DecodeUdp(bu).(length := UdpLength(len))
  {
    Memory.SameSlice(wu, bu, 0, 2);
    Memory.SameSlice(wu, bu, 2, 4);
    Memory.SameSlice(wu, bu, 6, 8);
    Be16RoundTrip(UdpLength(len));
  }

  lemma {:induction false} StampedRdmx(br: seq<uint8>, wr: seq<uint8>, targetAddr: uint64)
    requires |br| == RdmxSize && |wr| == RdmxSize
    requires forall i | 0 <= i < RdmxSize && !(2 <= i < 10) :: wr[i] == br[i]
    requires wr[2..10] == Be64(targetAddr)
    ensures DecodeRdmx(wr) == DecodeRdmx(br).(targetAddr := targetAddr)
  {
    Memory.SameSlice(wr, br, 0, 2);
    Memory.SameSlice(wr, br, 10, 22);
    Be64RoundTrip(targetAddr);
  }

  /**
   * A 64-byte image `w` that agrees with the template image `b` outside the
   * stamped bytes and holds there the lengths, the corrected checksum of its
   * own IPv4 header and the target address.
   */
  ghost predicate IsStampedImage(b: seq<uint8>, w: seq<uint8>, len: uint16, targetAddr: uint64)
  {
    |b| == RdmxFrameSize && |w| >= RdmxFrameSize
    && (forall i | 0 <= i < RdmxFrameSize && !IsStampedByte(i) :: w[i] == b[i])
    && w[16..18] == Be16(Ipv4Length(len))
    && w[24..26] == Be16(Ipv4Checksum.Checksum(w[Ipv4Offset..UdpOffset]))
    && w[38..40] == Be16(UdpLength(len))
    && w[44..52] == Be64(targetAddr)
  }

  /**
   * A buffer holding the single-fold value of `ipv4_checksum` at bytes 24-25
   * is not a stamped image when that fold carries.
   */
  lemma AsWrittenNotStamped(b: seq<uint8>, w: seq<uint8>, len: uint16, targetAddr: uint64)
    requires |w| >= RdmxFrameSize
    requires w[24..26] == Be16(Ipv4Checksum.ChecksumAsWritten(w[Ipv4Offset..UdpOffset]))
    requires Ipv4Checksum.Fold(Ipv4Checksum.PartialSum(w[Ipv4Offset..UdpOffset], 10)) > 0xFFFF
    ensures !IsStampedImage(b, w, len, targetAddr)
  {
    var h := w[Ipv4Offset..UdpOffset];
    Ipv4Checksum.ChecksumAsWrittenAgrees(h);
    if Be16(Ipv4Checksum.ChecksumAsWritten(h)) == Be16(Ipv4Checksum.Checksum(h)) {
      Be16RoundTrip(Ipv4Checksum.ChecksumAsWritten(h));
      Be16RoundTrip(Ipv4Checksum.Checksum(h));
    }
  }

  lemma StampedImageIpv4(b: seq<uint8>, w: seq<uint8>, len: uint16, targetAddr: uint64)
    requires IsStampedImage(b, w, len, targetAddr)
    ensures DecodeIpv4(w[Ipv4Offset..UdpOffset]) == StampIpv4(DecodeIpv4(b[Ipv4Offset..UdpOffset]), len)
  {
    var wi, bi := w[Ipv4Offset..UdpOffset], b[Ipv4Offset..UdpOffset];
    forall i | 0 <= i < Ipv4Size && !(2 <= i < 4) && !(10 <= i < 12)
      ensures wi[i] == bi[i]
    {
      assert !IsStampedByte(Ipv4Offset + i);
    }
    assert wi[2] == w[16] && wi[3] == w[17];
    assert wi[2..4] == w[16..18];
    assert wi[10] == w[24] && wi[11] == w[25];
    assert wi[10..12] == w[24..26];
    StampedIpv4(bi, wi, len);
  }

  lemma StampedImageUdp(b: seq<uint8>, w: seq<uint8>, len: uint16, targetAddr: uint64)
    requires IsStampedImage(b, w, len, targetAddr)
    ensures DecodeUdp(w[UdpOffset..RdmxOffset]) == DecodeUdp(b[UdpOffset..RdmxOffset]).(length := UdpLength(len))
  {
    var wu, bu := w[UdpOffset..RdmxOffset], b[UdpOffset..RdmxOffset];
    forall i | 0 <= i < UdpSize && !(4 <= i < 6)
      ensures wu[i] == bu[i]
    {
      assert !IsStampedByte(UdpOffset + i);
    }
    assert wu[4] == w[38] && wu[5] == w[39];
    assert wu[4..6] == w[38..40];
    StampedUdp(bu, wu, len);
  }

  lemma StampedImageRdmx(b: seq<uint8>, w: seq<uint8>, len: uint16, targetAddr: uint64)
    requires IsStampedImage(b, w, len, targetAddr)
    ensures DecodeRdmx(w[RdmxOffset..RdmxFrameSize])
            == DecodeRdmx(b[RdmxOffset..RdmxFrameSize]).(targetAddr := targetAddr)
  {
    var wr, br := w[RdmxOffset..RdmxFrameSize], b[RdmxOffset..RdmxFrameSize];
    forall i | 0 <= i < RdmxSize && !(2 <= i < 10)
      ensures wr[i] == br[i]
    {
      assert !IsStampedByte(RdmxOffset + i);
    }
    assert wr[2..10] == w[44..52];
    StampedRdmx(br, wr, targetAddr);
  }

  /**
   * Reading a stamped buffer back: an image stamped from the template image
   * `b` decodes to the stamp of the template `b` decodes to.
   */
  lemma StampedImage(b: seq<uint8>, w: seq<uint8>, len: uint16, targetAddr: uint64)
    requires IsStampedImage(b, w, len, targetAddr)
    ensures DecodeRdmxFrame(w[..RdmxFrameSize]) == Stamp(DecodeRdmxFrame(b), len, targetAddr)
  {
    var v := w[..RdmxFrameSize];
    assert v[..Ipv4Offset] == b[..Ipv4Offset] by {
      Memory.SameSlice(w, b, 0, Ipv4Offset);
    }
    assert v[Ipv4Offset..UdpOffset] == w[Ipv4Offset..UdpOffset];
    assert v[UdpOffset..RdmxOffset] == w[UdpOffset..RdmxOffset];
    assert v[RdmxOffset..RdmxFrameSize] == w[RdmxOffset..RdmxFrameSize];
    StampedImageIpv4(b, w, len, targetAddr);
    StampedImageUdp(b, w, len, targetAddr);
    StampedImageRdmx(b, w, len, targetAddr);
  }

  /**
   * The first half of `write_header` on a buffer `w0`, as a sequence: the
   * template `b` copied over its first 64 bytes, then both lengths stored.
   */
  function LengthsImage(b: seq<uint8>, w0: seq<uint8>, len: uint16): (w: seq<uint8>)
    requires |b| == RdmxFrameSize && |w0| >= RdmxFrameSize
    ensures |w| == |w0|
  {
    Memory.Splice(Memory.Splice(Memory.Splice(w0, 0, b), 16, Be16(Ipv4Length(len))),
                  38, Be16(UdpLength(len)))
  }

  /**
   * The whole of `write_header` on a buffer `w0`: after the lengths, the
   * corrected checksum (`Ipv4Checksum.Checksum`, not the single fold of
   * `ipv4_checksum`) of the IPv4 header as it then stands, then the target
   * address.
   */
  function WriteImage(b: seq<uint8>, w0: seq<uint8>, len: uint16, targetAddr: uint64): (w: seq<uint8>)
    requires |b| == RdmxFrameSize && |w0| >= RdmxFrameSize
    ensures |w| == |w0|
  {
    var w1 := LengthsImage(b, w0, len);
    var c := Ipv4Checksum.Checksum(w1[Ipv4Offset..UdpOffset]);
    Memory.Splice(Memory.Splice(w1, 24, Be16(c)), 44, Be64(targetAddr))
  }

  lemma {:induction false} LengthsImageFacts(b: seq<uint8>, w0: seq<uint8>, len: uint16)
    requires |b| == RdmxFrameSize && |w0| >= RdmxFrameSize
    ensures var w1 := LengthsImage(b, w0, len);
      (forall i | 0 <= i < RdmxFrameSize && !(16 <= i < 18) && !(38 <= i < 40) :: w1[i] == b[i])
      && w1[16..18] == Be16(Ipv4Length(len)) && w1[38..40] == Be16(UdpLength(len))
      && (forall i | RdmxFrameSize <= i < |w0| :: w1[i] == w0[i])
  {
    var w1 := LengthsImage(b, w0, len);
    var u := Memory.Splice(Memory.Splice(w0, 0, b), 16, Be16(Ipv4Length(len)));
    Memory.SameSlice(w1, u, 16, 18);
  }

  /**
   * The buffer `write_header` leaves behind, with the corrected checksum
   * stored, is a stamped image of the template, and the bytes after the
   * header are those that were there.
   */
  lemma {:induction false} WriteImageIsStamped(b: seq<uint8>, w0: seq<uint8>, len: uint16, targetAddr: uint64)
    requires |b| == RdmxFrameSize && |w0| >= RdmxFrameSize
    ensures IsStampedImage(b, WriteImage(b, w0, len, targetAddr), len, targetAddr)
    ensures WriteImage(b, w0, len, targetAddr)[RdmxFrameSize..] == w0[RdmxFrameSize..]
  {
    var w1 := LengthsImage(b, w0, len);
    LengthsImageFacts(b, w0, len);
    var c := Ipv4Checksum.Checksum(w1[Ipv4Offset..UdpOffset]);
    var w2 := Memory.Splice(w1, 24, Be16(c));
    var w := WriteImage(b, w0, len, targetAddr);
    assert w == Memory.Splice(w2, 44, Be64(targetAddr));
    var before, after := w1[Ipv4Offset..UdpOffset], w[Ipv4Offset..UdpOffset];
    Memory.SameSlice(before, after, 0, 10);
    Memory.SameSlice(before, after, 12, 20);
    Ipv4Checksum.ChecksumIgnoresChecksumField(before, after);
    Memory.SameSlice(w, w1, 16, 18);
    Memory.SameSlice(w, w1, 38, 40);
    Memory.SameSlice(w, w2, 24, 26);
    Memory.SameSuffix(w, w0, RdmxFrameSize);
  }

  /**
   * Everything `write_header` promises, about the buffer it leaves behind:
   * a stamped image of the template whose 64 bytes are the image of the
   * stamped template and whose IPv4 checksum verifies, with the bytes after
   * the header as they were.
   */
  lemma WriteImageSpec(b: seq<uint8>, w0: seq<uint8>, len: uint16, targetAddr: uint64)
    requires |b| == RdmxFrameSize && |w0| >= RdmxFrameSize
    ensures var w := WriteImage(b, w0, len, targetAddr);
      IsStampedImage(b, w, len, targetAddr)
      && w[RdmxFrameSize..] == w0[RdmxFrameSize..]
      && w[..RdmxFrameSize] == EncodeRdmxFrame(Stamp(DecodeRdmxFrame(b), len, targetAddr))
      && Ipv4Checksum.ChecksumVerifies(w[Ipv4Offset..UdpOffset])
  {
    var w := WriteImage(b, w0, len, targetAddr);
    WriteImageIsStamped(b, w0, len, targetAddr);
    StampedImage(b, w, len, targetAddr);
    RdmxFrameBytesRoundTrip(w[..RdmxFrameSize]);
    StampedImageReads(b, w, len, targetAddr);
  }

  /**
   * What a receiver reads back from a stamped image: an IPv4 checksum that
   * verifies, the two lengths and the target address.
   */
  lemma StampedImageReads(b: seq<uint8>, w: seq<uint8>, len: uint16, targetAddr: uint64)
    requires IsStampedImage(b, w, len, targetAddr)
    ensures Ipv4Checksum.ChecksumVerifies(w[Ipv4Offset..UdpOffset])
    ensures FromBe16(w[16..18]) == Ipv4Length(len) && FromBe16(w[38..40]) == UdpLength(len)
    ensures FromBe64(w[44..52]) == targetAddr
  {
    var h := w[Ipv4Offset..UdpOffset];
    assert h[10..12] == w[24..26] by {
      assert h[10] == w[24] && h[11] == w[25];
    }
    Ipv4Checksum.StoredChecksumVerifies(h);
    Be16RoundTrip(Ipv4Length(len));
    Be16RoundTrip(UdpLength(len));
    Be64RoundTrip(targetAddr);
  }

  /**
   * A stamped header is a well-formed header of this template: its image
   * agrees with the template's image except in the four stamped fields,
   * which hold the lengths of the payload, the checksum of its own IPv4
   * header and the target address; that checksum verifies, and the lengths
   * and the target address read back.
   */
  lemma StampIsSound(t: RdmxFrame, len: uint16, targetAddr: uint64)
    ensures IsStampedImage(EncodeRdmxFrame(t), EncodeRdmxFrame(Stamp(t, len, targetAddr)), len, targetAddr)
    ensures var b := EncodeRdmxFrame(Stamp(t, len, targetAddr));
      Ipv4Checksum.ChecksumVerifies(b[Ipv4Offset..UdpOffset])
      && FromBe16(b[16..18]) == Ipv4Length(len) && FromBe16(b[38..40]) == UdpLength(len)
      && FromBe64(b[44..52]) == targetAddr
  {
    var tb := EncodeRdmxFrame(t);
    var b := EncodeRdmxFrame(Stamp(t, len, targetAddr));
    WriteImageSpec(tb, tb, len, targetAddr);
    RdmxFrameRoundTrip(t);
    var w := WriteImage(tb, tb, len, targetAddr);
    assert w == w[..RdmxFrameSize] == b;
    StampedImageReads(tb, b, len, targetAddr);
  }

  /**
   * `set_mac_addrs` on a template image `b`: the MACs land in bytes 0..11,
   * the other 52 bytes stay, and only the Ethernet addresses of the decoded
   * template change.
   */
  lemma {:induction false} MacsImage(b: seq<uint8>, dst: Mac, src: Mac)
    requires |b| == RdmxFrameSize
    ensures var w := Memory.Splice(Memory.Splice(b, 6, src), 0, dst);
      w[6..12] == src && w[0..6] == dst && w[12..] == b[12..]
      && DecodeRdmxFrame(w) == DecodeRdmxFrame(b).(eth := DecodeRdmxFrame(b).eth.(dstMac := dst, srcMac := src))
  {
    var w1 := Memory.Splice(b, 6, src);
    var w := Memory.Splice(w1, 0, dst);
    Memory.SameSlice(w, w1, 6, 12);
    Memory.SameSlice(w, b, 12, RdmxFrameSize);
    assert w[12..] == w[12..RdmxFrameSize] && b[12..] == b[12..RdmxFrameSize];
    Memory.SameSlice(w, b, 12, 14);
    Memory.SameSlice(w, b, Ipv4Offset, UdpOffset);
    Memory.SameSlice(w, b, UdpOffset, RdmxOffset);
    Memory.SameSlice(w, b, RdmxOffset, RdmxFrameSize);
    assert w[..Ipv4Offset][0..6] == dst && w[..Ipv4Offset][6..12] == src;
    assert w[..Ipv4Offset][12..14] == b[..Ipv4Offset][12..14];
  }

  /**
   * `set_ip_addrs` on a template image `b`: the addresses land in bytes
   * 26..33, nothing else changes, and only the IP addresses of the decoded
   * template change.
   */
  lemma {:induction false} IpsImage(b: seq<uint8>, src: IpAddr, dst: IpAddr)
    requires |b| == RdmxFrameSize
    ensures var w := Memory.Splice(Memory.Splice(b, 26, src), 30, dst);
      w[26..30] == src && w[30..34] == dst && w[..26] == b[..26] && w[34..] == b[34..]
      && DecodeRdmxFrame(w) == DecodeRdmxFrame(b).(ipv4 := DecodeRdmxFrame(b).ipv4.(srcIp := src, dstIp := dst))
  {
    var w1 := Memory.Splice(b, 26, src);
    var w := Memory.Splice(w1, 30, dst);
    Memory.SameSlice(w, w1, 26, 30);
    Memory.SameSlice(w, b, 0, 26);
    Memory.SameSlice(w, b, 34, RdmxFrameSize);
    assert w[34..] == w[34..RdmxFrameSize] && b[34..] == b[34..RdmxFrameSize];
    Memory.SameSlice(w, b, 0, Ipv4Offset);
    Memory.SameSlice(w, b, UdpOffset, RdmxOffset);
    Memory.SameSlice(w, b, RdmxOffset, RdmxFrameSize);
    var wi, bi := w[Ipv4Offset..UdpOffset], b[Ipv4Offset..UdpOffset];
    Memory.SameSlice(wi, bi, 2, 4);
    Memory.SameSlice(wi, bi, 4, 6);
    Memory.SameSlice(wi, bi, 6, 8);
    Memory.SameSlice(wi, bi, 10, 12);
    assert wi[12..16] == src && wi[16..20] == dst;
  }

  /**
   * `set_udp_ports` on a template image `b`: the ports land big-endian in
   * bytes 34..37, nothing else changes, and only the UDP ports of the
   * decoded template change.
   */
  lemma {:induction false} PortsImage(b: seq<uint8>, src: uint16, dst: uint16)
    requires |b| == RdmxFrameSize
    ensures var w := Memory.Splice(Memory.Splice(b, 34, Be16(src)), 36, Be16(dst));
      w[34..36] == Be16(src) && w[36..38] == Be16(dst) && w[..34] == b[..34] && w[38..] == b[38..]
      && DecodeRdmxFrame(w) == DecodeRdmxFrame(b).(udp := DecodeRdmxFrame(b).udp.(srcPort := src, dstPort := dst))
  {
    var w1 := Memory.Splice(b, 34, Be16(src));
    var w := Memory.Splice(w1, 36, Be16(dst));
    Memory.SameSlice(w, w1, 34, 36);
    Memory.SameSlice(w, b, 0, 34);
    Memory.SameSlice(w, b, 38, RdmxFrameSize);
    assert w[38..] == w[38..RdmxFrameSize] && b[38..] == b[38..RdmxFrameSize];
    Memory.SameSlice(w, b, 0, Ipv4Offset);
    Memory.SameSlice(w, b, Ipv4Offset, UdpOffset);
    Memory.SameSlice(w, b, RdmxOffset, RdmxFrameSize);
    var wu, bu := w[UdpOffset..RdmxOffset], b[UdpOffset..RdmxOffset];
    Memory.SameSlice(wu, bu, 4, 6);
    Memory.SameSlice(wu, bu, 6, 8);
    assert wu[0] == w[34] && wu[1] == w[35] && wu[2] == w[36] && wu[3] == w[37];
    assert wu[0..2] == Be16(src) && wu[2..4] == Be16(dst);
    Be16RoundTrip(src);
    Be16RoundTrip(dst);
  }

  /** The Ethernet part of the constructor: EtherType IPv4, source MAC 00 x 6, destination MAC FF x 6. */
  method InitEthernet(f: array<uint8>)
    requires f.Length == RdmxFrameSize
    modifies f
    ensures forall i | 0 <= i < EthSize :: f[i] == DefaultByte(i)
    ensures forall i | EthSize <= i < RdmxFrameSize :: f[i] == old(f[i])
  {
    f[12], f[13] := 0x08, 0x00;
    forall i | 6 <= i < 12 {
      f[i] := 0x00;
    }
    forall i | 0 <= i < 6 {
      f[i] := 0xFF;
    }
  }

  /**
   * The IPv4 part of the constructor: version 4 with a 5-word header, DSF 0,
   * id 0xDEAD, "don't fragment", TTL 64, protocol UDP.
   */
  method InitIpv4(f: array<uint8>)
    requires f.Length == RdmxFrameSize
    modifies f
    ensures forall i | Ipv4Offset <= i < 24 && !(16 <= i < 18) :: f[i] == DefaultByte(i)
    ensures forall i | 0 <= i < RdmxFrameSize && !(Ipv4Offset <= i < 16) && !(18 <= i < 24) :: f[i] == old(f[i])
  {
    f[14] := 0x45;
    f[15] := 0;
    f[18], f[19] := 0xDE, 0xAD;
    f[20], f[21] := 0x40, 0x00;
    f[22] := 0x40;
    f[23] := 0x11;
  }

  /** The UDP and RDMX part of the constructor: UDP checksum 0 ("no checksum"), RDMX magic 0x0122. */
  method InitUdpRdmx(f: array<uint8>)
    requires f.Length == RdmxFrameSize
    modifies f
    ensures forall i | 40 <= i < 44 :: f[i] == DefaultByte(i)
    ensures forall i | 0 <= i < RdmxFrameSize && !(40 <= i < 44) :: f[i] == old(f[i])
  {
    f[40], f[41] := 0x00, 0x00;
    f[42], f[43] := 0x01, 0x22;
  }

  class RawRdmx {
    /** The header template (`frame_`). */
    var frame: array<uint8>

    ghost predicate Valid()
      reads this
    {
      frame.Length == RdmxFrameSize
    }

    /** The template read as a header value. */
    ghost function Template(): RdmxFrame
      reads this, frame
      requires Valid()
    {
      DecodeRdmxFrame(frame[..])
    }

    /** Zero-fills the template, then stores the header field constants of `DefaultTemplate`. */
    constructor ()
      ensures Valid() && fresh(frame)
      ensures forall i | 0 <= i < RdmxFrameSize :: frame[i] == DefaultByte(i)
      ensures Template() == DefaultTemplate
      ensures frame[..] == EncodeRdmxFrame(DefaultTemplate)
    {
      var f := new uint8[RdmxFrameSize];
      forall i | 0 <= i < RdmxFrameSize {
        f[i] := 0;
      }
      InitEthernet(f);
      InitIpv4(f);
      InitUdpRdmx(f);
      frame := f;
      DefaultBytesDecode(f[..]);
      RdmxFrameBytesRoundTrip(f[..]);
    }

    /**
     * Sets the source MAC and the destination MAC, the broadcast address
     * when the destination is omitted. Nothing else in the template changes.
     */
    method SetMacAddrs(srcMac: Mac, dstMac: Option<Mac> := None)
      requires Valid()
      modifies frame
      ensures Valid()
      ensures frame[6..12] == srcMac
      ensures frame[0..6] == (if dstMac.Some? then dstMac.value else BroadcastMac)
      ensures frame[12..] == old(frame[12..])
      ensures Template() == old(Template()).(eth := old(Template()).eth.(
                dstMac := if dstMac.Some? then dstMac.value else BroadcastMac, srcMac := srcMac))
    {
      var dst := if dstMac.None? then BroadcastMac else dstMac.value;
      ghost var b := frame[..];
      Memory.Copy(frame, 6, srcMac);
      Memory.Copy(frame, 0, dst);
      MacsImage(b, dst, srcMac);
    }

    /** Copies the source and destination IPv4 addresses verbatim; nothing else changes. */
    method SetIpAddrs(srcIp: IpAddr, dstIp: IpAddr)
      requires Valid()
      modifies frame
      ensures Valid()
      ensures frame[26..30] == srcIp && frame[30..34] == dstIp
      ensures frame[..26] == old(frame[..26]) && frame[34..] == old(frame[34..])
      ensures Template() == old(Template()).(ipv4 := old(Template()).ipv4.(srcIp := srcIp, dstIp := dstIp))
    {
      ghost var b := frame[..];
      Memory.Copy(frame, 26, srcIp);
      Memory.Copy(frame, 30, dstIp);
      IpsImage(b, srcIp, dstIp);
    }

    /**
     * Stores the UDP source and destination ports (11111 when omitted) in
     * network byte order; nothing else changes.
     */
    method SetUdpPorts(srcPort: uint16, dstPort: uint16 := DefaultDstPort)
      requires Valid()
      modifies frame
      ensures Valid()
      ensures frame[34..36] == Be16(srcPort) && frame[36..38] == Be16(dstPort)
      ensures frame[..34] == old(frame[..34]) && frame[38..] == old(frame[38..])
      ensures Template() == old(Template()).(udp := old(Template()).udp.(srcPort := srcPort, dstPort := dstPort))
    {
      ghost var b := frame[..];
      Memory.Put16(frame, 34, srcPort);
      Memory.Put16(frame, 36, dstPort);
      PortsImage(b, srcPort, dstPort);
    }

    /**
     * Writes one 64-byte header at `where`: the template, with the IPv4 total
     * length and the UDP length of a `payloadLength`-byte payload, the IPv4
     * checksum of the header written, and `targetAddr`, all in network byte
     * order. The template and the bytes after the header are untouched.
     */
    method WriteHeader(where: array<uint8>, payloadLength: uint16, targetAddr: uint64)
      requires Valid()
      requires where.Length >= RdmxFrameSize && where != frame
      modifies where
      ensures frame[..] == old(frame[..])
      ensures where[RdmxFrameSize..] == old(where[RdmxFrameSize..])
      ensures IsStampedImage(frame[..], where[..], payloadLength, targetAddr)
      ensures Ipv4Checksum.ChecksumVerifies(where[Ipv4Offset..UdpOffset])
      ensures where[..RdmxFrameSize] == EncodeRdmxFrame(Stamp(Template(), payloadLength, targetAddr))
    {
      ghost var w0 := where[..];
      Memory.Copy(where, 0, frame[..]);
      var ip4Length := Ipv4Length(payloadLength);
      var udpLength := UdpLength(payloadLength);
      Memory.Put16(where, 16, ip4Length);
      Memory.Put16(where, 38, udpLength);
      assert where[..] == LengthsImage(frame[..], w0, payloadLength);
      var checksum := Ipv4Checksum.ComputeChecksum(where, Ipv4Offset);
      Memory.Put16(where, 24, checksum);
      Memory.Put64(where, 44, targetAddr);
      assert where[..] == WriteImage(frame[..], w0, payloadLength, targetAddr);
      WriteImageSpec(frame[..], w0, payloadLength, targetAddr);
    }
  }
}
