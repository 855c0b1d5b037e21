/**
 * `CRawUDP` (raw_udp.h): a reusable 42-byte Ethernet/IPv4/UDP header
 * template, filled in by three setters and copied out by `write_header`.
 *
 * raw_udp.h declares the class; its implementation is not part of this
 * model, so the bodies below are illustrative only: they show one way to
 * meet the contracts, not what `CRawUDP` does. (The constructor, for one,
 * stores only EtherType IPv4, version/IHL 0x45, "don't fragment", TTL 64
 * and protocol UDP, and no identification.) The contracts state only what
 * the declarations promise: a 42-byte template, setters that define the addresses and the
 * ports (the destination MAC defaulting to broadcast), and a `write_header`
 * that writes one 42-byte header carrying them. Byte offsets are those of
 * an Ethernet II frame with a 20-byte IPv4 header and a UDP header.
 */
module Udp {
  import opened ByteOrder
  import opened Headers
  import Ipv4Checksum
  import Memory

  class RawUdp {
    /** The header template (`frame_`). */
    var frame: array<uint8>

    ghost predicate Valid()
      reads this
    {
      frame.Length == UdpFrameSize
    }

    /** Zero-fills the template and stores the header field constants. */
    constructor ()
      ensures Valid() && fresh(frame)
    {
      var f := new uint8[UdpFrameSize];
      forall i | 0 <= i < UdpFrameSize {
        f[i] := 0;
      }
      f[12], f[13] := 0x08, 0x00;
      f[14] := 0x45;
      f[20], f[21] := 0x40, 0x00;
      f[22] := 0x40;
      f[23] := 0x11;
      frame := f;
    }

    /**
     * Defines the source MAC and the destination MAC, the broadcast address
     * when the destination is omitted; the IP addresses and the ports the
     * other setters define are left as they are.
     */
    method SetMacAddrs(srcMac: Mac, dstMac: Option<Mac> := None)
      requires Valid()
      modifies frame
      ensures Valid()
      ensures frame[6..12] == srcMac
      ensures frame[0..6] == (if dstMac.Some? then dstMac.value else BroadcastMac)
      ensures forall i | 26 <= i < 38 :: frame[i] == old(frame[i])
    {
      var dst := if dstMac.None? then BroadcastMac else dstMac.value;
      ghost var b := frame[..];
      Memory.Copy(frame, 6, srcMac);
      ghost var b1 := frame[..];
      Memory.Copy(frame, 0, dst);
      Memory.SameSlice(frame[..], b1, 6, 12);
    }

    /** Defines the source and destination IP addresses; the MACs and the ports are left as they are. */
    method SetIpAddrs(srcIp: IpAddr, dstIp: IpAddr)
      requires Valid()
      modifies frame
      ensures Valid()
      ensures frame[26..30] == srcIp && frame[30..34] == dstIp
      ensures forall i | 0 <= i < 12 || 34 <= i < 38 :: frame[i] == old(frame[i])
    {
      ghost var b := frame[..];
      Memory.Copy(frame, 26, srcIp);
      ghost var b1 := frame[..];
      Memory.Copy(frame, 30, dstIp);
      Memory.SameSlice(frame[..], b1, 26, 30);
    }

    /**
     * Defines the source and destination UDP ports, both of them required,
     * in network byte order; the MACs and the IP addresses are left as they are.
     */
    method SetUdpPorts(srcPort: uint16, dstPort: uint16)
      requires Valid()
      modifies frame
      ensures Valid()
      ensures frame[34..36] == Be16(srcPort) && frame[36..38] == Be16(dstPort)
      ensures forall i | 0 <= i < 12 || 26 <= i < 34 :: frame[i] == old(frame[i])
    {
      ghost var b := frame[..];
      Memory.Put16(frame, 34, srcPort);
      ghost var b1 := frame[..];
      Memory.Put16(frame, 36, dstPort);
      Memory.SameSlice(frame[..], b1, 34, 36);
    }

    /**
     * Writes one 42-byte header at `where` for a `payloadLength`-byte
     * payload. The header carries the template's addresses and ports; the
     * template and the bytes after the header are untouched.
     */
    method WriteHeader(where: array<uint8>, payloadLength: uint16)
      requires Valid()
      requires where.Length >= UdpFrameSize && where != frame
      modifies where
      ensures frame[..] == old(frame[..])
      ensures where[UdpFrameSize..] == old(where[UdpFrameSize..])
      ensures forall i | 0 <= i < 12 || 26 <= i < 38 :: where[i] == frame[i]
      ensures var d, t := DecodeUdpFrame(where[..UdpFrameSize]), DecodeUdpFrame(frame[..]);
        d.eth == t.eth.(frameType := d.eth.frameType)
        && d.ipv4.srcIp == t.ipv4.srcIp && d.ipv4.dstIp == t.ipv4.dstIp
        && d.udp.srcPort == t.udp.srcPort && d.udp.dstPort == t.udp.dstPort
    {
      ghost var w0 := where[..];
      Memory.Copy(where, 0, frame[..]);
      ghost var w1 := where[..];
      var ip4Length := ((Ipv4Size + UdpSize + payloadLength as nat) % 0x1_0000) as uint16;
      var udpLength := ((UdpSize + payloadLength as nat) % 0x1_0000) as uint16;
      Memory.Put16(where, 16, ip4Length);
      Memory.Put16(where, 38, udpLength);
      var checksum := Ipv4Checksum.ComputeChecksum(where, Ipv4Offset);
      Memory.Put16(where, 24, checksum);
      Memory.SameSuffix(where[..], w0, UdpFrameSize);
      UdpFrameSameAddresses(where[..UdpFrameSize], frame[..]);
    }
  }
}
