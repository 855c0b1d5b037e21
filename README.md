# Raw Ethernet/IPv4/UDP/RDMX header templates

This project models the frame-header builders of a raw-socket sender in Dafny. The sender puts Ethernet frames that carry IPv4, UDP and a small addressing extension called RDMX straight onto a network interface, bypassing the host's IP stack. Each builder holds a byte template of the headers, and a fixed sequence of steps fills it in:

- `CRawRDMX`'s constructor stores the header field constants: EtherType IPv4, version/IHL 0x45, id 0xDEAD, "don't fragment", TTL 64, protocol UDP, UDP checksum 0, RDMX magic 0x0122.
- Three setters store the MAC addresses (the destination defaults to broadcast), the IPv4 addresses and the UDP ports (the RDMX destination port defaults to 11111).
- `write_header` copies the template into a caller's buffer and stamps the per-frame fields into the copy:
  - the IPv4 total length and the UDP length for the payload;
  - the IPv4 header checksum;
  - for RDMX, the 64-bit target address.

The model has six modules:

- `ByteOrder`: fixed-width integers and their big-endian images (`htons`, `htonl`, the `htonll` macro), with round trips both ways.
- `Headers`: the packed structures `eth_hdr_t`, `ipv4_hdr_t`, `udp_hdr_t`, `rdmx_hdr_t` and `raw_rdmx_t` as datatypes, with encoders and decoders that are inverse both ways, the field offsets, and the checksummed sum in terms of the header's fields.
- `Ipv4Checksum`: `ipv4_checksum` as a loop proved against a function, and the receiver's test.
- `Memory`: `memcpy` and network-order field stores on a byte array, each specified by the sequence it leaves.
- `Rdmx`: `CRawRDMX` as a class over a 64-byte array. Its abstract value `Template()` is the decoded header; every setter's effect on it is stated, and `WriteHeader` is proved to write the image of the stamped template.
- `Udp`: `CRawUDP` as a class over a 42-byte array. Its implementation file is not part of this model, so its contracts state only what its declarations promise.

`Usage` follows the intended call sequence of both builders and works out the demonstration driver's RDMX header at bytes 0-11 (MAC addresses), 16-17 (IPv4 total length), 24-25 (IPv4 checksum), 36-37 (UDP destination port), 38-39 (UDP length) and 44-51 (target address), and shows that its IPv4 header passes the receiver's checksum test.

## Model

| member | source | states |
|---|---|---|
| ByteOrder.Be16 | raw_rdmx.cpp:186-187 | `htons` gives two bytes, most significant first, whose positional value is the 16-bit value |
| ByteOrder.Be32 | raw_rdmx.cpp:62 | `htonl` gives four bytes, most significant first, whose positional value is the 32-bit value |
| ByteOrder.Be64 | raw_rdmx.cpp:62 | `htonll` gives eight bytes, most significant first, whose positional value is the 64-bit value |
| ByteOrder.Be16RoundTrip | raw_rdmx.cpp:186-187 | reading back the two network-order bytes of a 16-bit value gives the value |
| ByteOrder.FromBe16RoundTrip | raw_rdmx.cpp:83 | every two-byte string is the network-order image of the value read from it |
| ByteOrder.Be32RoundTrip | raw_rdmx.cpp:62 | the four `htonl` bytes of a 32-bit value read back as the value |
| ByteOrder.FromBe32RoundTrip | raw_rdmx.cpp:62 | every four-byte string is the `htonl` image of the value read from it |
| ByteOrder.Be64RoundTrip | raw_rdmx.cpp:62 | `htonll` lays a 64-bit value out as eight bytes, most significant first, that read back as the value |
| ByteOrder.FromBe64RoundTrip | raw_rdmx.cpp:62 | every eight-byte string is the `htonll` image of the value read from it |
| ByteOrder.Be64Injective | raw_rdmx.cpp:62 | distinct target addresses never share an image |
| Headers.EthRoundTrip | raw_rdmx.cpp:13-18 | decoding the 14-byte image of an Ethernet header gives it back |
| Headers.EthBytesRoundTrip | raw_rdmx.cpp:13-18 | every 14 bytes are the image of the Ethernet header they decode to |
| Headers.Ipv4RoundTrip | raw_rdmx.cpp:20-32 | decoding the 20-byte image of an IPv4 header gives it back |
| Headers.Ipv4BytesRoundTrip | raw_rdmx.cpp:20-32 | every 20 bytes are the image of the IPv4 header they decode to |
| Headers.UdpRoundTrip | raw_rdmx.cpp:34-40 | decoding the 8-byte image of a UDP header gives it back |
| Headers.UdpBytesRoundTrip | raw_rdmx.cpp:34-40 | every 8 bytes are the image of the UDP header they decode to |
| Headers.RdmxRoundTrip | raw_rdmx.cpp:42-47 | decoding the 22-byte image of an RDMX header gives it back |
| Headers.RdmxBytesRoundTrip | raw_rdmx.cpp:42-47 | every 22 bytes are the image of the RDMX header they decode to |
| Headers.RdmxFrameRoundTrip | raw_rdmx.cpp:49-55 | the packed 64-byte frame decodes back to the frame |
| Headers.RdmxFrameBytesRoundTrip | raw_rdmx.cpp:49-55 | every 64-byte buffer is the image of the frame it decodes to |
| Headers.RdmxFrameLayout | raw_rdmx.cpp:49-55 | the offsets of the MACs, total length, checksum, IPs, ports, UDP length and target address in the packed frame |
| Headers.UdpFrameRoundTrip | raw_udp.h:10-11 | the 42-byte Ethernet/IPv4/UDP header decodes back to itself |
| Headers.UdpFrameBytesRoundTrip | raw_udp.h:10-11 | every 42-byte buffer is the image of the header it decodes to |
| Headers.UdpFrameSameAddresses | raw_udp.h:10-11 | two 42-byte headers that agree at bytes 0-11 and 26-37 decode to the same MACs, IP addresses and ports |
| Headers.EncodedIpv4Sum | raw_rdmx.cpp:74-84 | the checksummed sum of an encoded header in terms of its fields, with the checksum field not counted |
| Ipv4Checksum.PartialSumWords | raw_rdmx.cpp:78-84 | the sum covers exactly words 0-4 and 6-9 of the header |
| Ipv4Checksum.PartialSumBound | raw_rdmx.cpp:79-84 | nine 16-bit words sum to at most 9 x 0xFFFF, so the 32-bit accumulator never overflows |
| Ipv4Checksum.PartialSumIgnoresChecksumField | raw_rdmx.cpp:81-83 | headers that differ only in bytes 10-11 have the same sum |
| Ipv4Checksum.ChecksumIgnoresChecksumField | raw_rdmx.cpp:81-83 | headers that differ only in the checksum field get the same checksum, both as written and corrected |
| Ipv4Checksum.ChecksumOfWithChecksum | raw_rdmx.cpp:81-83 | storing any value in the checksum field leaves the checksum of the header unchanged |
| Ipv4Checksum.FullSumWithChecksum | raw_rdmx.cpp:219-220 | a receiver's ten-word sum is the checksummed sum plus the value stored in the checksum field |
| Ipv4Checksum.ChecksumAsWritten | raw_rdmx.cpp:86-92 | the value `ipv4_checksum` returns: the 32-bit complement of the once-folded sum, truncated to 16 bits |
| Ipv4Checksum.Checksum | raw_rdmx.cpp:86-92 | the corrected checksum: a header holding it in bytes 10-11 passes the receiver's test (its folded ten-word sum is 0xFFFF) |
| Ipv4Checksum.StoredChecksumVerifies | raw_rdmx.cpp:219-220 | any header whose bytes 10-11 hold its checksum passes the receiver's test |
| Ipv4Checksum.ChecksumAsWrittenAgrees | raw_rdmx.cpp:86-92 | the single-fold value equals the checksum if and only if the one fold does not carry |
| Ipv4Checksum.ChecksumAsWrittenFailsOnCarry | raw_rdmx.cpp:86-92 | the single-fold value passes the receiver's test if and only if the one fold does not carry |
| Ipv4Checksum.ComputeChecksum | raw_rdmx.cpp:69-93 | the loop over the ten words, skipping word 5, then the folds and complement, returns the checksum of the 20 bytes at `off`, which is the single-fold value whenever that fold does not carry |
| Memory.Copy | raw_rdmx.cpp:199 | `memcpy` replaces exactly the bytes it names and leaves the rest of the array as it was |
| Memory.Put16 | raw_rdmx.cpp:216-217 | storing `htons(x)` through the packed view writes the big-endian bytes of `x` at the field's offset, nothing else |
| Memory.Put64 | raw_rdmx.cpp:223 | storing `htonll(x)` writes the eight big-endian bytes of `x` at the field's offset, nothing else |
| Rdmx.DefaultEthDecode | raw_rdmx.cpp:115-120 | the constructor's Ethernet bytes decode to broadcast destination, zero source, EtherType 0x0800 |
| Rdmx.DefaultIpv4Decode | raw_rdmx.cpp:122-128 | the constructor's IPv4 bytes decode to 0x45, DSF 0, id 0xDEAD, flags 0x4000, TTL 64, protocol 0x11, zeros elsewhere |
| Rdmx.DefaultUdpDecode | raw_rdmx.cpp:130-131 | the constructor's UDP bytes decode to an all-zero UDP header (checksum 0) |
| Rdmx.DefaultRdmxDecode | raw_rdmx.cpp:133-134 | the constructor's RDMX bytes decode to magic 0x0122, target 0, zero reserved bytes |
| Rdmx.DefaultBytesDecode | raw_rdmx.cpp:109-134 | the constructor's 64 bytes decode to the default template |
| Rdmx.DefaultTemplateBytes | raw_rdmx.cpp:109-134 | the image of the default template is, byte for byte, the buffer the constructor leaves: zeros except FF x 6, 08 00, 45, DE AD, 40 00, 40, 11 and 01 22 |
| Rdmx.Ipv4Length | raw_rdmx.cpp:205-208 | the IPv4 total length is payload + 50 exactly when that fits in 16 bits, and wraps modulo 2^16 otherwise |
| Rdmx.UdpLength | raw_rdmx.cpp:211-213 | the UDP length is payload + 30 exactly when that fits in 16 bits, and wraps modulo 2^16 otherwise |
| Rdmx.InitEthernet | raw_rdmx.cpp:115-120 | bytes 0-13 hold FF x 6, 00 x 6, 08 00, and no other byte changes |
| Rdmx.InitIpv4 | raw_rdmx.cpp:122-128 | the IPv4 constants land at their offsets, and the lengths, checksum and addresses are untouched |
| Rdmx.InitUdpRdmx | raw_rdmx.cpp:130-134 | UDP checksum 00 00 and magic 01 22 at bytes 40-43, and nothing else changes |
| Rdmx.LengthsAgree | raw_rdmx.cpp:204-213 | the IPv4 total length is 20 more than the UDP length modulo 2^16, and each equals payload+50 or payload+30 exactly when it does not wrap |
| Rdmx.StampIpv4 | raw_rdmx.cpp:204-220 | the stamped IPv4 header holds the new total length and the corrected checksum, which verifies, and no other field changes |
| Rdmx.Stamp | raw_rdmx.cpp:195-224 | the stamped template holds both lengths, the corrected IPv4 checksum, which verifies, and the target address, and no other field changes |
| Rdmx.EncodeIpv4WithChecksum | raw_rdmx.cpp:220 | setting the checksum field of a header value and encoding is storing the checksum into its image |
| Rdmx.StampedIpv4 | raw_rdmx.cpp:204-220 | an IPv4 image holding the new length and its own checksum, otherwise as the template, decodes to the stamped IPv4 header |
| Rdmx.StampedUdp | raw_rdmx.cpp:210-217 | a UDP image holding the new length, otherwise as the template, decodes to the template's UDP header with that length |
| Rdmx.StampedRdmx | raw_rdmx.cpp:222-223 | an RDMX image holding the target address, otherwise as the template, decodes to the template's RDMX header with that target |
| Rdmx.StampedImageIpv4 | raw_rdmx.cpp:204-220 | the IPv4 part of a stamped buffer decodes to the stamped IPv4 header of the template |
| Rdmx.StampedImageUdp | raw_rdmx.cpp:210-217 | the UDP part of a stamped buffer decodes to the template's UDP header with the stamped length |
| Rdmx.StampedImageRdmx | raw_rdmx.cpp:222-223 | the RDMX part of a stamped buffer decodes to the template's RDMX header with the target address |
| Rdmx.StampedImage | raw_rdmx.cpp:195-224 | a stamped buffer decodes to the stamp of the template it was made from |
| Rdmx.LengthsImageFacts | raw_rdmx.cpp:198-217 | after the copy and the length stores the buffer is the template except at the two lengths, which hold them, and the rest is untouched |
| Rdmx.WriteImageIsStamped | raw_rdmx.cpp:195-224 | the buffer `write_header` leaves, with the corrected checksum stored, is a stamped image of the template, and the bytes after 64 are untouched |
| Rdmx.AsWrittenNotStamped | raw_rdmx.cpp:219-220 | a buffer holding `ipv4_checksum`'s single-fold value is not a stamped image whenever that fold carries |
| Rdmx.WriteImageSpec | raw_rdmx.cpp:195-224 | the buffer `write_header` leaves holds the image of the stamped template, whose IPv4 checksum is the corrected one and verifies |
| Rdmx.StampedImageReads | raw_rdmx.cpp:216-223 | a receiver reading a stamped buffer gets both lengths and the target address back, and the corrected checksum, which verifies |
| Rdmx.StampIsSound | raw_rdmx.cpp:195-224 | the image of any stamped template differs from the template's image only in the four stamped fields, and they read back as stamped, the corrected checksum verifying |
| Rdmx.MacsImage | raw_rdmx.cpp:143-157 | storing the MACs changes bytes 0-11 only, and in the decoded template only the Ethernet addresses |
| Rdmx.IpsImage | raw_rdmx.cpp:165-173 | storing the IPs changes bytes 26-33 only, and in the decoded template only the IP addresses |
| Rdmx.PortsImage | raw_rdmx.cpp:180-188 | storing the ports changes bytes 34-37 only, and in the decoded template only the UDP ports |
| Rdmx.RawRdmx.constructor | raw_rdmx.cpp:100-135 | the template holds the default bytes and decodes to the default template |
| Rdmx.RawRdmx.SetMacAddrs | raw_rdmx.cpp:143-157 | the source MAC and the destination MAC (broadcast when omitted) are set, and nothing else in the template changes |
| Rdmx.RawRdmx.SetIpAddrs | raw_rdmx.cpp:165-173 | the IP addresses are copied verbatim, and nothing else in the template changes |
| Rdmx.RawRdmx.SetUdpPorts | raw_rdmx.cpp:180-188 | the ports are stored big-endian, the destination 11111 when omitted (raw_rdmx.h:33), and nothing else changes |
| Rdmx.RawRdmx.WriteHeader | raw_rdmx.cpp:195-224 | the first 64 bytes at `where` are the image of the stamped template, the checksum verifies, the template and the rest of `where` are untouched |
| Udp.RawUdp.SetMacAddrs | raw_udp.h:23-25 | the source MAC and the destination MAC (broadcast when omitted) are set, and the IPs and ports are kept |
| Udp.RawUdp.SetIpAddrs | raw_udp.h:27-28 | the IP addresses are set, and the MACs and ports are kept |
| Udp.RawUdp.SetUdpPorts | raw_udp.h:30-31 | both ports are set in network byte order, and the MACs and IPs are kept |
| Udp.RawUdp.WriteHeader | raw_udp.h:33-34 | the 42-byte header written decodes to one with the template's MACs, IPs and ports, and the template and the bytes after 42 are untouched |
| Udp.RawUdp.constructor | raw_udp.h:20-21 | the template is a fresh 42-byte array |
| Usage.WriteConfiguredRdmxHeader | raw_rdmx.h:6-13 | construct, three setters, then write_header writes exactly the image of the configured template stamped with the length, the target and the corrected checksum |
| Usage.WriteConfiguredUdpHeader | raw_udp.h:4-11 | construct, three setters, then write_header writes a header carrying the addresses and ports that were set |
| Usage.DemoIpv4Checksum | main.cpp:108-126 | the demonstration's IPv4 header, total length 306, has checksum 0x2DF8, and the single fold gives the same value |
| Usage.DemoRdmxHeader | main.cpp:105-126 | the demonstration's RDMX header holds broadcast and source MACs, lengths 01 32 and 01 1E, port 2B 67, checksum 2D F8 (which verifies) and the target address big-endian |
| Usage.SingleFoldCounterexample | raw_rdmx.cpp:86-92 | for a concrete header the single fold stores 0xFFFF where the checksum is 0xFFFE, and only the latter passes the receiver's test |

## Left out

- Host byte order: the model writes the big-endian bytes that `htons`, `htonl` and `htonll` produce on any host, so the `1==htonl(1)` test in `htonll` has no counterpart.
- The struct-size `assert`s of the constructor: the datatypes' encoders fix those sizes as 14, 20, 8, 22 and 64 bytes.
- `void*` arguments: a MAC is a six-byte sequence and an IP address a four-byte one. A null `dst_mac` is `None`. Pointers to shorter memory cannot occur.
- Rdmx.RawRdmx.WriteHeader: requires that `where` is not the template itself. `memcpy` onto its own source is undefined in C.
- Rdmx.RawRdmx.WriteHeader: stores the corrected checksum, folded until no carry is left, where the source folds once (raw_rdmx.cpp:86-92). The two differ only when that fold carries; `Ipv4Checksum.ChecksumAsWritten` is the single fold and `Ipv4Checksum.ChecksumAsWrittenFailsOnCarry` shows when it fails.
- Rdmx.StampIpv4: holds `Ipv4Checksum.Checksum`, the corrected value, where `write_header` stores `ChecksumAsWritten` (raw_rdmx.cpp:220); the two differ only when the single fold carries (`Ipv4Checksum.ChecksumAsWrittenAgrees`), and only the corrected one always verifies.
- Rdmx.Stamp: holds the corrected checksum through `Rdmx.StampIpv4`, where `write_header` stores `ChecksumAsWritten`; the two differ only when the single fold carries (`Ipv4Checksum.ChecksumAsWrittenAgrees`).
- Rdmx.WriteImageIsStamped: the buffer it describes is `Rdmx.WriteImage`, the output of the model's `WriteHeader`, which holds the corrected checksum. `write_header` as written stores `ChecksumAsWritten`, so its buffer is a stamped image only when the single fold does not carry (`Ipv4Checksum.ChecksumAsWrittenAgrees`, `Rdmx.AsWrittenNotStamped`).
- Rdmx.WriteImageSpec: the buffer it describes holds the corrected checksum, so its "verifies" does not hold for `write_header` as written when the single fold carries (`Ipv4Checksum.ChecksumAsWrittenFailsOnCarry`).
- Rdmx.StampedImageReads: the verifying checksum it reads back is the corrected one; the single-fold value `write_header` stores fails that test when the fold carries (`Ipv4Checksum.ChecksumAsWrittenFailsOnCarry`).
- Rdmx.StampIsSound: its self-verification is of the corrected checksum, not of the value raw_rdmx.cpp:220 stores when the single fold carries (`Ipv4Checksum.ChecksumAsWrittenFailsOnCarry`).
- Usage.WriteConfiguredRdmxHeader: the header it states is `Rdmx.Stamp`'s, with the corrected checksum, which differs from the source's output only when the single fold carries (`Ipv4Checksum.ChecksumAsWrittenAgrees`).
- Ipv4Checksum.ComputeChecksum: folds twice where `ipv4_checksum` folds once, so it returns the corrected checksum; it states that this equals `Ipv4Checksum.ChecksumAsWritten` whenever the single fold does not carry, and `Ipv4Checksum.ChecksumAsWrittenFailsOnCarry` covers the other case.
- Udp.RawUdp.WriteHeader: requires that `where` is not the template itself. Its contract does not state the lengths or the checksum: the `CRawUDP` implementation is not part of this model, and its declaration promises only a valid 42-byte header.
- Udp.RawUdp.constructor: states only the template's size, because the declaration says only that the constructor fills in the header field constants.
- The raw socket (raw_nic.h, raw_nic.cpp), the payload filler and the transmit calls of main.cpp: these are I/O. main.cpp appears only as the concrete addresses and payload length in `Usage`.

## Findings

| source | as written | input that shows it | evidently intended | confidence | as-written member | corrected member |
|---|---|---|---|---|---|---|
| raw_rdmx.cpp:86-92 | adds the carry into the low 16 bits once, then returns `~checksum` truncated to 16 bits, dropping any carry that the fold itself produces | IPv4 header 45 00 00 32 DE AD 40 00 40 11 00 00 FF FF 5C 0F 00 00 00 00 (template with source IP 255.255.92.15, destination 0.0.0.0, empty payload): the words sum to 0x2FFFE, one fold gives 0x10000, and 0xFFFF is stored instead of 0xFFFE; a receiver sums the header to 1, not 0xFFFF | fold until no carry is left (RFC 1071), so that every stamped header verifies | not executed | Ipv4Checksum.ChecksumAsWrittenFailsOnCarry | Ipv4Checksum.Checksum |

The as-written computation is `Ipv4Checksum.ChecksumAsWritten`. `Usage.SingleFoldCounterexample` exhibits it on the header above, and `Ipv4Checksum.ChecksumAsWrittenAgrees` shows that it goes wrong exactly when the single fold carries. `Ipv4Checksum.ComputeChecksum` and `Rdmx.RawRdmx.WriteHeader` use the corrected `Ipv4Checksum.Checksum`, whose contract is that a header holding it verifies. For the demonstration's header, where the single fold does not carry, both computations give 0x2DF8.
