/**
 * Fixed-width unsigned integers and their network (big-endian) byte images.
 *
 * Every multi-byte field of the Ethernet/IPv4/UDP/RDMX header is kept in the
 * frame in network byte order. Whatever the host's byte order, `htons`,
 * `htonl` and the `htonll` macro of raw_rdmx.cpp leave in memory exactly the
 * big-endian bytes of the value, so the model writes those bytes directly.
 */
module ByteOrder {

  newtype uint8 = x: int | 0 <= x < 0x100
  newtype uint16 = x: int | 0 <= x < 0x1_0000
  newtype uint32 = x: int | 0 <= x < 0x1_0000_0000
  newtype uint64 = x: int | 0 <= x < 0x1_0000_0000_0000_0000

  /** The two bytes of a 16-bit value, most significant first (`htons`). */
  function Be16(x: uint16): (r: seq<uint8>)
    ensures |r| == 2
    ensures r[0] as int * 0x100 + r[1] as int == x as int
  {
    [(x / 0x100) as uint8, (x % 0x100) as uint8]
  }

  /** The value of two big-endian bytes (`ntohs`). */
  function FromBe16(b: seq<uint8>): uint16
    requires |b| == 2
  {
    (b[0] as int * 0x100 + b[1] as int) as uint16
  }

  /** The four bytes of a 32-bit value, most significant first (`htonl`). */
  function Be32(x: uint32): (r: seq<uint8>)
    ensures |r| == 4
    ensures r[0] as int * 0x100_0000 + r[1] as int * 0x1_0000 + r[2] as int * 0x100 + r[3] as int == x as int
  {
    Be16((x / 0x1_0000) as uint16) + Be16((x % 0x1_0000) as uint16)
  }

  function FromBe32(b: seq<uint8>): uint32
    requires |b| == 4
  {
    (FromBe16(b[..2]) as int * 0x1_0000 + FromBe16(b[2..]) as int) as uint32
  }

  /** The eight bytes of a 64-bit value, most significant first (`htonll`). */
  function Be64(x: uint64): (r: seq<uint8>)
    ensures |r| == 8
    ensures r[0] as int * 0x100_0000_0000_0000 + r[1] as int * 0x1_0000_0000_0000
            + r[2] as int * 0x100_0000_0000 + r[3] as int * 0x1_0000_0000
            + r[4] as int * 0x100_0000 + r[5] as int * 0x1_0000 + r[6] as int * 0x100 + r[7] as int
            == x as int
  {
    Be32((x / 0x1_0000_0000) as uint32) + Be32((x % 0x1_0000_0000) as uint32)
  }

  function FromBe64(b: seq<uint8>): uint64
    requires |b| == 8
  {
    (FromBe32(b[..4]) as int * 0x1_0000_0000 + FromBe32(b[4..]) as int) as uint64
  }

  lemma Be16RoundTrip(x: uint16)
    ensures FromBe16(Be16(x)) == x
  {
  }

  lemma FromBe16RoundTrip(b: seq<uint8>)
    requires |b| == 2
    ensures Be16(FromBe16(b)) == b
  {
  }

  lemma {:induction false} Be32RoundTrip(x: uint32)
    ensures FromBe32(Be32(x)) == x
  {
    var hi, lo := (x / 0x1_0000) as uint16, (x % 0x1_0000) as uint16;
    var r := Be32(x);
    assert r[..2] == Be16(hi) && r[2..] == Be16(lo);
    Be16RoundTrip(hi);
    Be16RoundTrip(lo);
  }

  lemma {:induction false} FromBe32RoundTrip(b: seq<uint8>)
    requires |b| == 4
    ensures Be32(FromBe32(b)) == b
  {
    var hi, lo := FromBe16(b[..2]), FromBe16(b[2..]);
    var x := FromBe32(b);
    assert (x / 0x1_0000) as uint16 == hi && (x % 0x1_0000) as uint16 == lo;
    FromBe16RoundTrip(b[..2]);
    FromBe16RoundTrip(b[2..]);
    assert b == b[..2] + b[2..];
  }

  /** Decoding the eight stored bytes of a target address gives it back. */
  lemma {:induction false} Be64RoundTrip(x: uint64)
    ensures FromBe64(Be64(x)) == x
  {
    var hi, lo := (x / 0x1_0000_0000) as uint32, (x % 0x1_0000_0000) as uint32;
    var r := Be64(x);
    assert r[..4] == Be32(hi) && r[4..] == Be32(lo);
    Be32RoundTrip(hi);
    Be32RoundTrip(lo);
  }

  lemma {:induction false} FromBe64RoundTrip(b: seq<uint8>)
    requires |b| == 8
    ensures Be64(FromBe64(b)) == b
  {
    var hi, lo := FromBe32(b[..4]), FromBe32(b[4..]);
    var x := FromBe64(b);
    assert (x / 0x1_0000_0000) as uint32 == hi && (x % 0x1_0000_0000) as uint32 == lo;
    FromBe32RoundTrip(b[..4]);
    FromBe32RoundTrip(b[4..]);
    assert b == b[..4] + b[4..];
  }

  /** Distinct 64-bit values never share a byte image. */
  lemma Be64Injective(x: uint64, y: uint64)
    ensures Be64(x) == Be64(y) ==> x == y
  {
    Be64RoundTrip(x);
    Be64RoundTrip(y);
  }
}
