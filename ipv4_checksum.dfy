/**
 * The IPv4 header checksum (`ipv4_checksum` in raw_rdmx.cpp).
 *
 * The 20-byte IPv4 header is read as ten big-endian 16-bit words; word 5 is
 * the checksum field itself and is left out of the sum. The sum of the other
 * nine words is folded to 16 bits with end-around carry and complemented, as
 * RFC 1071 describes and section 3.1 of RFC 791 requires. A receiver adds up
 * all ten words the same way and expects 0xFFFF.
 *
 * The source folds the carry only once and drops whatever the fold itself
 * carries out of 16 bits: `ChecksumAsWritten` is that computation and
 * `Checksum` is the one with the full end-around carry. They differ exactly
 * when the single fold carries (`ChecksumAsWrittenAgrees`), and only the
 * corrected one always verifies (the contract of `Checksum` against
 * `ChecksumAsWrittenFailsOnCarry`).
 */
module Ipv4Checksum {
  import opened ByteOrder

  /** Length of an IPv4 header without options, in bytes. */
  const HeaderSize: nat := 20
  /** Index of the 16-bit checksum word within the header. */
  const ChecksumWord: nat := 5

  /** The i-th big-endian 16-bit word of the header (`ntohs(entry[i])`). */
  function Word(h: seq<uint8>, i: nat): nat
    requires |h| == HeaderSize && i < 10
  {
    h[2 * i] as nat * 0x100 + h[2 * i + 1] as nat
  }

  /** Sum of words 0 .. n-1 of the header, the checksum word excluded. */
  function PartialSum(h: seq<uint8>, n: nat): nat
    requires |h| == HeaderSize && n <= 10
  {
    if n == 0 then 0
    else PartialSum(h, n - 1) + (if n - 1 == ChecksumWord then 0 else Word(h, n - 1))
  }

  /** Sum of words 0 .. n-1 of the header, the checksum word included. */
  function FullSum(h: seq<uint8>, n: nat): nat
    requires |h| == HeaderSize && n <= 10
  {
    if n == 0 then 0 else FullSum(h, n - 1) + Word(h, n - 1)
  }

  /** One end-around-carry step: the low 16 bits plus what lies above them. */
  function Fold(x: nat): nat
  {
    x % 0x1_0000 + x / 0x1_0000
  }

  /**
   * The value `ipv4_checksum` returns: one fold into the 32-bit accumulator,
   * then `~` on all 32 bits, truncated to the 16-bit return type.
   */
  function ChecksumAsWritten(h: seq<uint8>): (r: uint16)
    requires |h| == HeaderSize
    ensures r as int == (0xFFFF_FFFF - Fold(PartialSum(h, 10))) % 0x1_0000
  {
    var f := Fold(PartialSum(h, 10));
    PartialSumBound(h, 10);
    FoldTwiceBound(PartialSum(h, 10));
    DivMod(f / 0x1_0000, f % 0x1_0000);
    DivMod(0xFFFF - f / 0x1_0000, 0xFFFF - f % 0x1_0000);
    (0xFFFF - f % 0x1_0000) as uint16
  }

  /**
   * The ones'-complement checksum with the carry folded until none is left:
   * stored in the header, it makes the receiver's folded sum 0xFFFF.
   */
  function Checksum(h: seq<uint8>): (c: uint16)
    requires |h| == HeaderSize
    ensures ChecksumVerifies(WithChecksum(h, c))
  {
    PartialSumBound(h, 10);
    FoldTwiceBound(PartialSum(h, 10));
    var c := (0xFFFF - Fold(Fold(PartialSum(h, 10)))) as uint16;
    FullSumWithChecksum(h, c, 10);
    SelfVerifyArith(PartialSum(h, 10));
    c
  }

  /** The header with `c` stored, big-endian, in its checksum field. */
  function WithChecksum(h: seq<uint8>, c: uint16): (r: seq<uint8>)
    requires |h| == HeaderSize
    ensures |r| == HeaderSize
  {
    h[..10] + Be16(c) + h[12..]
  }

  /** The receiver's test: the folded sum of all ten words is 0xFFFF. */
  predicate ChecksumVerifies(h: seq<uint8>)
    requires |h| == HeaderSize
  {
    Fold(Fold(FullSum(h, 10))) == 0xFFFF
  }

  /** Nine words of at most 0xFFFF each: the 32-bit accumulator never overflows. */
  lemma {:induction false} PartialSumBound(h: seq<uint8>, n: nat)
    requires |h| == HeaderSize && n <= 10
    ensures PartialSum(h, n) <= (if n <= ChecksumWord then n else n - 1) * 0xFFFF
  {
    if n > 0 {
      PartialSumBound(h, n - 1);
    }
  }

  /** Splitting `0x10000 * q + r` back into its quotient and remainder. */
  lemma DivMod(q: nat, r: nat)
    requires r < 0x1_0000
    ensures (0x1_0000 * q + r) / 0x1_0000 == q && (0x1_0000 * q + r) % 0x1_0000 == r
  {
  }

  /** Two folds bring any sum of at most sixteen words down to 16 bits. */
  lemma FoldTwiceBound(x: nat)
    requires x < 0x10_0000
    ensures Fold(x) <= 0xFFFF + 0xF
    ensures Fold(Fold(x)) <= 0xFFFF
  {
  }

  /**
   * The arithmetic of self-verification: adding the complement of the
   * twice-folded sum back to the sum and folding twice gives 0xFFFF.
   */
  lemma SelfVerifyArith(s: nat)
    requires s <= 9 * 0xFFFF
    ensures Fold(Fold(s)) <= 0xFFFF
    ensures Fold(Fold(s + (0xFFFF - Fold(Fold(s))))) == 0xFFFF
  {
    var q, r := s / 0x1_0000, s % 0x1_0000;
    assert s == 0x1_0000 * q + r;
    DivMod(q, r);
    var t := s + (0xFFFF - Fold(Fold(s)));
    if q + r <= 0xFFFF {
      DivMod(0, q + r);
      assert t == 0x1_0000 * q + (0xFFFF - q);
      DivMod(q, 0xFFFF - q);
    } else {
      DivMod(1, q + r - 0x1_0000);
      assert t == 0x1_0000 * (q + 1) + (0xFFFE - q);
      DivMod(q + 1, 0xFFFE - q);
    }
    DivMod(0, 0xFFFF);
  }

  /**
   * The arithmetic of the single fold: truncating it to 16 bits agrees with
   * folding twice exactly when it does not carry, and when it carries the
   * receiver's folded sum comes out as 1.
   */
  lemma SingleFoldArith(s: nat)
    requires s <= 9 * 0xFFFF
    ensures Fold(Fold(s)) <= 0xFFFF
    ensures 0xFFFF - Fold(s) % 0x1_0000 == 0xFFFF - Fold(Fold(s)) <==> Fold(s) <= 0xFFFF
    ensures Fold(s) > 0xFFFF ==> Fold(Fold(s + (0xFFFF - Fold(s) % 0x1_0000))) == 1
  {
    var q, r := s / 0x1_0000, s % 0x1_0000;
    assert s == 0x1_0000 * q + r;
    DivMod(q, r);
    if q + r <= 0xFFFF {
      DivMod(0, q + r);
    } else {
      DivMod(1, q + r - 0x1_0000);
      var t := s + (0xFFFF - Fold(s) % 0x1_0000);
      assert t == 0x1_0000 * (q + 1) + (0xFFFF - q);
      DivMod(q + 1, 0xFFFF - q);
      DivMod(1, 0);
    }
  }

  /** The checksum field's own bytes never enter the checksum. */
  lemma {:induction false} PartialSumIgnoresChecksumField(h: seq<uint8>, g: seq<uint8>, n: nat)
    requires |h| == HeaderSize && |g| == HeaderSize && n <= 10
    requires h[..10] == g[..10] && h[12..] == g[12..]
    ensures PartialSum(h, n) == PartialSum(g, n)
  {
    if n > 0 {
      PartialSumIgnoresChecksumField(h, g, n - 1);
      var i := n - 1;
      if i != ChecksumWord {
        if i < ChecksumWord {
          assert h[2 * i] == h[..10][2 * i] && h[2 * i + 1] == h[..10][2 * i + 1];
          assert g[2 * i] == g[..10][2 * i] && g[2 * i + 1] == g[..10][2 * i + 1];
        } else {
          assert h[2 * i] == h[12..][2 * i - 12] && h[2 * i + 1] == h[12..][2 * i - 11];
          assert g[2 * i] == g[12..][2 * i - 12] && g[2 * i + 1] == g[12..][2 * i - 11];
        }
      }
    }
  }

  lemma ChecksumIgnoresChecksumField(h: seq<uint8>, g: seq<uint8>)
    requires |h| == HeaderSize && |g| == HeaderSize
    requires h[..10] == g[..10] && h[12..] == g[12..]
    ensures Checksum(h) == Checksum(g)
    ensures ChecksumAsWritten(h) == ChecksumAsWritten(g)
  {
    PartialSumIgnoresChecksumField(h, g, 10);
  }

  /** Whatever the checksum field holds, the checksum of the header is the same. */
  lemma ChecksumOfWithChecksum(h: seq<uint8>, c: uint16)
    requires |h| == HeaderSize
    ensures Checksum(WithChecksum(h, c)) == Checksum(h)
    ensures ChecksumAsWritten(WithChecksum(h, c)) == ChecksumAsWritten(h)
  {
    var w := WithChecksum(h, c);
    assert w[..10] == h[..10] && w[12..] == h[12..];
    ChecksumIgnoresChecksumField(h, w);
  }

  /** Storing a value in the checksum field adds exactly that value to the full sum. */
  lemma {:induction false} FullSumWithChecksum(h: seq<uint8>, c: uint16, n: nat)
    requires |h| == HeaderSize && n <= 10
    ensures FullSum(WithChecksum(h, c), n)
            == PartialSum(h, n) + (if n <= ChecksumWord then 0 else c as nat)
  {
    var w := WithChecksum(h, c);
    if n > 0 {
      FullSumWithChecksum(h, c, n - 1);
      var i := n - 1;
      if i < ChecksumWord {
        assert w[2 * i] == h[2 * i] && w[2 * i + 1] == h[2 * i + 1];
      } else if i > ChecksumWord {
        assert w[2 * i] == h[2 * i] && w[2 * i + 1] == h[2 * i + 1];
      } else {
        assert w[10..12] == Be16(c);
      }
    }
  }

  /** A header that already holds its own checksum passes the receiver's test. */
  lemma StoredChecksumVerifies(h: seq<uint8>)
    requires |h| == HeaderSize && h[10..12] == Be16(Checksum(h))
    ensures ChecksumVerifies(h)
  {
    assert WithChecksum(h, Checksum(h)) == h;
  }

  /** The nine words the checksum covers, written out. */
  lemma PartialSumWords(h: seq<uint8>)
    requires |h| == HeaderSize
    ensures PartialSum(h, 10) == Word(h, 0) + Word(h, 1) + Word(h, 2) + Word(h, 3) + Word(h, 4)
                               + Word(h, 6) + Word(h, 7) + Word(h, 8) + Word(h, 9)
  {
    assert PartialSum(h, 1) == Word(h, 0);
    assert PartialSum(h, 2) == Word(h, 0) + Word(h, 1);
    assert PartialSum(h, 4) == PartialSum(h, 2) + Word(h, 2) + Word(h, 3);
    assert PartialSum(h, 6) == PartialSum(h, 4) + Word(h, 4);
    assert PartialSum(h, 8) == PartialSum(h, 6) + Word(h, 6) + Word(h, 7);
  }

  /**
   * The source's single fold gives the correct checksum exactly when that
   * fold does not itself carry out of 16 bits.
   */
  lemma ChecksumAsWrittenAgrees(h: seq<uint8>)
    requires |h| == HeaderSize
    ensures ChecksumAsWritten(h) == Checksum(h) <==> Fold(PartialSum(h, 10)) <= 0xFFFF
  {
    PartialSumBound(h, 10);
    SingleFoldArith(PartialSum(h, 10));
  }

  /**
   * When the single fold carries, the value the source stores fails the
   * receiver's test: the folded sum comes out as 1, not 0xFFFF.
   */
  lemma SingleFoldCarryFails(h: seq<uint8>)
    requires |h| == HeaderSize && Fold(PartialSum(h, 10)) > 0xFFFF
    ensures Fold(Fold(FullSum(WithChecksum(h, ChecksumAsWritten(h)), 10))) == 1
  {
    PartialSumBound(h, 10);
    FullSumWithChecksum(h, ChecksumAsWritten(h), 10);
    SingleFoldArith(PartialSum(h, 10));
  }

  /**
   * The value the source stores passes the receiver's test exactly when the
   * single fold does not carry.
   */
  lemma ChecksumAsWrittenFailsOnCarry(h: seq<uint8>)
    requires |h| == HeaderSize
    ensures ChecksumVerifies(WithChecksum(h, ChecksumAsWritten(h)))
            <==> Fold(PartialSum(h, 10)) <= 0xFFFF
  {
    ChecksumAsWrittenAgrees(h);
    if Fold(PartialSum(h, 10)) > 0xFFFF {
      SingleFoldCarryFails(h);
    }
  }

  /**
   * `ipv4_checksum` over the 20 header bytes at `buf[off..]`: a 32-bit
   * accumulator over nine words, then the carry fold and the complement.
   * The second fold is the correction described above.
   */
  method ComputeChecksum(buf: array<uint8>, off: nat) returns (c: uint16)
    requires off + HeaderSize <= buf.Length
    ensures c == Checksum(buf[off..off + HeaderSize])
    ensures Fold(PartialSum(buf[off..off + HeaderSize], 10)) <= 0xFFFF
            ==> c == ChecksumAsWritten(buf[off..off + HeaderSize])
  {
    ghost var h := buf[off..off + HeaderSize];
    var checksum: uint32 := 0;
    var i := 0;
    while i < 10
      invariant 0 <= i <= 10
      invariant checksum as nat == PartialSum(h, i)
    {
      if i != ChecksumWord {
        PartialSumBound(h, i + 1);
        assert h[2 * i] == buf[off + 2 * i] && h[2 * i + 1] == buf[off + 2 * i + 1];
        checksum := checksum + (buf[off + 2 * i] as uint32 * 0x100 + buf[off + 2 * i + 1] as uint32);
      }
      i := i + 1;
    }
    PartialSumBound(h, 10);
    FoldTwiceBound(checksum as nat);
    var correction: uint16 := (checksum / 0x1_0000) as uint16;
    checksum := checksum % 0x1_0000 + correction as uint32;
    checksum := checksum % 0x1_0000 + checksum / 0x1_0000;
    assert checksum as nat == Fold(Fold(PartialSum(h, 10)));
    c := (0xFFFF - checksum) as uint16;
    ChecksumAsWrittenAgrees(h);
  }
}
