/**
 * The byte-buffer operations the header builders use: `memcpy` and stores
 * of network-order fields through a packed-struct view
 * (`frame.udp.src_port = htons(p)` stores `Be16(p)` at the field's offset).
 * Each replaces the bytes it names and leaves every other byte as it was,
 * which `Splice` states for the buffer's contents.
 */
module Memory {
  import opened ByteOrder

  /** `s` with the bytes from `off` on replaced by `src`. */
  function Splice(s: seq<uint8>, off: nat, src: seq<uint8>): (r: seq<uint8>)
    requires off + |src| <= |s|
    ensures |r| == |s|
    ensures r[off..off + |src|] == src
    ensures forall i | 0 <= i < |s| && !(off <= i < off + |src|) :: r[i] == s[i]
  {
    s[..off] + src + s[off + |src|..]
  }

  /** `memcpy(a + off, src, |src|)`. */
  method Copy(a: array<uint8>, off: nat, src: seq<uint8>)
    requires off + |src| <= a.Length
    modifies a
    ensures a[..] == Splice(old(a[..]), off, src)
  {
    forall i | 0 <= i < |src| {
      a[off + i] := src[i];
    }
    assert a[..] == Splice(old(a[..]), off, src);
  }

  /** Store a 16-bit field in network byte order. */
  method Put16(a: array<uint8>, off: nat, x: uint16)
    requires off + 2 <= a.Length
    modifies a
    ensures a[..] == Splice(old(a[..]), off, Be16(x))
  {
    Copy(a, off, Be16(x));
  }

  /** Store a 64-bit field in network byte order. */
  method Put64(a: array<uint8>, off: nat, x: uint64)
    requires off + 8 <= a.Length
    modifies a
    ensures a[..] == Splice(old(a[..]), off, Be64(x))
  {
    Copy(a, off, Be64(x));
  }

  /** A slice of a slice is the slice of the whole at the shifted bounds. */
  lemma SliceOfSlice(s: seq<uint8>, i: nat, j: nat, k: nat, l: nat)
    requires i <= j <= |s| && k <= l <= j - i
    ensures s[i..j][k..l] == s[i + k..i + l]
  {
    assert forall m | 0 <= m < l - k :: s[i..j][k..l][m] == s[i + k..i + l][m];
  }

  /** Two byte strings that agree at every index of a range agree on that slice. */
  lemma SameSlice(a: seq<uint8>, b: seq<uint8>, lo: nat, hi: nat)
    requires lo <= hi <= |a| && hi <= |b|
    requires forall i | lo <= i < hi :: a[i] == b[i]
    ensures a[lo..hi] == b[lo..hi]
  {
    assert forall k | 0 <= k < hi - lo :: a[lo..hi][k] == b[lo..hi][k];
  }

  /** Two byte strings of one length that agree from `lo` on have the same suffix. */
  lemma SameSuffix(a: seq<uint8>, b: seq<uint8>, lo: nat)
    requires lo <= |a| == |b|
    requires forall i | lo <= i < |a| :: a[i] == b[i]
    ensures a[lo..] == b[lo..]
  {
    assert forall k | 0 <= k < |a| - lo :: a[lo..][k] == b[lo..][k];
  }
}
