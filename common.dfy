/** Machine types shared by the stuffer model. */
module Common {

  /** An `uint8_t`. */
  newtype uint8 = x: int | 0 <= x < 256

  /** An `uint16_t`. */
  type uint16 = x: int | 0 <= x < 0x1_0000

  const UINT32_MAX: int := 0xFFFF_FFFF

  /** A `uint32_t`; arithmetic on it is unbounded unless a member says otherwise. */
  type uint32 = x: int | 0 <= x <= UINT32_MAX

  /** An `uint64_t`. */
  type uint64 = x: int | 0 <= x < 0x1_0000_0000_0000_0000

  function Min(a: int, b: int): int { if a <= b then a else b }

  function Max(a: int, b: int): int { if a <= b then b else a }

  /** `n` copies of the byte `b`, as `memset` leaves them. */
  function Fill(n: nat, b: uint8): (r: seq<uint8>)
    ensures |r| == n
    ensures forall i :: 0 <= i < n ==> r[i] == b
  {
    seq(n, _ => b)
  }

  /** `s` with the bytes at `at .. at + |w|` replaced by `w`, as `memcpy` into the middle of a buffer. */
  function Overwrite(s: seq<uint8>, at: nat, w: seq<uint8>): (r: seq<uint8>)
    requires at + |w| <= |s|
    ensures |r| == |s|
  {
    s[..at] + w + s[at + |w|..]
  }

  /** A window of a prefix is the same window of the whole. */
  lemma WindowOfPrefix(s: seq<uint8>, b: nat, c: nat, d: nat)
    requires c <= d <= b <= |s|
    ensures s[..b][c..d] == s[c..d]
  {
    forall i | 0 <= i < d - c
      ensures s[..b][c..d][i] == s[c..d][i]
    {
      assert s[..b][c..d][i] == s[..b][c + i] == s[c + i];
    }
  }

  /** A prefix of a window is a shorter window. */
  lemma PrefixOfWindow(s: seq<uint8>, a: nat, b: nat, n: nat)
    requires a + n <= b <= |s|
    ensures s[a..b][..n] == s[a..a + n]
  {
    forall i | 0 <= i < n
      ensures s[a..b][..n][i] == s[a..a + n][i]
    {
      assert s[a..b][..n][i] == s[a..b][i] == s[a + i];
    }
  }
}
