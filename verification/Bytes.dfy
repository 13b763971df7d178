/** Bytes and the little-endian integers that the LZ4 formats are made of. */
module Bytes {

  type byte = b: int | 0 <= b < 256

  const KB := 1024
  const MB := 1024 * 1024
  const GB := 1024 * 1024 * 1024
  const U16_SIZE := 0x1_0000
  const U32_SIZE := 0x1_0000_0000
  const INT_MAX := 0x7FFF_FFFF

  function Min(a: int, b: int): int { if a < b then a else b }

  function Max(a: int, b: int): int { if a > b then a else b }

  /** The 16-bit little-endian value stored at `i`. */
  function Le16(s: seq<byte>, i: nat): (v: nat)
    requires i + 2 <= |s|
  {
    (s[i] as int) + 0x100 * (s[i + 1] as int)
  }

  /** The 32-bit little-endian value stored at `i`. */
  function Le32(s: seq<byte>, i: nat): (v: nat)
    requires i + 4 <= |s|
    ensures v < U32_SIZE
  {
    (s[i] as int) + 0x100 * (s[i + 1] as int) + 0x1_0000 * (s[i + 2] as int) + 0x100_0000 * (s[i + 3] as int)
  }

  // ----- Slices -----

  lemma SliceOfSlice(s: seq<byte>, a: int, b: int, x: int, y: int)
    requires 0 <= a && 0 <= x <= y && a + y <= b <= |s|
    ensures s[a..b][x..y] == s[a + x..a + y]
  {
    assert forall k :: 0 <= k < y - x ==> s[a..b][x..y][k] == s[a + x..a + y][k];
  }

  lemma SliceOfLeft(u: seq<byte>, v: seq<byte>, x: int, y: int)
    requires 0 <= x <= y <= |u|
    ensures (u + v)[x..y] == u[x..y]
  {
  }

  lemma SliceOfRight(u: seq<byte>, v: seq<byte>, x: int, y: int)
    requires |u| <= x <= y <= |u| + |v|
    ensures (u + v)[x..y] == v[x - |u|..y - |u|]
  {
  }

  lemma SplitSlice(s: seq<byte>, a: int, b: int, c: int)
    requires 0 <= a <= b <= c <= |s|
    ensures s[a..c] == s[a..b] + s[b..c]
  {
  }

  lemma SameSlice(s: seq<byte>, t: seq<byte>, a: int, b: int)
    requires 0 <= a <= b <= |s| && b <= |t|
    requires forall i :: a <= i < b ==> s[i] == t[i]
    ensures s[a..b] == t[a..b]
  {
  }
}
