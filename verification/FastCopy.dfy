/**
 The copies that lz4.c uses in place of a byte loop. They move 4, 8, 16 or 32 bytes at a time and
 may write past the end they are given; each is proved to leave the same bytes as copying one at a
 time from `offset` bytes back.
 */
module FastCopy {
  import opened Bytes

  const WILDCOPYLENGTH := 8

  /** Every byte of `[lo, hi)` repeats the one `offset` places before it. */
  ghost predicate Repeated(a: seq<byte>, lo: int, hi: int, offset: int) {
    forall i :: lo <= i < hi && 0 <= i < |a| && 0 <= i - offset < |a| ==> a[i] == a[i - offset]
  }

  /** Following the repetition down from `i` in steps of `offset` meets the same byte at `j`. */
  lemma {:induction false} FollowRepeats(a: seq<byte>, lo: int, offset: int, i: int, steps: nat)
    requires 1 <= offset && 0 <= lo - offset
    requires lo - offset <= i - steps * offset <= i < |a|
    requires Repeated(a, lo, i + 1, offset)
    ensures a[i] == a[i - steps * offset]
    decreases steps
  {
    if steps > 0 {
      assert (steps - 1) * offset == steps * offset - offset;
      assert steps * offset >= offset;
      FollowRepeats(a, lo, offset, i - offset, steps - 1);
    }
  }

  /**
   Once `[lo, mid)` repeats with period `offset`, going on from `k * offset` bytes back keeps the
   period, as long as that does not reach further back than the period itself did.
   */
  lemma {:induction false} LongerStride(a: seq<byte>, lo: int, mid: int, hi: int, offset: int, k: nat)
    requires 1 <= offset <= lo && lo <= mid && hi <= |a|
    requires 1 <= k && k * offset <= mid - lo + offset
    requires Repeated(a, lo, Min(mid, hi), offset)
    requires forall i :: mid <= i < hi ==> a[i] == a[i - k * offset]
    ensures Repeated(a, lo, hi, offset)
    decreases hi - lo
  {
    if hi > mid {
      LongerStride(a, lo, mid, hi - 1, offset, k);
      var i := hi - 1;
      assert (k - 1) * offset == k * offset - offset;
      FollowRepeats(a, lo, offset, i - offset, k - 1);
    }
  }

  /** memcpy within one buffer: the source lies before the destination and does not overlap it. */
  method Memcpy(dst: array<byte>, d: int, s: int, n: nat)
    requires 0 <= s && s + n <= d && d + n <= dst.Length
    modifies dst
    ensures forall i :: d <= i < d + n ==> dst[i] == old(dst[i - (d - s)])
    ensures forall i :: 0 <= i < dst.Length && !(d <= i < d + n) ==> dst[i] == old(dst[i])
  {
    forall i | d <= i < d + n { dst[i] := dst[i - (d - s)]; }
  }

  lemma CopiedSlice(dst: seq<byte>, d: int, src: seq<byte>, s: int, n: nat)
    requires 0 <= d && d + n <= |dst| && 0 <= s && s + n <= |src| && forall i :: d <= i < d + n ==> dst[i] == src[s + (i - d)]
    ensures dst[d..d + n] == src[s..s + n]
  {
  }

  /** memcpy from a buffer that is only read. */
  method MemcpyFrom(dst: array<byte>, d: int, src: seq<byte>, s: int, n: nat)
    requires 0 <= s && s + n <= |src| && 0 <= d && d + n <= dst.Length
    modifies dst
    ensures forall i :: d <= i < d + n ==> dst[i] == src[s + (i - d)]
    ensures forall i :: 0 <= i < dst.Length && !(d <= i < d + n) ==> dst[i] == old(dst[i])
  {
    forall i | d <= i < d + n { dst[i] := src[s + (i - d)]; }
  }

  /** LZ4_wildCopy8 within one buffer. */
  method WildCopy8(dst: array<byte>, d: int, s: int, e: int)
    requires 0 <= s && s + 8 <= d && Max(d + 8, e + 7) <= dst.Length
    modifies dst
    ensures Repeated(dst[..], d, e, d - s)
    ensures forall i :: 0 <= i < d ==> dst[i] == old(dst[i])
    ensures forall i :: Max(d + 8, e + 7) <= i < dst.Length ==> dst[i] == old(dst[i])
  {
    var d', s' := d, s;
    Memcpy(dst, d', s', 8);
    d', s' := d' + 8, s' + 8;
    while d' < e
      invariant d' - s' == d - s && d + 8 <= d' <= Max(d + 8, e + 7)
      invariant Repeated(dst[..], d, d', d - s)
      invariant forall i :: 0 <= i < d ==> dst[i] == old(dst[i])
      invariant forall i :: d' <= i < dst.Length ==> dst[i] == old(dst[i])
    {
      ghost var before := dst[..];
      Memcpy(dst, d', s', 8);
      assert forall i :: 0 <= i < d' ==> dst[..][i] == before[i];
      d', s' := d' + 8, s' + 8;
    }
  }

  /** LZ4_wildCopy8 from a buffer that is only read. */
  method WildCopy8From(dst: array<byte>, d: int, src: seq<byte>, s: int, e: int)
    requires 0 <= s && 0 <= d <= e
    requires Max(d + 8, e + 7) <= dst.Length && s + Max(8, e - d + 7) <= |src|
    modifies dst
    ensures dst[d..e] == src[s..s + (e - d)]
    ensures forall i :: 0 <= i < d ==> dst[i] == old(dst[i])
    ensures forall i :: Max(d + 8, e + 7) <= i < dst.Length ==> dst[i] == old(dst[i])
  {
    var d', s' := d, s;
    MemcpyFrom(dst, d', src, s', 8);
    d', s' := d' + 8, s' + 8;
    while d' < e
      invariant d' - s' == d - s && d + 8 <= d' <= Max(d + 8, e + 7)
      invariant forall i :: d <= i < d' ==> dst[i] == src[s + (i - d)]
      invariant forall i :: 0 <= i < d ==> dst[i] == old(dst[i])
      invariant forall i :: d' <= i < dst.Length ==> dst[i] == old(dst[i])
    {
      MemcpyFrom(dst, d', src, s', 8);
      d', s' := d' + 8, s' + 8;
    }
  }

  /** Two times 16 bytes; the second half may repeat what the first has written. */
  method Copy32(dst: array<byte>, ghost d: int, d': int, s': int)
    requires 0 <= s' && s' + 16 <= d' && 0 < d' - s' <= d <= d' && d' + 32 <= dst.Length && Repeated(dst[..], d, d', d' - s') == true
    modifies dst
    ensures Repeated(dst[..], d, d' + 32, d' - s') == true
    ensures forall i :: 0 <= i < dst.Length && !(d' <= i < d' + 32) ==> dst[i] == old(dst[i])
  {
    ghost var before := dst[..];
    Memcpy(dst, d', s', 16);
    ghost var between := dst[..];
    RepeatedMore(before, between, d, d', d' + 16, d' - s');
    Memcpy(dst, d' + 16, s' + 16, 16);
    RepeatedMore(between, dst[..], d, d' + 16, d' + 32, d' - s');
  }

  lemma RepeatedMore(before: seq<byte>, after: seq<byte>, d: int, e: int, e': int, offset: int)
    requires |before| == |after| && 0 < offset <= d <= e <= e' <= |after| && Repeated(before, d, e, offset) == true
    requires forall i :: 0 <= i < e ==> after[i] == before[i]
    requires forall i :: e <= i < e' ==> after[i] == before[i - offset] && i - offset < e
    ensures Repeated(after, d, e', offset) == true
  {
  }

  /** LZ4_wildCopy32 within one buffer: two copies of 16, so that offsets of 16 and more are safe. */
  method WildCopy32(dst: array<byte>, d: int, s: int, e: int)
    requires 0 <= s && s + 16 <= d && Max(d + 32, e + 31) <= dst.Length
    modifies dst
    ensures Repeated(dst[..], d, e, d - s)
    ensures forall i :: 0 <= i < d ==> dst[i] == old(dst[i])
    ensures forall i :: Max(d + 32, e + 31) <= i < dst.Length ==> dst[i] == old(dst[i])
  {
    var d', s' := d, s;
    while true
      invariant d' - s' == d - s && d <= d' <= Max(d, e + 31)
      invariant d == d' || d' < e
      invariant Repeated(dst[..], d, d', d - s)
      invariant forall i :: 0 <= i < d ==> dst[i] == old(dst[i])
      invariant forall i :: d' <= i < dst.Length ==> dst[i] == old(dst[i])
      decreases e - d'
    {
      Copy32(dst, d, d', s');
      d', s' := d' + 32, s' + 32;
      if d' >= e { break; }
    }
  }

  const INC32TABLE: seq<int> := [0, 1, 2, 1, 0, 4, 4, 4]
  const DEC64TABLE: seq<int> := [0, 0, 0, -1, -4, 1, 2, 3]

  /** How many times `offset` fits into the distance over which the copy goes on after eight bytes. */
  function Periods(offset: nat): (k: nat)
    requires offset != 0
    ensures 1 <= k && 8 <= k * offset <= 8 + offset
  {
    if offset >= 8 then 1 else [0, 8, 4, 3, 2, 2, 2, 2][offset]
  }

  function Stride(offset: nat): (r: nat)
    ensures 8 <= r <= 8 + offset
  {
    if offset == 0 then 8 else Periods(offset) * offset
  }

  /** Four bytes of a match, one at a time. */
  method CopyFour(dst: array<byte>, d: int, offset: nat)
    requires offset <= d && d + 4 <= dst.Length
    modifies dst
    ensures offset >= 1 ==> Repeated(dst[..], d, d + 4, offset)
    ensures forall i :: 0 <= i < dst.Length && !(d <= i < d + 4) ==> dst[i] == old(dst[i])
  {
    var m := d - offset;
    dst[d] := dst[m];
    dst[d + 1] := dst[m + 1];
    dst[d + 2] := dst[m + 2];
    dst[d + 3] := dst[m + 3];
  }

  /** The first eight bytes of a match whose offset is below eight. */
  method CopyFirst8Close(dst: array<byte>, d: int, offset: nat) returns (m: int)
    requires offset < 8 && offset <= d && d + 8 <= dst.Length
    modifies dst
    ensures m == d + 8 - Stride(offset)
    ensures offset >= 1 ==> Repeated(dst[..], d, d + 8, offset)
    ensures forall i :: 0 <= i < dst.Length && !(d <= i < d + 8) ==> dst[i] == old(dst[i])
  {
    CopyFour(dst, d, offset);
    ghost var four := dst[..];
    m := d - offset + INC32TABLE[offset];
    Memcpy(dst, d + 4, m, 4);
    if offset >= 1 {
      ghost var k := [0, 4, 2, 2, 2, 1, 1, 1][offset];
      assert d + 4 - m == k * offset;
      assert forall i :: 0 <= i < d + 4 ==> dst[..][i] == four[i];
      LongerStride(dst[..], d, d + 4, d + 8, offset, k);
    }
    m := m - DEC64TABLE[offset];
  }

  /** The first eight bytes of a match, and the place from which the copy goes on. */
  method CopyFirst8(dst: array<byte>, d: int, offset: nat) returns (m: int)
    requires offset <= d && d + 8 <= dst.Length
    modifies dst
    ensures m == d + 8 - Stride(offset)
    ensures offset >= 1 ==> Repeated(dst[..], d, d + 8, offset)
    ensures forall i :: 0 <= i < dst.Length && !(d <= i < d + 8) ==> dst[i] == old(dst[i])
  {
    if offset < 8 {
      m := CopyFirst8Close(dst, d, offset);
    } else {
      m := d - offset;
      Memcpy(dst, d, m, 8);
      m := m + 8;
    }
  }

  /** LZ4_memcpy_using_offset_base. */
  method MemcpyUsingOffsetBase(dst: array<byte>, d: int, e: int, offset: nat)
    requires offset <= d && Max(d + 16, e + 7) <= dst.Length
    modifies dst
    ensures offset >= 1 ==> Repeated(dst[..], d, e, offset)
    ensures forall i :: 0 <= i < d ==> dst[i] == old(dst[i])
    ensures forall i :: Max(d + 16, e + 7) <= i < dst.Length ==> dst[i] == old(dst[i])
  {
    var m := CopyFirst8(dst, d, offset);
    ghost var eight := dst[..];
    WildCopy8(dst, d + 8, m, e);
    assert forall i :: 0 <= i < d + 8 ==> dst[..][i] == eight[i];
    if offset >= 1 && d <= e { LongerStride(dst[..], d, d + 8, e, offset, Periods(offset)); }
  }

  /** Writes the eight bytes of `v` over and over, at least once. */
  method FillPattern(dst: array<byte>, d: int, e: int, v: seq<byte>)
    requires |v| == 8 && 0 <= d && Max(d + 8, e + 7) <= dst.Length
    modifies dst
    ensures forall i :: d <= i < e ==> dst[i] == v[(i - d) % 8]
    ensures forall i :: 0 <= i < d ==> dst[i] == old(dst[i])
    ensures forall i :: Max(d + 8, e + 7) <= i < dst.Length ==> dst[i] == old(dst[i])
  {
    var d' := d;
    MemcpyFrom(dst, d', v, 0, 8);
    d' := d' + 8;
    while d' < e
      invariant d + 8 <= d' <= Max(d + 8, e + 7) && (d' - d) % 8 == 0
      invariant forall i :: d <= i < d' ==> dst[i] == v[(i - d) % 8]
      invariant forall i :: 0 <= i < d ==> dst[i] == old(dst[i])
      invariant forall i :: d' <= i < dst.Length ==> dst[i] == old(dst[i])
    {
      MemcpyFrom(dst, d', v, 0, 8);
      d' := d' + 8;
    }
  }

  /** A pattern whose period divides eight repeats with that period when it is written repeatedly. */
  lemma PatternRepeats(a: seq<byte>, d: int, e: int, offset: int, v: seq<byte>)
    requires offset in {1, 2, 4} && offset <= d && d <= e <= |a| && |v| == 8
    requires v[..offset] == a[d - offset..d]
    requires forall j :: offset <= j < 8 ==> v[j] == v[j - offset]
    requires v[..offset] == v[8 - offset..]
    requires forall i :: d <= i < e ==> a[i] == v[(i - d) % 8]
    ensures Repeated(a, d, e, offset)
  {
    forall i | d <= i < e ensures a[i] == a[i - offset] {
      var j := (i - d) % 8;
      if i - offset < d {
        assert j == i - d < offset;
        assert v[j] == v[..offset][j] == a[d - offset..d][j];
      } else {
        EarlierInPattern(i - d, offset);
        assert a[i - offset] == v[(i - offset - d) % 8];
        if j < offset { assert v[j] == v[..offset][j] == v[8 - offset..][j]; }
      }
    }
  }

  lemma EarlierInPattern(k: nat, offset: nat)
    requires offset in {1, 2, 4} && offset <= k
    ensures (k - offset) % 8 == if k % 8 >= offset then k % 8 - offset else k % 8 - offset + 8
  {
  }

  /** LZ4_memcpy_using_offset: periods 1, 2 and 4 are written from an eight-byte pattern. */
  method MemcpyUsingOffset(dst: array<byte>, d: int, e: int, offset: nat)
    requires offset <= d && d <= e && Max(d + 16, e + 7) <= dst.Length
    modifies dst
    ensures offset >= 1 ==> Repeated(dst[..], d, e, offset)
    ensures forall i :: 0 <= i < d ==> dst[i] == old(dst[i])
    ensures forall i :: Max(d + 16, e + 7) <= i < dst.Length ==> dst[i] == old(dst[i])
  {
    var s := d - offset;
    var v: seq<byte>;
    match offset {
      case 1 => v := [dst[s], dst[s], dst[s], dst[s], dst[s], dst[s], dst[s], dst[s]];
      case 2 =>
        v := [dst[s], dst[s + 1], dst[s], dst[s + 1]];
        v := v + v;
      case 4 => v := dst[s..s + 4] + dst[s..s + 4];
      case _ =>
        MemcpyUsingOffsetBase(dst, d, e, offset);
        return;
    }
    FillPattern(dst, d, e, v);
    assert v[..offset] == dst[s..d];
    PatternRepeats(dst[..], d, e, offset, v);
  }

  /** LZ4_wildCopy32 from a buffer that is only read. */
  method WildCopy32From(dst: array<byte>, d: int, src: seq<byte>, s: int, e: int)
    requires 0 <= s && 0 <= d <= e
    requires Max(d + 32, e + 31) <= dst.Length && s + Max(32, e - d + 31) <= |src|
    modifies dst
    ensures dst[d..e] == src[s..s + (e - d)]
    ensures forall i :: 0 <= i < d ==> dst[i] == old(dst[i])
    ensures forall i :: Max(d + 32, e + 31) <= i < dst.Length ==> dst[i] == old(dst[i])
  {
    var d', s' := d, s;
    while true
      invariant d' - s' == d - s && d <= d' <= Max(d, e + 31)
      invariant d == d' || d' < e
      invariant forall i :: d <= i < d' ==> dst[i] == src[s + (i - d)]
      invariant forall i :: 0 <= i < dst.Length && !(d <= i < d') ==> dst[i] == old(dst[i])
      decreases e - d'
    {
      MemcpyFrom(dst, d', src, s', 16);
      MemcpyFrom(dst, d' + 16, src, s' + 16, 16);
      d', s' := d' + 32, s' + 32;
      if d' >= e { break; }
    }
  }

  /** Copies one byte after another from `offset` bytes back. */
  method CopyBytes(dst: array<byte>, d: int, e: int, offset: nat)
    requires offset <= d <= e <= dst.Length
    modifies dst
    ensures Repeated(dst[..], d, e, offset)
    ensures forall i :: 0 <= i < dst.Length && !(d <= i < e) ==> dst[i] == old(dst[i])
  {
    var d' := d;
    while d' < e
      invariant d <= d' <= e
      invariant Repeated(dst[..], d, d', offset)
      invariant forall i :: 0 <= i < dst.Length && !(d <= i < d') ==> dst[i] == old(dst[i])
    {
      ghost var before := dst[..];
      dst[d'] := dst[d' - offset];
      d' := d' + 1;
      assert forall i :: 0 <= i < d' - 1 ==> dst[..][i] == before[i];
    }
  }

  /** The two copies of 8 bytes and one of 2 that stand for any match of up to 18 bytes. */
  method CopyEighteen(dst: array<byte>, d: int, offset: nat)
    requires 8 <= offset <= d && d + 18 <= dst.Length
    modifies dst
    ensures Repeated(dst[..], d, d + 18, offset)
    ensures forall i :: 0 <= i < dst.Length && !(d <= i < d + 18) ==> dst[i] == old(dst[i])
  {
    var m := d - offset;
    Memcpy(dst, d, m, 8);
    ghost var one := dst[..];
    Memcpy(dst, d + 8, m + 8, 8);
    ghost var two := dst[..];
    assert forall i :: 0 <= i < d + 8 ==> two[i] == one[i];
    Memcpy(dst, d + 16, m + 16, 2);
    assert forall i :: 0 <= i < d + 16 ==> dst[..][i] == two[i];
  }
}
