/**
 The history of linked blocks: what is enough of it, where it can be kept, and how it is moved
 together with output that still waits.
 */
module FrameHistory {
  import opened Bytes
  import opened BlockFormat
  import opened BlockApi
  import BlockDecoder
  import opened FrameFormat

  // ----- The history in front of a block -----

  const WINDOW := 64 * KB

  /** `c` is the end of the text `h`, and as much of it as a block can refer to. */
  ghost predicate EndOf(c: seq<byte>, h: seq<byte>) {
    && |c| <= |h| && Min(WINDOW, |h|) <= |c|
    && forall i :: |c| - Min(|c|, WINDOW) <= i < |c| ==> c[i] == h[i + (|h| - |c|)]
  }

  /** The common end of two texts that end alike: all of both, or a window. */
  lemma CommonEnd(c: seq<byte>, h: seq<byte>) returns (oc: seq<byte>, oh: seq<byte>, w: seq<byte>)
    requires EndOf(c, h)
    ensures c == oc + w && h == oh + w && (WINDOW <= |w| || c == w == h)
  {
    var k := Min(|c|, WINDOW);
    oc, oh, w := c[..|c| - k], h[..|h| - k], h[|h| - k..];
    assert c[|c| - k..] == w;
  }

  /** What LZ4_decompress_safe answers is right for every text that ends alike. */
  lemma AnswersAlike(block: seq<byte>, c: seq<byte>, h: seq<byte>, capacity: int, result: int, mem: seq<byte>, dest: int)
    requires EndOf(c, h) && Within(dest, capacity, |mem|) && result <= capacity
    ensures Answers(block, c, capacity, result, mem, dest) <==> Answers(block, h, capacity, result, mem, dest)
  {
    var oc, oh, w := CommonEnd(c, h);
    hide Answers, EndOf;
    if WINDOW <= |w| {
      AnswersWindow(block, oc, w, capacity, result, mem, dest);
      AnswersWindow(block, oh, w, capacity, result, mem, dest);
    }
  }

  /** What a decoded block has to do with its content. */
  lemma ContentAnswered(block: seq<byte>, c: seq<byte>, h: seq<byte>, limit: nat, result: int, mem: seq<byte>, dest: int)
    requires EndOf(c, h) && 0 < limit && Within(dest, limit, |mem|) && result <= limit
    requires Answers(block, c, limit, result, mem, dest)
    ensures result >= 0 ==> Content(block, h, limit) in {Outcome.Unspecified, Output(mem[dest..dest + result])}
    ensures result < 0 ==> !Content(block, h, limit).Output?
  {
    hide Decode, EndConditions;
    AnswersAlike(block, c, h, limit, result, mem, dest);
    if result >= 0 && Decode(block, 0, h).Output? {
      var out := mem[dest..dest + result];
      assert (h + out)[|h|..] == out;
    } else if result < 0 && Content(block, h, limit).Output? {
      DecodeLonger(block, h);
    }
  }

  lemma DecodeLonger(block: seq<byte>, h: seq<byte>)
    ensures Decode(block, 0, h).Output? ==> |h| <= |Decode(block, 0, h).bytes|
  {
    if Decode(block, 0, h).Output? { DecodeExtends(block, 0, h); }
  }

  // ----- Slices of texts -----

  /** More text behind `h` and behind what ends it. */
  lemma EndOfMore(c: seq<byte>, h: seq<byte>, n: seq<byte>)
    requires EndOf(c, h)
    ensures EndOf(c + n, h + n)
  {
  }

  /** Less of what ends a text is enough, if it is a window or all of it. */
  lemma EndOfLess(c: seq<byte>, h: seq<byte>, n: seq<byte>, k: nat)
    requires EndOf(c, h) && k <= |c| && (WINDOW <= k + |n| || k == |c|)
    ensures EndOf(c[|c| - k..] + n, h + n)
  {
  }

  /** Part of a text that ends where the whole does. */
  lemma EndOfText(h: seq<byte>, k: nat)
    requires k <= |h| && Min(WINDOW, |h|) <= k
    ensures EndOf(h[|h| - k..], h)
  {
  }

  // ----- Moving it -----

  /** memcpy of input into a buffer. */
  method StoreBytes(buffer: array<byte>, at: nat, src: seq<byte>, s: nat, n: nat)
    requires at + n <= buffer.Length && s + n <= |src|
    modifies buffer
    ensures buffer[..at + n] == old(buffer[..at]) + src[s..s + n]
  {
    forall i | 0 <= i < n { buffer[at + i] := src[s + i]; }
  }

  lemma CutDict(c: seq<byte>, k: nat, h: seq<byte>)
    requires k <= |c| && (WINDOW <= k || k == |c|) && EndOf(c, h)
    ensures EndOf(c[|c| - k..], h)
  {
    EndOfLess(c, h, [], k);
    assert c[|c| - k..] + [] == c[|c| - k..] && h + [] == h;
  }

  /** LZ4_decompress_safe_usingDict, with a dictionary that may be in another buffer than the output. */
  method DecompressWithDict(src: seq<byte>, out: array<byte>, dest: int, capacity: int, dict: seq<byte>, follows: bool) returns (result: int)
    requires Within(dest, capacity, out.Length) && capacity <= INT_MAX && |src| <= INT_MAX
    requires follows ==> |dict| <= dest && out[dest - |dict|..dest] == dict
    modifies out
    ensures forall i :: 0 <= i < out.Length && !(dest <= i < dest + capacity) ==> out[i] == old(out[i])
    ensures result <= capacity && Answers(src, dict, capacity, result, out[..], dest)
  {
    hide Answers;
    if |dict| == 0 {
      result := DecompressSafe(src, out, dest, capacity);
    } else if follows {
      result := DecompressSafeWithPrefix(src, out, dest, capacity, |dict|);
    } else {
      var j := BlockDecoder.Job(src, dest, dest + capacity, dest, dict, BlockDecoder.UsingExtDict, false);
      assert j.History(out[..], dest) == dict;
      result := Decompress(j, out);
    }
  }

  /** `size` bytes at `at` wait to be put out, `start` of which have been: they are the end of `h`. */
  ghost predicate Waiting(tmp: seq<byte>, at: nat, size: nat, start: nat, h: seq<byte>) {
    && start <= size && at + size <= |tmp| && start <= |h| && tmp[at..at + start] == h[|h| - start..]
    && Min(WINDOW, |h| - start) <= at <= |h| - start
  }

  /** With them, the front of the buffer is the end of the text. */
  ghost predicate WaitingIn(tmp: seq<byte>, at: nat, size: nat, start: nat, h: seq<byte>) {
    start <= size && at + size <= |tmp| && EndOf(tmp[..at + size], h + tmp[at + start..at + size])
  }

  lemma WaitingBounds(tmp: seq<byte>, at: nat, size: nat, start: nat, h: seq<byte>)
    requires Waiting(tmp, at, size, start, h)
    ensures start <= size && at + size <= |tmp| && start <= |h|
  {
  }

  lemma NoHistory(tmp: seq<byte>, at: nat, size: nat, start: nat, h: seq<byte>)
    requires Waiting(tmp, at, size, start, h) && at + start == 0
    ensures EndOf([], h)
  {
  }

  lemma WaitingSame(a: seq<byte>, b: seq<byte>, at: nat, size: nat, start: nat, h: seq<byte>)
    requires Waiting(a, at, size, start, h) && |a| == |b| && forall i :: at <= i < at + size ==> b[i] == a[i]
    ensures Waiting(b, at, size, start, h)
  {
    SameSlice(b, a, at, at + start);
  }

  /** `n` more of them are put out. */
  lemma WaitingMore(tmp: seq<byte>, was: seq<byte>, at: nat, size: nat, start: nat, n: nat, h: seq<byte>, out: seq<byte>)
    requires Waiting(tmp, at, size, start, h) && start + n <= size
    requires |was| == |tmp| && (forall i :: at <= i < at + size ==> was[i] == tmp[i]) && out == was[at + start..at + start + n]
    ensures Waiting(tmp, at, size, start + n, h + out)
    ensures WaitingIn(tmp, at, size, start, h) ==> WaitingIn(tmp, at, size, start + n, h + out)
  {
    hide Waiting, WaitingIn;
    WaitingBounds(tmp, at, size, start, h);
    SameSlice(was, tmp, at + start, at + start + n);
    WaitingLess(tmp, at, size, start, n, h);
    if WaitingIn(tmp, at, size, start, h) { WaitingInLess(tmp, at, size, start, n, h); }
  }

  lemma WaitingLess(tmp: seq<byte>, at: nat, size: nat, start: nat, n: nat, h: seq<byte>)
    requires Waiting(tmp, at, size, start, h) && start + n <= size
    ensures Waiting(tmp, at, size, start + n, h + tmp[at + start..at + start + n])
  {
    var out := tmp[at + start..at + start + n];
    SplitSlice(tmp, at, at + start, at + start + n);
    assert (h + out)[|h| - start..] == h[|h| - start..] + out;
  }

  lemma WaitingInLess(tmp: seq<byte>, at: nat, size: nat, start: nat, n: nat, h: seq<byte>)
    requires WaitingIn(tmp, at, size, start, h) && start + n <= size
    ensures WaitingIn(tmp, at, size, start + n, h + tmp[at + start..at + start + n])
  {
    hide EndOf;
    var out := tmp[at + start..at + start + n];
    SplitSlice(tmp, at + start, at + start + n, at + size);
    assert h + tmp[at + start..at + size] == h + out + tmp[at + start + n..at + size];
  }

  /** Output that fills a window is history enough. */
  lemma OutputEnds(mem: seq<byte>, start: int, mid: int, end: int, h: seq<byte>)
    requires 0 <= start <= mid <= end <= |mem| && WINDOW <= end - start
    requires mid - start <= |h| && h[|h| - (mid - start)..] == mem[start..mid]
    ensures EndOf(mem[start..end], h + mem[mid..end])
  {
    var t := h + mem[mid..end];
    SplitSlice(mem, start, mid, end);
    assert t[|t| - (end - start)..] == mem[start..end];
    EndOfText(t, end - start);
  }

  /** The history in the decoder's own buffer goes on there, if need be from the front again. */
  method AppendInTmp(tmp: array<byte>, dictSize0: nat, mem: array<byte>, dstPtr: int, dstSize: nat, ghost h: seq<byte>)
    returns (dictSize: nat)
    requires mem != tmp && 3 * WINDOW <= tmp.Length && dictSize0 <= tmp.Length && EndOf(tmp[..dictSize0], h)
    requires 0 <= dstPtr && dstPtr + dstSize <= mem.Length && dstSize < WINDOW
    modifies tmp
    ensures dictSize <= tmp.Length && EndOf(tmp[..dictSize], h + mem[dstPtr..dstPtr + dstSize])
  {
    hide EndOf;
    dictSize := dictSize0;
    ghost var c, n := tmp[..dictSize], mem[dstPtr..dstPtr + dstSize];
    if dictSize + dstSize > tmp.Length {
      var preserveSize := WINDOW - dstSize;
      MoveWithin(tmp, 0, dictSize - preserveSize, preserveSize);
      dictSize := preserveSize;
    }
    assert tmp[..dictSize] == c[|c| - dictSize..];
    EndOfLess(c, h, n, dictSize);
    Appended(tmp, dictSize, mem, dstPtr, dstSize);
    dictSize := dictSize + dstSize;
  }

  /** The end of a dictionary elsewhere and new output are put together in the decoder's own buffer. */
  method JoinInTmp(tmp: array<byte>, mem: array<byte>, dictAt: int, dictSize0: nat, dstPtr: int, dstSize: nat, ghost h: seq<byte>)
    returns (dictSize: nat)
    requires mem != tmp && WINDOW <= tmp.Length && 0 <= dictAt && dictAt + dictSize0 <= mem.Length
    requires EndOf(mem[dictAt..dictAt + dictSize0], h)
    requires 0 <= dstPtr && dstPtr + dstSize <= mem.Length && dstSize < WINDOW
    modifies tmp
    ensures dictSize <= tmp.Length && EndOf(tmp[..dictSize], h + mem[dstPtr..dstPtr + dstSize])
  {
    hide EndOf;
    var preserveSize := WINDOW - dstSize;
    if preserveSize > dictSize0 { preserveSize := dictSize0; }
    ghost var c, n := mem[dictAt..dictAt + dictSize0], mem[dstPtr..dstPtr + dstSize];
    CopyFrom(tmp, 0, mem, dictAt + dictSize0 - preserveSize, preserveSize);
    assert tmp[..preserveSize] == c[|c| - preserveSize..];
    EndOfLess(c, h, n, preserveSize);
    Appended(tmp, preserveSize, mem, dstPtr, dstSize);
    dictSize := preserveSize + dstSize;
  }

  method Appended(tmp: array<byte>, at: nat, mem: array<byte>, s: int, n: nat)
    requires mem != tmp && at + n <= tmp.Length && 0 <= s && s + n <= mem.Length
    modifies tmp
    ensures tmp[..at + n] == old(tmp[..at]) + mem[s..s + n]
  {
    CopyFrom(tmp, at, mem, s, n);
  }

  /** memcpy within one buffer, to a lower place that does not overlap. */
  method MoveWithin(a: array<byte>, d: int, s: int, n: nat)
    requires 0 <= d && d + n <= s && s + n <= a.Length
    modifies a
    ensures forall i :: d <= i < d + n ==> a[i] == old(a[i - d + s])
    ensures forall i :: 0 <= i < a.Length && !(d <= i < d + n) ==> a[i] == old(a[i])
  {
    forall i | 0 <= i < n { a[d + i] := a[s + i]; }
    assert forall i :: d <= i < d + n ==> a[i] == old(a[i - d + s]);
  }

  /** memcpy from one buffer to another. */
  method CopyFrom(dst: array<byte>, d: int, src: array<byte>, s: int, n: nat)
    requires dst != src && 0 <= d && d + n <= dst.Length && (n > 0 ==> 0 <= s && s + n <= src.Length)
    modifies dst
    ensures forall i :: d <= i < d + n ==> dst[i] == src[i - d + s]
    ensures forall i :: 0 <= i < dst.Length && !(d <= i < d + n) ==> dst[i] == old(dst[i])
  {
    forall i | 0 <= i < n { dst[d + i] := src[s + i]; }
    assert forall i :: d <= i < d + n ==> dst[i] == src[i - d + s];
  }

  /** The last `k` bytes of a stretch are copied to the front of a buffer. */
  method CopyTail(tmp: array<byte>, mem: array<byte>, at: int, size: nat, k: nat)
    requires mem != tmp && 0 <= at && at + size <= mem.Length && k <= size && k <= tmp.Length
    modifies tmp
    ensures tmp[..k] == mem[at..at + size][size - k..]
  {
    CopyFrom(tmp, 0, mem, at + size - k, k);
    Copied(tmp[..], 0, mem[..], at + size - k, k);
    SliceOfSlice(mem[..], at, at + size, size - k, size);
    assert tmp[..k] == tmp[..][0..k];
    assert mem[at..at + size] == mem[..][at..at + size];
  }

  lemma Copied(dst: seq<byte>, d: int, src: seq<byte>, s: int, n: nat)
    requires 0 <= d && d + n <= |dst| && 0 <= s && s + n <= |src|
    requires forall i :: d <= i < d + n ==> dst[i] == src[i - d + s]
    ensures dst[d..d + n] == src[s..s + n]
  {
  }

  /** Copies as much of a dictionary in front of a block as the next one can refer to. */
  method JoinFront(tmp: array<byte>, mem: array<byte>, dictAt: int, dictSize: nat, tmpOut: nat, tmpOutSize: nat, tmpOutStart: nat, ghost h: seq<byte>)
    requires mem != tmp && 0 <= dictAt && dictAt + dictSize <= mem.Length && EndOf(mem[dictAt..dictAt + dictSize], h)
    requires Waiting(tmp[..], tmpOut, tmpOutSize, tmpOutStart, h)
    modifies tmp
    ensures Waiting(tmp[..], tmpOut, tmpOutSize, tmpOutStart, h) && WaitingIn(tmp[..], tmpOut, tmpOutSize, tmpOutStart, h)
    ensures tmpOut + tmpOutSize <= tmp.Length
    ensures forall i :: tmpOut <= i < tmpOut + tmpOutSize ==> tmp[i] == old(tmp[i])
  {
    var preserveSize := tmpOut;
    var copySize := WINDOW - tmpOutSize;
    var oldDictEnd := dictAt + dictSize - tmpOutStart;
    if tmpOutSize > WINDOW { copySize := 0; }
    if copySize > preserveSize { copySize := preserveSize; }
    ghost var was, c := tmp[..], mem[dictAt..dictAt + dictSize];
    assert copySize > 0 ==> tmpOutStart + copySize <= dictSize;
    hide EndOf, Waiting, WaitingIn;
    CopyFrom(tmp, preserveSize - copySize, mem, oldDictEnd - copySize, copySize);
    ghost var now := tmp[..];
    if copySize > 0 { FrontCopied(now, mem[..], dictAt, dictSize, tmpOut, tmpOutStart, copySize); }
    FrontJoined(c, h, was, now, tmpOut, tmpOutSize, tmpOutStart, copySize);
    WaitingSame(was, now, tmpOut, tmpOutSize, tmpOutStart, h);
  }

  lemma FrontCopied(now: seq<byte>, m: seq<byte>, dictAt: int, dictSize: nat, at: nat, start: nat, copy: nat)
    requires 0 <= dictAt && dictAt + dictSize <= |m| && copy <= at <= |now| && start + copy <= dictSize
    requires forall i :: at - copy <= i < at ==> now[i] == m[i - (at - copy) + (dictAt + dictSize - start - copy)]
    ensures var c := m[dictAt..dictAt + dictSize];
            forall i :: at - copy <= i < at ==> 0 <= i - at - start + |c| && now[i] == c[i - at - start + |c|]
  {
    var c := m[dictAt..dictAt + dictSize];
    forall i | at - copy <= i < at ensures now[i] == c[i - at - start + |c|] {
      assert now[i] == m[i - (at - copy) + (dictAt + dictSize - start - copy)];
    }
  }

  /** Enough history in front of a block is enough behind it. */
  lemma FrontJoined(c: seq<byte>, h: seq<byte>, a: seq<byte>, b: seq<byte>, at: nat, size: nat, start: nat, copy: nat)
    requires EndOf(c, h) && Waiting(a, at, size, start, h) && |a| == |b|
    requires copy == Min(Max(WINDOW - size, 0), at)
    requires forall i :: at <= i < at + size ==> b[i] == a[i]
    requires copy > 0 ==> forall i :: at - copy <= i < at ==> 0 <= i - at - start + |c| && b[i] == c[i - at - start + |c|]
    ensures WaitingIn(b, at, size, start, h)
  {
    var x, y := b[..at + size], h + b[at + start..at + size];
    forall i | |x| - Min(|x|, WINDOW) <= i < |x| ensures x[i] == y[i + (|y| - |x|)] {
      if i < at {
        assert b[i] == c[i - at - start + |c|];
      } else if i < at + start {
        assert a[i] == a[at..at + start][i - at] == h[|h| - start..][i - at];
      }
    }
  }
}
