/**
 The decompression functions of lz4.c that are instances of LZ4_decompress_generic, and
 LZ4_streamDecode_t. Memory is one buffer and a pointer is an index into it.
 */
module BlockApi {
  import opened Bytes
  import opened BlockFormat
  import opened BlockDecoder

  /** The block must be accepted: it means something, meets the end conditions and fits. */
  ghost predicate MustAccept(src: seq<byte>, h: seq<byte>, capacity: int) {
    && Decode(src, 0, h).Output? && EndConditions(src, 0)
    && |Decode(src, 0, h).bytes| - |h| <= capacity
    && (capacity > 0 || src == [0])
  }

  /** The answer to decoding `src` behind the history `h` into memory at `dest`. */
  ghost predicate Answers(src: seq<byte>, h: seq<byte>, capacity: int, result: int, mem: seq<byte>, dest: int)
    requires Within(dest, capacity, |mem|) && result <= capacity
  {
    && (result >= 0 ==> Decode(src, 0, h) in {Unspecified, Output(h + mem[dest..dest + result])})
    && (MustAccept(src, h, capacity) ==> result >= 0)
  }

  /** A full window of history is as good as any longer one. */
  lemma AnswersWindow(src: seq<byte>, older: seq<byte>, h: seq<byte>, capacity: int, result: int, mem: seq<byte>, dest: int)
    requires Within(dest, capacity, |mem|) && result <= capacity && DISTANCE_MAX <= |h|
    ensures Answers(src, h, capacity, result, mem, dest) <==> Answers(src, older + h, capacity, result, mem, dest)
  {
    DecodeWindow(src, 0, older, h);
    if 0 <= result {
      var out := mem[dest..dest + result];
      assert older + h + out == older + (h + out);
      if Decode(src, 0, older + h) == Output(older + h + out) {
        match Decode(src, 0, h)
        case Output(r) => assert r == (older + r)[|older|..] == (older + (h + out))[|older|..] == h + out;
      }
    }
  }

  /** Where `[d, d + n)` lies in memory. */
  predicate Within(d: int, n: int, size: int) { 0 <= d && 0 <= n && d + n <= size }

  predicate Disjoint(a: int, n: int, b: int, m: int) { n == 0 || m == 0 || a + n <= b || b + m <= a }

  lemma NothingMore(s: seq<byte>, t: seq<byte>)
    requires t == []
    ensures s + t == s
  {
  }

  /** Two stretches of memory, the second of which has been prolonged by new output. */
  lemma SegmentGrows(a: seq<byte>, b: seq<byte>, ext: int, extSize: int, start: int, dest: int, n: int, capacity: int)
    requires |a| == |b| && Within(dest, capacity, |a|) && 0 <= n <= capacity && 0 <= start <= dest
    requires Within(ext, extSize, |a|) && Disjoint(ext, extSize, dest, capacity)
    requires forall i :: 0 <= i < |a| && !(dest <= i < dest + capacity) ==> b[i] == a[i]
    ensures b[ext..ext + extSize] + b[start..dest + n] == a[ext..ext + extSize] + a[start..dest] + b[dest..dest + n]
  {
    assert b[ext..ext + extSize] == a[ext..ext + extSize];
    assert b[start..dest] == a[start..dest];
    SplitSlice(b, start, dest, dest + n);
  }

  /** One call of LZ4_decompress_generic, said as an answer. */
  method Decompress(j: Job, mem: array<byte>) returns (result: int)
    requires j.Fits(mem.Length) && !j.partial
    modifies mem
    ensures forall i :: 0 <= i < mem.Length && !(j.dest <= i < j.oend) ==> mem[i] == old(mem[i])
    ensures result <= j.oend - j.dest && Answers(j.src, old(j.History(mem[..], j.dest)), j.oend - j.dest, result, mem[..], j.dest)
  {
    ghost var a := mem[..];
    MeaningExtends(j, a);
    hide Decode, EndConditions;
    result := DecompressGeneric(j, mem);
    if result >= 0 {
      assert j.History(mem[..], j.dest + result) == j.History(a, j.dest) + mem[j.dest..j.dest + result] by {
        HistoryGrows(j, a, mem[..], j.dest, mem[j.dest..j.dest + result]);
      }
    }
  }

  /** LZ4_decompress_safe. */
  method DecompressSafe(src: seq<byte>, mem: array<byte>, dest: int, capacity: int) returns (result: int)
    requires Within(dest, capacity, mem.Length) && capacity <= INT_MAX && |src| <= INT_MAX
    modifies mem
    ensures forall i :: 0 <= i < mem.Length && !(dest <= i < dest + capacity) ==> mem[i] == old(mem[i])
    ensures result <= capacity && Answers(src, [], capacity, result, mem[..], dest)
  {
    var j := Job(src, dest, dest + capacity, dest, [], NoDict, false);
    assert j.History(mem[..], dest) == [];
    result := Decompress(j, mem);
  }

  /** LZ4_decompress_safe_withPrefix64k and LZ4_decompress_safe_withSmallPrefix. */
  method DecompressSafeWithPrefix(src: seq<byte>, mem: array<byte>, dest: int, capacity: int, prefixSize: int)
    returns (result: int)
    requires Within(dest, capacity, mem.Length) && capacity <= INT_MAX && |src| <= INT_MAX
    requires 0 <= prefixSize <= dest
    modifies mem
    ensures forall i :: 0 <= i < mem.Length && !(dest <= i < dest + capacity) ==> mem[i] == old(mem[i])
    ensures result <= capacity && Answers(src, old(mem[dest - prefixSize..dest]), capacity, result, mem[..], dest)
  {
    hide Answers;
    ghost var prefix := mem[dest - prefixSize..dest];
    if prefixSize >= 64 * KB - 1 {
      var j := Job(src, dest, dest + capacity, dest - 64 * KB, [], WithPrefix64k, false);
      ghost var window := mem[dest - DISTANCE_MAX..dest];
      assert j.History(mem[..], dest) == mem[j.Base()..dest];
      SplitSlice(mem[..], j.Base(), dest - DISTANCE_MAX, dest);
      SplitSlice(mem[..], dest - prefixSize, dest - DISTANCE_MAX, dest);
      ghost var older, older' := mem[j.Base()..dest - DISTANCE_MAX], mem[dest - prefixSize..dest - DISTANCE_MAX];
      result := Decompress(j, mem);
      AnswersWindow(src, older, window, capacity, result, mem[..], dest);
      AnswersWindow(src, older', window, capacity, result, mem[..], dest);
    } else {
      var j := Job(src, dest, dest + capacity, dest - prefixSize, [], NoDict, false);
      assert j.History(mem[..], dest) == prefix;
      result := Decompress(j, mem);
    }
  }

  /** LZ4_decompress_safe_forceExtDict, and with a prefix LZ4_decompress_safe_doubleDict. */
  method DecompressSafeExtDict(src: seq<byte>, mem: array<byte>, dest: int, capacity: int, prefixSize: int,
                               dictStart: int, dictSize: int)
    returns (result: int)
    requires Within(dest, capacity, mem.Length) && capacity <= INT_MAX && |src| <= INT_MAX
    requires 0 <= prefixSize <= dest
    requires Within(dictStart, dictSize, mem.Length) && Disjoint(dictStart, dictSize, dest, capacity)
    modifies mem
    ensures forall i :: 0 <= i < mem.Length && !(dest <= i < dest + capacity) ==> mem[i] == old(mem[i])
    ensures result <= capacity && Answers(src, old(mem[dictStart..dictStart + dictSize] + mem[dest - prefixSize..dest]), capacity, result, mem[..], dest)
  {
    hide Answers;
    var j := Job(src, dest, dest + capacity, dest - prefixSize, mem[dictStart..dictStart + dictSize], UsingExtDict, false);
    assert j.History(mem[..], dest) == mem[dictStart..dictStart + dictSize] + mem[dest - prefixSize..dest];
    result := Decompress(j, mem);
  }

  /** LZ4_decompress_safe_usingDict: the dictionary is a prefix if the output follows it. */
  method DecompressSafeUsingDict(src: seq<byte>, mem: array<byte>, dest: int, capacity: int, dictStart: int, dictSize: int)
    returns (result: int)
    requires Within(dest, capacity, mem.Length) && capacity <= INT_MAX && |src| <= INT_MAX
    requires Within(dictStart, dictSize, mem.Length) && Disjoint(dictStart, dictSize, dest, capacity)
    modifies mem
    ensures forall i :: 0 <= i < mem.Length && !(dest <= i < dest + capacity) ==> mem[i] == old(mem[i])
    ensures result <= capacity && Answers(src, old(mem[dictStart..dictStart + dictSize]), capacity, result, mem[..], dest)
  {
    hide Answers;
    if dictSize == 0 {
      assert mem[dictStart..dictStart + dictSize] == [];
      result := DecompressSafe(src, mem, dest, capacity);
    } else if dictStart + dictSize == dest {
      result := DecompressSafeWithPrefix(src, mem, dest, capacity, dictSize);
    } else {
      assert mem[dictStart..dictStart + dictSize] + mem[dest - 0..dest] == mem[dictStart..dictStart + dictSize];
      result := DecompressSafeExtDict(src, mem, dest, capacity, 0, dictStart, dictSize);
    }
  }

  /** LZ4_decompress_safe_partial. */
  method DecompressSafePartial(src: seq<byte>, mem: array<byte>, dest: int, targetOutputSize: int, dstCapacity: int)
    returns (result: int)
    requires Within(dest, dstCapacity, mem.Length) && dstCapacity <= INT_MAX && |src| <= INT_MAX && 0 <= targetOutputSize
    modifies mem
    ensures forall i :: 0 <= i < mem.Length && !(dest <= i < dest + Min(targetOutputSize, dstCapacity)) ==> mem[i] == old(mem[i])
    ensures Decode(src, 0, []).Output? && EndConditions(src, 0) ==>
              var whole := Decode(src, 0, []).bytes;
              && result == Min(Min(targetOutputSize, dstCapacity), |whole|)
              && mem[dest..dest + result] == whole[..result]
  {
    var j := Job(src, dest, dest + Min(targetOutputSize, dstCapacity), dest, [], NoDict, true);
    assert j.History(mem[..], dest) == [];
    hide Decode, EndConditions;
    result := DecompressGeneric(j, mem);
    if Decode(src, 0, []).Output? && EndConditions(src, 0) {
      assert j.History(mem[..], dest + result) == mem[dest..dest + result];
    }
  }

  /** A prefix, and in front of it, if the output follows the prefix, an external dictionary. */
  ghost function TextBefore(mem: seq<byte>, ext: int, extSize: int, prefixEnd: int, prefixSize: int, dest: int): (h: seq<byte>)
    requires Within(ext, extSize, |mem|) && Within(prefixEnd - prefixSize, prefixSize, |mem|)
  {
    (if prefixEnd == dest then mem[ext..ext + extSize] else []) + mem[prefixEnd - prefixSize..prefixEnd]
  }

  lemma TextElsewhere(mem: seq<byte>, ext: int, extSize: int, prefixEnd: int, prefixSize: int, dest: int)
    requires Within(ext, extSize, |mem|) && Within(prefixEnd - prefixSize, prefixSize, |mem|) && prefixEnd != dest
    ensures TextBefore(mem, ext, extSize, prefixEnd, prefixSize, dest) == mem[prefixEnd - prefixSize..prefixEnd]
  {
  }

  /** Output right behind the prefix prolongs it. */
  lemma TextRolls(a: seq<byte>, b: seq<byte>, ext: int, extSize: int, dest: int, size: int, n: int, capacity: int)
    requires |a| == |b| && Within(dest, capacity, |a|) && 0 <= n <= capacity && 0 <= size <= dest
    requires Within(ext, extSize, |a|) && Disjoint(ext, extSize, dest, capacity)
    requires forall i :: 0 <= i < |a| && !(dest <= i < dest + capacity) ==> b[i] == a[i]
    ensures TextBefore(b, ext, extSize, dest + n, size + n, dest + n) == TextBefore(a, ext, extSize, dest, size, dest) + b[dest..dest + n]
  {
    SegmentGrows(a, b, ext, extSize, dest - size, dest, n, capacity);
  }

  /** Output elsewhere makes the prefix the external dictionary; without output, nothing changes. */
  lemma TextSwitches(a: seq<byte>, b: seq<byte>, end: int, size: int, dest: int, n: int, capacity: int)
    requires |a| == |b| && Within(dest, capacity, |a|) && 0 <= n <= capacity
    requires Within(end - size, size, |a|) && Disjoint(end - size, size, dest, capacity)
    requires forall i :: 0 <= i < |a| && !(dest <= i < dest + capacity) ==> b[i] == a[i]
    ensures TextBefore(b, end - size, size, dest + n, n, dest + n) == a[end - size..end] + b[dest..dest + n]
    ensures n == 0 && dest != end ==> TextBefore(b, end - size, size, end, size, dest) == a[end - size..end] + b[dest..dest + n]
  {
    SameSlice(b, a, end - size, end);
  }

  /** LZ4_streamDecode_t: where the block before this one was decoded, and what came before that. */
  class StreamDecode {
    var externalDict: int
    var extDictSize: int
    var prefixEnd: int
    var prefixSize: int

    ghost predicate Valid(size: int)
      reads this
    {
      && Within(prefixEnd - prefixSize, prefixSize, size)
      && Within(externalDict, extDictSize, size)
      && (prefixSize == 0 ==> extDictSize == 0)
    }

    /** The text that a block decoded at `dest` may refer to. */
    ghost function History(mem: seq<byte>, dest: int): (h: seq<byte>)
      requires Valid(|mem|)
      reads this
    {
      TextBefore(mem, externalDict, extDictSize, prefixEnd, prefixSize, dest)
    }

    /** LZ4_setStreamDecode. */
    constructor (dictionary: int, dictSize: int)
      requires 0 <= dictionary && 0 <= dictSize
      ensures prefixSize == dictSize && prefixEnd == dictionary + dictSize && extDictSize == 0 && externalDict == 0
    {
      prefixSize := dictSize;
      prefixEnd := dictionary + dictSize;
      externalDict, extDictSize := 0, 0;
    }

    /** The first case of LZ4_decompress_safe_continue: nothing has been decoded yet. */
    method StartSegment(src: seq<byte>, mem: array<byte>, dest: int, capacity: int) returns (result: int)
      requires Valid(mem.Length) && prefixSize == 0
      requires Within(dest, capacity, mem.Length) && capacity <= INT_MAX && |src| <= INT_MAX
      modifies this, mem
      ensures Valid(mem.Length)
      ensures forall i :: 0 <= i < mem.Length && !(dest <= i < dest + capacity) ==> mem[i] == old(mem[i])
      ensures result <= capacity && Answers(src, old(History(mem[..], dest)), capacity, result, mem[..], dest)
      ensures if result > 0 then prefixEnd == dest + result && prefixSize == result else prefixEnd == old(prefixEnd) && prefixSize == old(prefixSize)
      ensures externalDict == old(externalDict) && extDictSize == old(extDictSize)
      ensures result >= 0 ==> History(mem[..], dest + result) == old(History(mem[..], dest)) + mem[dest..dest + result]
    {
      hide Answers;
      ghost var a := mem[..];
      assert History(a, dest) == [];
      result := DecompressSafe(src, mem, dest, capacity);
      if result <= 0 { return; }
      prefixSize, prefixEnd := result, dest + result;
      assert History(mem[..], dest + result) == mem[dest..dest + result];
    }

    /** Which kind of history the output has when it goes on where it stopped. */
    method DecodeBehindPrefix(src: seq<byte>, mem: array<byte>, dest: int, capacity: int) returns (result: int)
      requires Valid(mem.Length) && prefixEnd == dest
      requires Within(dest, capacity, mem.Length) && capacity <= INT_MAX && |src| <= INT_MAX
      requires Disjoint(externalDict, extDictSize, dest, capacity)
      modifies mem
      ensures forall i :: 0 <= i < mem.Length && !(dest <= i < dest + capacity) ==> mem[i] == old(mem[i])
      ensures result <= capacity && Answers(src, old(History(mem[..], dest)), capacity, result, mem[..], dest)
    {
      hide Answers;
      ghost var h := History(mem[..], dest);
      ghost var ext, prefix := mem[externalDict..externalDict + extDictSize], mem[dest - prefixSize..dest];
      assert h == ext + prefix;
      if prefixSize >= 64 * KB - 1 {
        result := DecompressSafeWithPrefix(src, mem, dest, capacity, prefixSize);
        AnswersWindow(src, ext, prefix, capacity, result, mem[..], dest);
      } else if extDictSize == 0 {
        assert h == prefix;
        result := DecompressSafeWithPrefix(src, mem, dest, capacity, prefixSize);
      } else {
        result := DecompressSafeExtDict(src, mem, dest, capacity, prefixSize, externalDict, extDictSize);
      }
    }

    /** The middle case of LZ4_decompress_safe_continue: the current segment is prolonged. */
    method RollSegment(src: seq<byte>, mem: array<byte>, dest: int, capacity: int) returns (result: int)
      requires Valid(mem.Length) && prefixEnd == dest && prefixSize != 0
      requires Within(dest, capacity, mem.Length) && capacity <= INT_MAX && |src| <= INT_MAX
      requires Disjoint(externalDict, extDictSize, dest, capacity)
      modifies this, mem
      ensures Valid(mem.Length)
      ensures forall i :: 0 <= i < mem.Length && !(dest <= i < dest + capacity) ==> mem[i] == old(mem[i])
      ensures result <= capacity && Answers(src, old(History(mem[..], dest)), capacity, result, mem[..], dest)
      ensures if result > 0 then prefixEnd == dest + result && prefixSize == old(prefixSize) + result else prefixEnd == old(prefixEnd) && prefixSize == old(prefixSize)
      ensures externalDict == old(externalDict) && extDictSize == old(extDictSize)
      ensures result >= 0 ==> History(mem[..], dest + result) == old(History(mem[..], dest)) + mem[dest..dest + result]
    {
      hide Answers, TextBefore;
      ghost var a, size := mem[..], prefixSize;
      result := DecodeBehindPrefix(src, mem, dest, capacity);
      if result > 0 {
        prefixSize, prefixEnd := prefixSize + result, prefixEnd + result;
      }
      TextRolls(a, mem[..], externalDict, extDictSize, dest, size, Max(result, 0), capacity);
    }

    /** The last case of LZ4_decompress_safe_continue: the output goes on somewhere else. */
    method SwitchSegment(src: seq<byte>, mem: array<byte>, dest: int, capacity: int) returns (result: int)
      requires Valid(mem.Length) && prefixEnd != dest && prefixSize != 0
      requires Within(dest, capacity, mem.Length) && capacity <= INT_MAX && |src| <= INT_MAX
      requires Disjoint(prefixEnd - prefixSize, prefixSize, dest, capacity)
      modifies this, mem
      ensures Valid(mem.Length)
      ensures forall i :: 0 <= i < mem.Length && !(dest <= i < dest + capacity) ==> mem[i] == old(mem[i])
      ensures result <= capacity && Answers(src, old(History(mem[..], dest)), capacity, result, mem[..], dest)
      ensures if result > 0 then prefixEnd == dest + result && prefixSize == result else prefixEnd == old(prefixEnd) && prefixSize == old(prefixSize)
      ensures externalDict == old(prefixEnd - prefixSize) && extDictSize == old(prefixSize)
      ensures result >= 0 ==> History(mem[..], dest + result) == old(History(mem[..], dest)) + mem[dest..dest + result]
    {
      hide Answers, TextBefore;
      ghost var a, end := mem[..], prefixEnd;
      TextElsewhere(a, externalDict, extDictSize, end, prefixSize, dest);
      extDictSize := prefixSize;
      externalDict := prefixEnd - extDictSize;
      NothingMore(a[externalDict..end], a[dest - 0..dest]);
      result := DecompressSafeExtDict(src, mem, dest, capacity, 0, externalDict, extDictSize);
      TextSwitches(a, mem[..], end, prefixSize, dest, Max(result, 0), capacity);
      if result > 0 {
        prefixSize, prefixEnd := result, dest + result;
      }
    }

    /** LZ4_decompress_safe_continue. */
    method DecompressSafeContinue(src: seq<byte>, mem: array<byte>, dest: int, capacity: int) returns (result: int)
      requires Valid(mem.Length)
      requires Within(dest, capacity, mem.Length) && capacity <= INT_MAX && |src| <= INT_MAX
      requires Disjoint(prefixEnd - prefixSize, prefixSize, dest, capacity)
      requires prefixEnd == dest ==> Disjoint(externalDict, extDictSize, dest, capacity)
      modifies this, mem
      ensures Valid(mem.Length)
      ensures forall i :: 0 <= i < mem.Length && !(dest <= i < dest + capacity) ==> mem[i] == old(mem[i])
      ensures result <= capacity && Answers(src, old(History(mem[..], dest)), capacity, result, mem[..], dest)
      ensures if result > 0 then
          prefixEnd == dest + result && prefixSize == result + (if old(prefixEnd) == dest then old(prefixSize) else 0)
        else
          prefixEnd == old(prefixEnd) && prefixSize == old(prefixSize)
      ensures if old(prefixSize) == 0 || old(prefixEnd) == dest then
          externalDict == old(externalDict) && extDictSize == old(extDictSize)
        else
          externalDict == old(prefixEnd - prefixSize) && extDictSize == old(prefixSize)
      ensures result >= 0 ==> History(mem[..], dest + result) == old(History(mem[..], dest)) + mem[dest..dest + result]
    {
      hide Answers, History;
      if prefixSize == 0 {
        result := StartSegment(src, mem, dest, capacity);
      } else if prefixEnd == dest {
        result := RollSegment(src, mem, dest, capacity);
      } else {
        result := SwitchSegment(src, mem, dest, capacity);
      }
    }
  }
}
