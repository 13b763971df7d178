/**
 How short the compressor makes an input of equal bytes, whatever its hash function and its table are: the
 second position finds the first one, and the match goes on to the last literals.
 */
module EqualBytes {
  import opened Bytes
  import opened BlockFormat
  import opened BlockEncoding
  import opened MatchFinder
  import opened MatchLength
  import opened SequenceWriter
  import opened BlockCompressor
  import opened BlockStream

  /** All bytes of `s` are the same. */
  predicate AllEqual(s: seq<byte>) { forall i, k :: 0 <= i < |s| && 0 <= k < |s| ==> s[i] == s[k] }

  /** What a block for `n` equal bytes takes at most: one sequence, and five literals. */
  function EqualBound(n: nat): nat { n / 255 + 11 }

  lemma EqualSlices(s: seq<byte>, a: nat, b: nat, n: nat)
    requires AllEqual(s) && a + n <= |s| && b + n <= |s|
    ensures s[a..a + n] == s[b..b + n]
  {
  }

  /** The second position finds the first one. */
  lemma FindsFirst(j: Job, t: seq<int>, dictTable: seq<int>)
    requires j.Valid() && |t| == TABLE_SIZE && (j.mode == UsingDictCtx ==> |dictTable| == TABLE_SIZE)
    requires MIN_LENGTH <= j.inputSize && AllEqual(j.mem[j.source..j.End()])
    ensures FirstHit(j, t, dictTable) && FirstOffset(j, t, dictTable) == 1
  {
    var s, p := j.mem[j.source..j.End()], j.source;
    EqualSlices(s, 0, 1, 8);
    EqualSlices(s, 0, 1, 4);
    SliceOfSlice(j.mem, p, j.End(), 0, 8);
    SliceOfSlice(j.mem, p, j.End(), 1, 9);
    SliceOfSlice(j.mem, p, j.End(), 0, 4);
    SliceOfSlice(j.mem, p, j.End(), 1, 5);
    hide AllEqual;
    assert j.HashPosition(p) == j.HashPosition(p + 1);
    hide Job.HashPosition;
  }

  /** What holds of the matches of a parse holds of the first one. */
  lemma {:induction false} FirstStretched(j: Job, qs: seq<Emitted>)
    requires j.Valid() && Encodable(qs) && Applicable(j.History(), qs) && AllStretched(j, qs) && qs != []
    ensures var q := qs[0]; Stretched(j, j.source, j.source + |q.literals|, q.offset, q.length)
    decreases |qs|
  {
    hide Stretched, Job.Text, Job.History;
    var front := qs[..|qs| - 1];
    if front == [] {
      assert Expand(j.History(), front) == j.History();
    } else {
      FirstStretched(j, front);
    }
  }

  /** A parse whose first match ends in front of the last literals has no other one. */
  lemma {:induction false} NothingBehind(j: Job, qs: seq<Emitted>)
    requires j.Valid() && Encodable(qs) && Applicable(j.History(), qs) && AllStretched(j, qs) && qs != []
    requires j.source + |qs[0].literals| + qs[0].length == j.End() - LASTLITERALS
    ensures |qs| == 1 && |Expand(j.History(), qs)| == j.At(j.End() - LASTLITERALS)
    decreases |qs|
  {
    hide Job.Text, Job.History, CopyMatch;
    var h, front, q := j.History(), qs[..|qs| - 1], qs[|qs| - 1];
    assert q in qs;
    if front == [] {
      assert Expand(h, front) == h;
    } else {
      NothingBehind(j, front);
      assert false;
    }
  }

  lemma InputAt(j: Job, p: int)
    requires j.Valid() && j.source <= p < j.End()
    ensures j.Text()[j.At(p)] == j.mem[j.source..j.End()][p - j.source]
  {
  }

  /** In equal bytes, a match at offset 1 goes on to the last literals. */
  lemma GoesToEnd(j: Job, ip: int, n: nat)
    requires j.Valid() && AllEqual(j.mem[j.source..j.End()]) && j.source < ip + n && Stretched(j, j.source, ip, 1, n)
    ensures ip + n == j.End() - LASTLITERALS
  {
    hide Job.Text, Job.History;
    if ip + n < j.End() - LASTLITERALS {
      InputAt(j, ip + n);
      InputAt(j, ip + n - 1);
      assert false;
    }
  }

  lemma OneSequence(q: Emitted, last: seq<byte>, n: nat)
    requires q.offset == 1 && MINMATCH <= q.length && |q.literals| <= 1 && |last| == LASTLITERALS && |q.literals| + q.length + LASTLITERALS == n
    ensures |EncodeBlock([q], last)| <= EqualBound(n)
  {
    hide Encode;
    assert [q][..0] == [];
    assert EncodeAll([q]) == [] + Encode(q);
    SequenceSize(q);
    LiteralsSize(q.literals);
    LiteralsSize(last);
  }

  /** A block for equal bytes, and the room in which it is sure to be made. */
  lemma EqualBytesAreShort(j: Job, t: seq<int>, dictTable: seq<int>, room: int, answer: seq<byte>)
    requires j.Valid() && j.Distinct() && |t| == TABLE_SIZE && (j.mode == UsingDictCtx ==> |dictTable| == TABLE_SIZE)
    requires MIN_LENGTH <= j.inputSize && AllEqual(j.mem[j.source..j.End()]) && Greedy(j, t, dictTable, room, answer)
    ensures |answer| <= EqualBound(j.inputSize) && (EqualBound(j.inputSize) <= room ==> answer != [])
  {
    hide Stretched, Hit, HitOffset, FirstHit, FirstOffset, AllEqual, Job.Text, Job.History, Job.Distinct, Expand, AllStretched, Encode, EncodeLiterals, EncodeAll, EqualBound;
    var qs: seq<Emitted>, anchor: int :| FromParse(j, t, dictTable, room, answer, qs, anchor);
    FindsFirst(j, t, dictTable);
    assert GoesOn(qs, [], j.source, j.source + 1, 1);
    var q := qs[0];
    FirstStretched(j, qs);
    GoesToEnd(j, j.source + |q.literals|, q.length);
    NothingBehind(j, qs);
    assert qs == [q];
    assert anchor == j.End() - LASTLITERALS;
    NotEmpty(j.mem[anchor..j.End()]);
    OneSequence(q, j.mem[anchor..j.End()], j.inputSize);
  }

  /** The same, for an answer of any call. */
  lemma EqualAnswer(mem: seq<byte>, source: int, n: nat, hash: seq<byte> -> nat, acceleration: int, room: int, answer: seq<byte>)
    requires Searched(mem, source, n, hash, acceleration, room, answer) && MIN_LENGTH <= n
    requires 0 <= source && source + n <= |mem| && AllEqual(mem[source..source + n])
    ensures |answer| <= EqualBound(n) && (EqualBound(n) <= room ==> answer != [])
  {
    hide Greedy, AllEqual, Job.Distinct, EqualBound;
    var j: Job, t: seq<int>, dictTable: seq<int> :| SearchedBy(j, t, dictTable, room, answer) && j.mem == mem && j.source == source && j.inputSize == n;
    EqualBytesAreShort(j, t, dictTable, room, answer);
  }
}
