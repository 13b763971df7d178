/**
 An output that is to be filled completely may keep one byte: where the next literal would need another byte for the
 length of the literals. Whether it does depends on the room behind the last match.
 */
module FillLimits {
  import opened Bytes
  import opened BlockFormat
  import opened BlockEncoding
  import opened SequenceWriter
  import opened BlockStream

  /** Nothing in it repeats. */
  predicate AllDifferent(s: seq<byte>) { forall i, k :: 0 <= i < k < |s| ==> s[i] != s[k] }

  /** There are no matches in such an input. */
  lemma NoSequences(input: seq<byte>, qs: seq<Emitted>)
    requires Encodable(qs) && Applicable([], qs) && Expand([], qs) <= input && AllDifferent(input)
    ensures qs == []
  {
    if qs != [] {
      var front, q := qs[..|qs| - 1], qs[|qs| - 1];
      CopyRepeats(Expand([], front) + q.literals, q.offset, q.length);
      assert false;
    }
  }

  lemma CopyRepeats(out: seq<byte>, offset: nat, n: nat)
    requires 1 <= offset <= |out| && 0 < n
    ensures var r := CopyMatch(out, offset, n); |out| < |r| && r[|out|] == r[|out| - offset]
  {
    var r := CopyMatch(out, offset, n);
    RepeatsIsCopyMatch(out, offset, r);
  }

  /** Of an input without repetitions, the output is filled completely exactly if its size is none of these. */
  lemma FilledExactly(input: seq<byte>, room: int, answer: seq<byte>, consumed: int)
    requires FilledUp(input, room, answer, consumed) && AllDifferent(input)
    ensures 0 <= consumed <= |input| && answer == EncodeLiterals(input[..consumed], 0)
    ensures consumed < |input| ==> room - 1 <= |answer| <= room && (|answer| == room <==> room % 256 != 16)
  {
    hide EncodeLiterals, Expand, Applicable, Encodable;
    var qs: seq<Emitted> :| FilledWith(input, room, answer, consumed, qs);
    NoSequences(input, qs);
    assert EncodeAll(qs) == [];
    ExpandNothing();
  }

  lemma ExpandNothing()
    ensures Encodable([]) && Applicable([], []) && Expand([], []) == []
  {
  }

  /** Twenty different bytes, and a target of sixteen: fourteen are taken, and a byte is left. */
  method OneByteFree(hash: seq<byte> -> nat) returns (src: seq<byte>, written: nat, consumed: int)
    ensures |src| == 20 && consumed == 14 && written == 15
  {
    hide FilledUp, EncodeLiterals;
    src := seq(20, i => i);
    var dst := new byte[16];
    assert src[0..0 + 20] == src;
    written, consumed := CompressDestSize(hash, src, 0, 20, dst, 0, 16);
    FilledExactly(src, 16, dst[0..0 + written], consumed);
    LiteralsSize(src[..consumed]);
  }
}
