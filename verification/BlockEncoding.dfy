/**
 How sequences are written as bytes. A parse written this way decodes to the text it stands for,
 and takes little more room than that text.
 */
module BlockEncoding {
  import opened Bytes
  import opened BlockFormat

  /** One sequence: literals, then a match. */
  datatype Emitted = Emitted(literals: seq<byte>, offset: nat, length: nat)

  /** The optional bytes that add `n` to a length. */
  function Extension(n: nat): (r: seq<byte>)
    ensures |r| == n / 255 + 1
  {
    if n < 255 then [n] else [255] + Extension(n - 255)
  }

  function LengthBytes(n: nat): (r: seq<byte>)
    ensures |r| == if n < 15 then 0 else (n - 15) / 255 + 1
  {
    if n < 15 then [] else Extension(n - 15)
  }

  function Token(literals: nat, matchCode: nat): (b: byte) {
    16 * Min(literals, 15) + Min(matchCode, 15)
  }

  /** What stands in front of the offset. */
  function EncodeLiterals(literals: seq<byte>, matchCode: nat): (r: seq<byte>) {
    [Token(|literals|, matchCode)] + LengthBytes(|literals|) + literals
  }

  function Encode(q: Emitted): (r: seq<byte>)
    requires q.offset <= DISTANCE_MAX && MINMATCH <= q.length
  {
    EncodeLiterals(q.literals, q.length - MINMATCH) + [q.offset % 256, q.offset / 256] + LengthBytes(q.length - MINMATCH)
  }

  predicate Encodable(qs: seq<Emitted>) {
    forall q :: q in qs ==> 1 <= q.offset <= DISTANCE_MAX && MINMATCH <= q.length
  }

  function EncodeAll(qs: seq<Emitted>): (r: seq<byte>)
    requires Encodable(qs)
  {
    if qs == [] then [] else EncodeAll(qs[..|qs| - 1]) + Encode(qs[|qs| - 1])
  }

  /** A whole block: sequences, then the last literals. */
  function EncodeBlock(qs: seq<Emitted>, last: seq<byte>): (r: seq<byte>)
    requires Encodable(qs)
  {
    EncodeAll(qs) + EncodeLiterals(last, 0)
  }

  /** Each match refers to something that is there. */
  predicate Applicable(h: seq<byte>, qs: seq<Emitted>)
    requires Encodable(qs)
    decreases |qs|, 0
  {
    qs == [] ||
    (var front, q := qs[..|qs| - 1], qs[|qs| - 1];
     Applicable(h, front) && q.offset <= |Expand(h, front)| + |q.literals|)
  }

  /** The text that the sequences stand for, behind the history `h`. */
  function Expand(h: seq<byte>, qs: seq<Emitted>): (r: seq<byte>)
    requires Encodable(qs) && Applicable(h, qs)
    decreases |qs|, 1
  {
    if qs == [] then h
    else
      var front, q := qs[..|qs| - 1], qs[|qs| - 1];
      CopyMatch(Expand(h, front) + q.literals, q.offset, q.length)
  }

  // ----- Written sequences are read back -----

  lemma {:induction false} ExtensionRead(s: seq<byte>, i: nat, n: nat)
    requires i + |Extension(n)| <= |s| && s[i..i + |Extension(n)|] == Extension(n)
    ensures var j := RunEnd(s, i);
            j + 1 == i + |Extension(n)| && j < |s| && 255 * (j - i) + s[j] == n
    decreases n
  {
    assert s[i] == s[i..i + |Extension(n)|][0];
    if n >= 255 {
      assert s[i + 1..i + 1 + |Extension(n - 255)|] == s[i..i + |Extension(n)|][1..];
      ExtensionRead(s, i + 1, n - 255);
    }
  }

  lemma LengthRead(s: seq<byte>, i: nat, n: nat)
    requires i + |LengthBytes(n)| <= |s| && s[i..i + |LengthBytes(n)|] == LengthBytes(n)
    requires n < U32_SIZE
    ensures ReadLength(s, Min(n, 15), i) == Length(n, i + |LengthBytes(n)|)
  {
    if n >= 15 { ExtensionRead(s, i, n - 15); }
  }

  /** Five parts written one after the other at `i` are found where they were written. */
  lemma PartsRead(s: seq<byte>, i: nat, e: seq<byte>, p0: seq<byte>, p1: seq<byte>, p2: seq<byte>, p3: seq<byte>, p4: seq<byte>)
    requires e == p0 + p1 + p2 + p3 + p4 && i + |e| <= |s| && s[i..i + |e|] == e
    ensures var a := i + |p0|;
            var b := a + |p1|;
            var c := b + |p2|;
            var d := c + |p3|;
            && s[i..a] == p0 && s[a..b] == p1 && s[b..c] == p2 && s[c..d] == p3 && s[d..i + |e|] == p4
            && i + |e| == d + |p4|
  {
    var a := |p0|;
    var b := a + |p1|;
    var c := b + |p2|;
    var d := c + |p3|;
    assert e[..a] == p0 && e[a..b] == p1 && e[b..c] == p2 && e[c..d] == p3 && e[d..] == p4;
    forall k | 0 <= k < |e| ensures s[i + k] == e[k] { assert s[i + k] == s[i..i + |e|][k]; }
    assert s[i..i + a] == e[..a] && s[i + a..i + b] == e[a..b] && s[i + b..i + c] == e[b..c];
    assert s[i + c..i + d] == e[c..d] && s[i + d..i + |e|] == e[d..];
  }

  /** A sequence is what its token and its two length fields say. */
  lemma FieldsRead(s: seq<byte>, i: nat, n: nat, a: nat, code: nat, next: nat)
    requires i < |s| && s[i] == Token(n, code) && a + n + 2 <= |s|
    requires ReadLength(s, Min(n, 15), i + 1) == Length(n, a)
    requires ReadLength(s, Min(code, 15), a + n + 2) == Length(code, next)
    ensures ReadSequence(s, i) == Match(a, a + n, Le16(s, a + n), code + MINMATCH, next)
  {
    hide ReadLength;
    assert s[i] / 16 == Min(n, 15) && s[i] % 16 == Min(code, 15);
  }

  /** Where the fields of a written sequence stand. */
  lemma SequenceLayout(s: seq<byte>, i: nat, q: Emitted)
    requires q.offset <= DISTANCE_MAX && MINMATCH <= q.length
    requires i + |Encode(q)| <= |s| && s[i..i + |Encode(q)|] == Encode(q)
    ensures var n, code := |q.literals|, q.length - MINMATCH;
            var a := i + 1 + |LengthBytes(n)|;
            var b := a + n;
            var next := b + 2 + |LengthBytes(code)|;
            && next == i + |Encode(q)| && s[i] == Token(n, code) && s[i + 1..a] == LengthBytes(n)
            && s[a..b] == q.literals && Le16(s, b) == q.offset && s[b + 2..next] == LengthBytes(code)
  {
    hide LengthBytes, Encode, EncodeLiterals, Token;
    var n, code := |q.literals|, q.length - MINMATCH;
    var p0, p3 := [Token(n, code)], [q.offset % 256, q.offset / 256];
    EncodeParts(q);
    PartsRead(s, i, Encode(q), p0, LengthBytes(n), q.literals, p3, LengthBytes(code));
    var b := i + 1 + |LengthBytes(n)| + n;
    assert s[i] == s[i..i + 1][0];
    assert s[b] == s[b..b + 2][0] == p3[0];
    assert s[b + 1] == s[b..b + 2][1] == p3[1];
  }

  lemma EncodeParts(q: Emitted)
    requires q.offset <= DISTANCE_MAX && MINMATCH <= q.length
    ensures var n, code := |q.literals|, q.length - MINMATCH;
            Encode(q) == [Token(n, code)] + LengthBytes(n) + q.literals + [q.offset % 256, q.offset / 256] + LengthBytes(code)
  {
  }

  lemma SequenceRead(s: seq<byte>, i: nat, q: Emitted)
    requires 1 <= q.offset <= DISTANCE_MAX && MINMATCH <= q.length < U32_SIZE && |q.literals| < U32_SIZE
    requires i + |Encode(q)| <= |s| && s[i..i + |Encode(q)|] == Encode(q)
    ensures ReadSequence(s, i).Match?
    ensures var r := ReadSequence(s, i);
            && s[r.litStart..r.litEnd] == q.literals && r.offset == q.offset && r.length == q.length
            && r.next == i + |Encode(q)|
  {
    hide ReadLength, ReadSequence, Encode, LengthBytes;
    SequenceLayout(s, i, q);
    var n, code := |q.literals|, q.length - MINMATCH;
    var a := i + 1 + |LengthBytes(n)|;
    LengthRead(s, i + 1, n);
    LengthRead(s, a + n + 2, code);
    FieldsRead(s, i, n, a, code, i + |Encode(q)|);
  }

  lemma LastRead(s: seq<byte>, i: nat, last: seq<byte>)
    requires |last| < U32_SIZE && i <= |s| && s[i..] == EncodeLiterals(last, 0)
    ensures ReadSequence(s, i) == Last(|s| - |last|, |s|) && s[|s| - |last|..] == last
  {
    LastLayout(s, i, last);
    LengthRead(s, i + 1, |last|);
    hide ReadLength, LengthBytes, EncodeLiterals;
  }

  lemma LastLayout(s: seq<byte>, i: nat, last: seq<byte>)
    requires i <= |s| && s[i..] == EncodeLiterals(last, 0)
    ensures var a := i + 1 + |LengthBytes(|last|)|;
            && a + |last| == |s| && s[i] == Token(|last|, 0)
            && s[i + 1..a] == LengthBytes(|last|) && s[a..] == last
  {
    hide EncodeLiterals, LengthBytes, Token;
    var e := EncodeLiterals(last, 0);
    LastParts(last);
    assert s[i..i + |e|] == e;
    PartsRead(s, i, e, [Token(|last|, 0)], LengthBytes(|last|), last, [], []);
    assert s[i] == s[i..i + 1][0];
  }

  lemma LastParts(last: seq<byte>)
    ensures EncodeLiterals(last, 0) == [Token(|last|, 0)] + LengthBytes(|last|) + last + [] + []
  {
    assert [Token(|last|, 0)] + LengthBytes(|last|) + last + [] + [] == [Token(|last|, 0)] + LengthBytes(|last|) + last;
  }

  lemma {:induction false} EncodePrefix(qs: seq<Emitted>, k: nat)
    requires Encodable(qs) && k <= |qs|
    ensures Encodable(qs[..k]) && |EncodeAll(qs[..k])| <= |EncodeAll(qs)|
    ensures EncodeAll(qs)[..|EncodeAll(qs[..k])|] == EncodeAll(qs[..k])
    decreases |qs|
  {
    if k == |qs| {
      assert qs[..k] == qs;
    } else {
      var front := qs[..|qs| - 1];
      EncodePrefix(front, k);
      assert front[..k] == qs[..k];
      assert EncodeAll(qs)[..|EncodeAll(qs[..k])|] == EncodeAll(front)[..|EncodeAll(qs[..k])|];
    }
  }

  /** Every length is one that a 32-bit counter holds. */
  predicate Small(qs: seq<Emitted>) {
    forall q :: q in qs ==> |q.literals| < U32_SIZE && q.length < U32_SIZE
  }

  lemma DecodeStep(s: seq<byte>, i: nat, h: seq<byte>)
    requires ReadSequence(s, i).Match?
    requires var q := ReadSequence(s, i); 1 <= q.offset <= |h| + (q.litEnd - q.litStart)
    ensures var q := ReadSequence(s, i);
            Decode(s, i, h) == Decode(s, q.next, CopyMatch(h + s[q.litStart..q.litEnd], q.offset, q.length))
  {
    hide ReadSequence, CopyMatch;
  }

  /** Reading `qs` from the front of a block leaves the rest of it to be decoded. */
  lemma {:induction false} DecodeAll(s: seq<byte>, h: seq<byte>, qs: seq<Emitted>)
    requires Encodable(qs) && Applicable(h, qs) && Small(qs)
    requires EncodeAll(qs) <= s
    ensures Decode(s, 0, h) == Decode(s, |EncodeAll(qs)|, Expand(h, qs))
    decreases |qs|
  {
    hide Decode, ReadSequence, Encode, CopyMatch;
    if qs != [] {
      var front, q := qs[..|qs| - 1], qs[|qs| - 1];
      var i, n := |EncodeAll(front)|, |EncodeAll(qs)|;
      assert EncodeAll(front) == EncodeAll(qs)[..i] == s[..n][..i];
      DecodeAll(s, h, front);
      assert s[i..n] == s[..n][i..n] == EncodeAll(qs)[i..] == Encode(q);
      SequenceRead(s, i, q);
      DecodeStep(s, i, Expand(h, front));
    }
  }

  /** Sequences and last literals, as the end-of-block restrictions want them. */
  predicate WellEnded(qs: seq<Emitted>, last: seq<byte>) {
    qs != [] ==> LASTLITERALS <= |last| && MFLIMIT <= qs[|qs| - 1].length + |last|
  }

  /** The `k`-th sequence of a block, and where it stands. */
  lemma SequenceOfBlock(s: seq<byte>, qs: seq<Emitted>, last: seq<byte>, k: nat)
    requires Encodable(qs) && k < |qs| && s == EncodeBlock(qs, last)
    ensures Encodable(qs[..k]) && Encodable(qs[..k + 1])
    ensures var i, n := |EncodeAll(qs[..k])|, |EncodeAll(qs[..k + 1])|;
            n == i + |Encode(qs[k])| && n <= |s| && s[i..n] == Encode(qs[k])
  {
    EncodePrefix(qs, k + 1);
    assert qs[..k + 1][..k] == qs[..k];
    var i, n := |EncodeAll(qs[..k])|, |EncodeAll(qs[..k + 1])|;
    assert EncodeAll(qs[..k + 1]) == EncodeAll(qs[..k]) + Encode(qs[k]);
    assert s[..n] == EncodeAll(qs)[..n];
    assert s[i..n] == s[..n][i..n];
  }

  lemma EndConditionsStep(s: seq<byte>, i: nat)
    requires var q := ReadSequence(s, i);
             && q.Match? && EndConditions(s, q.next)
             && LASTLITERALS <= OutputSize(s, q.next) && MFLIMIT <= q.length + OutputSize(s, q.next)
    ensures EndConditions(s, i) && OutputSize(s, i) >= MFLIMIT && OutputSize(s, i) >= OutputSize(s, ReadSequence(s, i).next)
  {
    hide ReadSequence;
  }

  lemma EndConditionsLast(s: seq<byte>, i: nat, last: seq<byte>)
    requires |last| < U32_SIZE && i <= |s| && s[i..] == EncodeLiterals(last, 0)
    ensures EndConditions(s, i) && OutputSize(s, i) == |last|
  {
    hide ReadSequence, EncodeLiterals;
    LastRead(s, i, last);
  }

  /** From the `k`-th sequence on, the block meets the end conditions. */
  lemma {:induction false} EndConditionsFrom(s: seq<byte>, qs: seq<Emitted>, last: seq<byte>, k: nat)
    requires Encodable(qs) && Small(qs) && |last| < U32_SIZE && k <= |qs|
    requires s == EncodeBlock(qs, last) && WellEnded(qs, last)
    ensures Encodable(qs[..k])
    ensures var i := |EncodeAll(qs[..k])|;
            EndConditions(s, i) && OutputSize(s, i) >= |last| && (k < |qs| ==> OutputSize(s, i) >= MFLIMIT)
    decreases |qs| - k
  {
    hide EndConditions, OutputSize, ReadSequence, EncodeLiterals, Encode;
    if k == |qs| {
      assert qs[..k] == qs && s[|EncodeAll(qs)|..] == EncodeLiterals(last, 0);
      EndConditionsLast(s, |EncodeAll(qs)|, last);
    } else {
      hide EncodeAll, EncodeBlock;
      SequenceOfBlock(s, qs, last, k);
      SequenceRead(s, |EncodeAll(qs[..k])|, qs[k]);
      EndConditionsFrom(s, qs, last, k + 1);
      EndConditionsStep(s, |EncodeAll(qs[..k])|);
    }
  }

  /** A block decodes to the text that its parse stands for, and a conforming decoder has to accept it. */
  lemma BlockRoundTrip(h: seq<byte>, qs: seq<Emitted>, last: seq<byte>)
    requires Encodable(qs) && Applicable(h, qs) && Small(qs) && |last| < U32_SIZE
    ensures Decode(EncodeBlock(qs, last), 0, h) == Output(Expand(h, qs) + last)
    ensures WellEnded(qs, last) ==> EndConditions(EncodeBlock(qs, last), 0)
  {
    hide EncodeAll, ReadSequence, EncodeLiterals, Expand, EndConditions, WellEnded, Applicable;
    var s := EncodeBlock(qs, last);
    var i := |EncodeAll(qs)|;
    assert s[..i] == EncodeAll(qs) && s[i..] == EncodeLiterals(last, 0);
    DecodeAll(s, h, qs);
    LastRead(s, i, last);
    if WellEnded(qs, last) {
      EndConditionsFrom(s, qs, last, 0);
      EmptyParse(qs);
    }
  }

  lemma EmptyParse(qs: seq<Emitted>)
    ensures qs[..0] == [] && Encodable(qs[..0]) && EncodeAll(qs[..0]) == []
  {
  }

  // ----- How much room a parse takes -----

  lemma {:induction false} ExpandSize(h: seq<byte>, qs: seq<Emitted>)
    requires Encodable(qs) && Applicable(h, qs)
    ensures |h| <= |Expand(h, qs)| && 255 * |EncodeAll(qs)| <= 256 * (|Expand(h, qs)| - |h|)
    decreases |qs|
  {
    if qs != [] {
      var front, q := qs[..|qs| - 1], qs[|qs| - 1];
      ExpandSize(h, front);
      assert |Expand(h, qs)| == |Expand(h, front)| + |q.literals| + q.length;
      assert 255 * |LengthBytes(|q.literals|)| <= |q.literals| + 240;
    }
  }

  /** LZ4_COMPRESSBOUND, for sizes that are supported. */
  function CompressBound(n: nat): (r: nat) { n + n / 255 + 16 }

  /** No parse of `n` bytes takes more than LZ4_compressBound(n). */
  lemma BlockSizeBound(h: seq<byte>, qs: seq<Emitted>, last: seq<byte>)
    requires Encodable(qs) && Applicable(h, qs)
    ensures |h| <= |Expand(h, qs)| && |EncodeBlock(qs, last)| <= CompressBound(|Expand(h, qs)| - |h| + |last|)
  {
    ExpandSize(h, qs);
    assert 255 * |LengthBytes(|last|)| <= |last| + 240;
  }
}
