/**
 LZ4HC_compress_hashChain: the parser of the high-compression levels up to 9. It looks for better matches
 before it commits itself, with up to three of them in hand that may overlap. Whatever the search finds,
 each sequence that is written is a genuine match of at least the minimal length, and the block stands
 for the input.
 */
module HcParser {
  import opened Bytes
  import opened BlockFormat
  import opened BlockEncoding
  import opened SequenceWriter
  import opened HcChains
  import opened HcSearch
  import opened HcMatchFinder
  import MatchFinder
  import BlockCompressor
  import EqualBytes

  const OPTIMAL_ML := ML_MASK - 1 + MINMATCH

  /** A match: the `len` bytes at the index `start` repeat those at `ref`. */
  datatype Repeat = Repeat(start: int, ref: int, len: int)
  {
    function End(): int { start + len }

    /** Without its first `n` bytes. */
    function Later(n: int): Repeat { Repeat(start + n, ref + n, len - n) }

    /** Genuine, long enough, and far enough from the end of the input. */
    ghost predicate Writable(v: Space) {
      && v.Valid() && MINMATCH <= len && start + MFLIMIT <= v.end && End() + LASTLITERALS <= v.end && v.Repeats(ref, start, len)
    }
  }

  lemma LaterWritable(v: Space, m: Repeat, n: nat)
    requires m.Writable(v) == true && n + MINMATCH <= m.len && m.start + n + MFLIMIT <= v.end
    ensures m.Later(n).Writable(v) == true && m.Later(n).End() == m.End() && m.Later(n).start == m.start + n && m.Later(n).len == m.len - n
  {
    RepeatsInside(v, m.ref, m.start, m.len, n, m.len - n);
  }

  lemma ShorterWritable(v: Space, m: Repeat, n: nat)
    requires m.Writable(v) == true && MINMATCH <= n <= m.len
    ensures m.(len := n).Writable(v) == true && m.(len := n).End() == m.start + n
  {
    RepeatsInside(v, m.ref, m.start, m.len, 0, n);
  }

  // ----- Writing -----

  /** The text in front of the index `i`. */
  ghost function Front(v: Space, i: int): (t: seq<byte>)
    requires v.Valid() && v.lowLimit <= i <= v.end
    ensures |t| == i - v.lowLimit
  {
    Text(v)[..i - v.lowLimit]
  }

  /** `qs` stand for the input from `start` to `anchor` behind what is in front of it. */
  ghost predicate Covers(v: Space, start: int, qs: seq<Emitted>, anchor: int) {
    && v.Valid() && v.end < INDEX_LIMIT && 0 <= v.lowLimit && v.dictLimit <= start <= anchor <= v.end
    && Encodable(qs) && Small(qs) && Applicable(Front(v, start), qs) && Expand(Front(v, start), qs) == Front(v, anchor)
    && (qs != [] ==> anchor + LASTLITERALS <= v.end && anchor - qs[|qs| - 1].length + MFLIMIT <= v.end)
  }

  /** `d[dest..op]` is the encoding of `qs`. */
  ghost predicate Parsed(v: Space, start: int, w: Room, d: seq<byte>, op: int, qs: seq<Emitted>, anchor: int) {
    && w.n == v.end - start && w.Fits(|d|) && w.mode != FillOutput && w.dest <= op <= w.oend
    && Covers(v, start, qs, anchor) && d[w.dest..op] == EncodeAll(qs)
  }

  /** A block with the sequences `qs` is too long for the output. */
  ghost predicate Overflows(v: Space, start: int, w: Room, qs: seq<Emitted>, anchor: int) {
    && Covers(v, start, qs, anchor) && 0 <= v.base + anchor && v.base + v.end <= |v.mem|
    && w.oend - w.dest < |EncodeBlock(qs, v.mem[v.base + anchor..v.base + v.end])| && BlockCompressor.Cut(w.oend - w.dest, qs)
  }

  lemma ParsedNothing(v: Space, start: int, w: Room, d: seq<byte>)
    requires v.Valid() && v.end < INDEX_LIMIT && 0 <= v.lowLimit && v.dictLimit <= start <= v.end && w.n == v.end - start && w.Fits(|d|) && w.mode != FillOutput
    ensures Parsed(v, start, w, d, w.dest, [], start) == true
  {
  }

  lemma ParsedParts(v: Space, start: int, w: Room, d: seq<byte>, op: int, qs: seq<Emitted>, anchor: int)
    requires Parsed(v, start, w, d, op, qs, anchor) == true
    ensures v.Valid() && v.dictLimit <= start <= anchor <= v.end && w.n == v.end - start && w.Fits(|d|) && w.mode != FillOutput && w.dest <= op <= w.oend
    ensures 0 <= v.base + v.dictLimit && v.base + v.end <= |v.mem| && 0 <= w.dest <= w.oend <= |d| && Budget(w, op, anchor - start, 0)
    ensures w.mode == NotLimited ==> CompressBound(w.n) <= w.oend - w.dest
  {
    ExpandSize(Front(v, start), qs);
    hide Text;
  }

  /** In the prefix, the text is what is in memory. */
  lemma PrefixText(v: Space, a: int, b: int)
    requires v.Valid() && v.dictLimit <= a <= b <= v.end
    ensures Front(v, b) == Front(v, a) + v.mem[v.base + a..v.base + b]
  {
    hide Text;
    var s := v.mem[v.base + a..v.base + b];
    forall k | 0 <= k < |s| ensures Text(v)[a - v.lowLimit + k] == s[k] { TextAt(v, a + k); }
  }

  /** The sequence of a match, behind literals from `anchor` on. */
  function SequenceOf(v: Space, anchor: int, m: Repeat): Emitted
    requires 0 <= v.base + anchor && anchor <= m.start && v.base + m.start <= |v.mem| && m.ref <= m.start && 0 <= m.len
  {
    Emitted(v.mem[v.base + anchor..v.base + m.start], m.start - m.ref, m.len)
  }

  /** One more sequence. */
  lemma CoversMore(v: Space, start: int, qs: seq<Emitted>, anchor: int, m: Repeat)
    requires Covers(v, start, qs, anchor) == true && m.Writable(v) == true && anchor <= m.start
    requires 0 <= v.base + anchor && v.base + m.start <= |v.mem| && 1 <= m.start - m.ref <= DISTANCE_MAX
    ensures Covers(v, start, qs + [SequenceOf(v, anchor, m)], m.End()) == true
    ensures Encodable(qs) && Encodable(qs + [SequenceOf(v, anchor, m)]) && EncodeAll(qs + [SequenceOf(v, anchor, m)]) == EncodeAll(qs) + Encode(SequenceOf(v, anchor, m))
  {
    hide Text, Encode, EncodeAll, Expand, Applicable, Encodable, Small, CopyMatch, Decodes;
    var q := SequenceOf(v, anchor, m);
    PrefixText(v, anchor, m.start);
    MatchDecodes(v, m.ref, m.start, m.len);
    DecodesFront(v, m);
    BlockCompressor.AppendSequence(Front(v, start), qs, q);
  }

  /** One more sequence that has been written. */
  lemma ParsedMore(v: Space, start: int, w: Room, d: seq<byte>, op: int, qs: seq<Emitted>, anchor: int, m: Repeat, d': seq<byte>, op': int)
    requires Parsed(v, start, w, d, op, qs, anchor) == true && m.Writable(v) == true && anchor <= m.start
    requires |d'| == |d| && op <= op' <= w.oend && forall i :: w.dest <= i < op ==> d'[i] == d[i]
    requires 0 <= v.base + anchor && v.base + m.start <= |v.mem| && 1 <= m.start - m.ref <= DISTANCE_MAX
    requires d'[op..op'] == Encode(SequenceOf(v, anchor, m))
    ensures Parsed(v, start, w, d', op', qs + [SequenceOf(v, anchor, m)], m.End()) == true
  {
    hide Encode, EncodeAll, Repeat.Writable, Encodable, Covers, SequenceOf;
    CoversMore(v, start, qs, anchor, m);
    SameSlice(d', d, w.dest, op);
    SplitSlice(d', w.dest, op, op');
  }

  /** A sequence that does not fit. */
  lemma TooLong(v: Space, start: int, w: Room, d: seq<byte>, op: int, qs: seq<Emitted>, anchor: int, m: Repeat)
    requires Parsed(v, start, w, d, op, qs, anchor) == true && m.Writable(v) == true && anchor <= m.start
    requires 0 <= v.base + anchor && v.base + v.end <= |v.mem| && 1 <= m.start - m.ref <= DISTANCE_MAX && m.End() + LASTLITERALS <= v.end && MINMATCH <= m.len
    requires w.oend < op + |EncodeLiterals(v.mem[v.base + anchor..v.base + m.start], 0)| + 2 + |LengthBytes(m.len - MINMATCH)| + 1 + LASTLITERALS
    ensures Overflows(v, start, w, qs + [SequenceOf(v, anchor, m)], m.End()) == true
  {
    hide Encode, EncodeAll, Repeat.Writable, Encodable, Covers, EncodeLiterals, LengthBytes;
    var q := SequenceOf(v, anchor, m);
    CoversMore(v, start, qs, anchor, m);
    BlockCompressor.SequenceSize(q);
    LiteralsSize(v.mem[v.base + m.End()..v.base + v.end]);
  }

  lemma DecodesFront(v: Space, m: Repeat)
    requires m.Writable(v) == true && v.Valid() && Decodes(Text(v), m.start - v.lowLimit, m.start - m.ref, m.len)
    ensures v.lowLimit <= m.ref < m.start <= v.end && m.start - m.ref <= m.start - v.lowLimit
    ensures CopyMatch(Front(v, m.start), m.start - m.ref, m.len) == Front(v, m.End())
  {
    hide Text, CopyMatch;
  }

  /** The optional bytes of a match length, written two at a time. */
  method WritePairs(dst: array<byte>, op0: int, n: nat) returns (op: int)
    requires 0 <= op0 && op0 + |Extension(n)| <= dst.Length
    modifies dst
    ensures op == op0 + |Extension(n)| && dst[op0..op] == Extension(n)
    ensures forall i :: 0 <= i < dst.Length && !(op0 <= i < op) ==> dst[i] == old(dst[i])
  {
    op := op0;
    var length := n;
    while length >= 510
      invariant op0 <= op && 0 <= length && op + length / 255 == op0 + n / 255 && length % 255 == n % 255
      invariant forall i :: op0 <= i < op ==> dst[i] == 255
      invariant forall i :: 0 <= i < dst.Length && !(op0 <= i < op) ==> dst[i] == old(dst[i])
    {
      dst[op], dst[op + 1] := 255, 255;
      op, length := op + 2, length - 510;
    }
    if length >= 255 {
      dst[op] := 255;
      op, length := op + 1, length - 255;
    }
    dst[op] := length;
    op := op + 1;
    forall k | 0 <= k < |Extension(n)| ensures dst[op0 + k] == Extension(n)[k] { ExtensionAt(n, k); }
    assert dst[op0..op] == Extension(n);
  }

  /** Offset and match length, behind the literals. */
  method PutRepeat(dst: array<byte>, token: int, op0: int, offset: nat, matchCode: nat, ghost literals: seq<byte>) returns (op: int)
    requires 0 <= token < op0 && op0 + 2 + |LengthBytes(matchCode)| <= dst.Length && 1 <= offset <= DISTANCE_MAX
    requires dst[token..op0] == EncodeLiterals(literals, 0)
    modifies dst
    ensures op == op0 + 2 + |LengthBytes(matchCode)|
    ensures dst[token..op] == Encode(Emitted(literals, offset, matchCode + MINMATCH))
    ensures forall i :: 0 <= i < dst.Length && !(token <= i < op) ==> dst[i] == old(dst[i])
  {
    hide Token, Encode;
    ghost var before := dst[..];
    assert dst[token] == dst[token..op0][0] == Token(|literals|, 0);
    dst[op0], dst[op0 + 1] := offset % 256, offset / 256;
    op := op0 + 2;
    TokenParts(|literals|, matchCode);
    if matchCode >= ML_MASK {
      dst[token] := dst[token] + ML_MASK;
      op := WritePairs(dst, op, matchCode - ML_MASK);
    } else {
      dst[token] := dst[token] + matchCode;
    }
    BlockCompressor.SequenceComplete(before, dst[..], token, op0, Emitted(literals, offset, matchCode + MINMATCH), op);
  }

  lemma TokenParts(n: nat, code: nat)
    ensures Token(n, code) == Token(n, 0) + Min(code, ML_MASK)
  {
  }

  /** There is room for the length of the match. */
  lemma RoomForLength(w: Room, op: int, consumed: int, code: nat)
    requires Budget(w, op, consumed, 1005) && 0 <= consumed && consumed + code + MINMATCH + LASTLITERALS <= w.n
    ensures if w.oend < op + code / 255 + (1 + LASTLITERALS) then w.oend - w.dest < CompressBound(w.n) else op + |LengthBytes(code)| <= w.oend
  {
  }

  lemma CodeSize(code: nat)
    ensures code / 255 <= |LengthBytes(code)|
  {
  }

  lemma ParsedCovers(v: Space, start: int, w: Room, d: seq<byte>, op: int, qs: seq<Emitted>, anchor: int)
    requires Parsed(v, start, w, d, op, qs, anchor) == true
    ensures Covers(v, start, qs, anchor) == true
  {
  }

  /** One more sequence, with the numbers of the match `m`. */
  predicate AddsFor(qs': seq<Emitted>, qs: seq<Emitted>, anchor: int, m: Repeat) {
    |qs'| == |qs| + 1 && qs'[..|qs|] == qs && |qs'[|qs|].literals| == m.start - anchor && qs'[|qs|].offset == m.start - m.ref && qs'[|qs|].length == m.len
  }

  lemma SequenceIs(v: Space, anchor: int, m: Repeat)
    requires 0 <= v.base + anchor && anchor <= m.start && v.base + m.start <= |v.mem| && m.ref <= m.start && 0 <= m.len
    ensures SequenceOf(v, anchor, m) == Emitted(v.mem[v.base + anchor..v.base + m.start], m.start - m.ref, m.len)
    ensures forall qs: seq<Emitted> :: AddsFor(qs + [SequenceOf(v, anchor, m)], qs, anchor, m)
  {
  }

  /** LZ4HC_encodeSequence. */
  method EncodeSequence(v: Space, start: int, w: Room, dst: array<byte>, op0: int, anchor: int, m: Repeat, ghost qs: seq<Emitted>)
    returns (ok: bool, op: int, ghost qs': seq<Emitted>)
    requires Parsed(v, start, w, dst[..], op0, qs, anchor) == true && m.Writable(v) == true && anchor <= m.start
    modifies dst
    ensures forall i :: 0 <= i < dst.Length && !(w.dest <= i < w.oend) ==> dst[i] == old(dst[i])
    ensures !ok ==> w.mode == LimitedOutput && w.oend - w.dest < CompressBound(w.n) && Overflows(v, start, w, qs', m.End()) == true
    ensures ok ==> Parsed(v, start, w, dst[..], op, qs', m.End()) == true
    ensures Attentive(v, start, qs, anchor) == true && Prompt(v, anchor, m.start, qs == [], Rested(v, qs, anchor)) == true ==> Attentive(v, start, qs', m.End()) == true
    ensures AddsFor(qs', qs, anchor, m) && qs' != []
  {
    hide *;
    ghost var before := dst[..];
    ParsedParts(v, start, w, before, op0, qs, anchor);
    RepeatParts(v, m, w, anchor, start);
    SequenceIs(v, anchor, m);
    ParsedCovers(v, start, w, before, op0, qs, anchor);
    CoversMore(v, start, qs, anchor, m);
    if Attentive(v, start, qs, anchor) == true && Prompt(v, anchor, m.start, qs == [], Rested(v, qs, anchor)) == true { AttentiveMore(v, start, qs, anchor, m); }
    var outcome;
    qs' := qs + [SequenceOf(v, anchor, m)];
    outcome, op := WriteLiterals(w, dst, op0, v.mem, v.base + anchor, v.base + m.start, v.base + start);
    var code := m.len - MINMATCH;
    CodeSize(code);
    if outcome.NoRoom? {
      TooLong(v, start, w, before, op0, qs, anchor, m);
      return false, op, qs';
    }
    BlockCompressor.NotEmpty(v.mem[v.base + anchor..v.base + m.start]);
    BlockCompressor.MoreBudget(w, op, m.start - start);
    RoomForLength(w, op + 2, m.start - start, code);
    if w.mode == LimitedOutput && op + 2 + code / 255 + (1 + LASTLITERALS) > w.oend {
      TooLong(v, start, w, before, op0, qs, anchor, m);
      return false, op, qs';
    }
    ok := true;
    op := PutRepeat(dst, op0, op, m.start - m.ref, code, v.mem[v.base + anchor..v.base + m.start]);
    ParsedMore(v, start, w, before, op0, qs, anchor, m, dst[..], op);
  }

  lemma RepeatParts(v: Space, m: Repeat, w: Room, anchor: int, start: int)
    requires m.Writable(v) == true && anchor <= m.start && start <= anchor && w.n == v.end - start
    ensures MINMATCH <= m.len && m.start + MFLIMIT <= v.end && m.End() == m.start + m.len && m.End() + LASTLITERALS <= v.end
    ensures 1 <= m.start - m.ref <= DISTANCE_MAX && MINMATCH == 4 && m.start <= v.end
    ensures m.start - start + (m.len - MINMATCH) + MINMATCH + LASTLITERALS <= w.n
  {
  }

  // ----- The parser between two steps -----

  /**
   At `ip` without a match; or with the match `m`, for which a longer one is looked for, and the first one
   that was found; or with two matches, of which the second is longer.
   */
  datatype Lazy = Next(ip: int) | Second(m: Repeat, first: Repeat) | Third(m: Repeat, m2: Repeat)
  {
    /** How far the search has come. */
    function Top(): int {
      match this
      case Next(ip) => ip
      case Second(m, _) => m.End()
      case Third(_, m2) => m2.End()
    }
  }

  /** All matches in hand can be written; they begin behind `anchor`, and positions up to `next` are in the table. */
  ghost predicate Going(v: Space, anchor: int, next: int, st: Lazy) {
    && v.Valid() && v.dictLimit <= anchor
    && match st
       case Next(ip) => anchor <= ip <= v.end && next <= ip
       case Second(m, first) =>
         && m.Writable(v) && first.Writable(v) && anchor <= first.start <= m.start <= first.start + 2 && next <= m.End() - 2
         && first.len <= m.len && (first.start < m.start ==> first.len < m.len)
       case Third(m, m2) =>
         && m.Writable(v) && m2.Writable(v) && anchor <= m.start <= m2.start <= m.End() + 1 && next <= m2.End() - 3
         && (m.start + 4 <= m2.start || m.start + 8 <= m2.End()) && (m.End() < m2.start ==> 6 <= m2.len) && m.End() + MFLIMIT <= v.end
  }

  /** What a wider search from `p` may find instead of `m`. */
  ghost predicate Wider(v: Space, m: Repeat, p: int, m2: Repeat) {
    m2.Writable(v) && m.start <= m2.start <= p && p + MINMATCH <= m2.End() && m.len < m2.len
  }

  /** The first correction: the second match begins where the first one ends, or is a good length. */
  function Corrected(m: Repeat, m2: Repeat): (r: Repeat) {
    if m2.start - m.start < OPTIMAL_ML then
      var newLen := Min(m.len, OPTIMAL_ML);
      var newMl := if m.start + newLen > m2.End() - MINMATCH then m2.start - m.start + m2.len - MINMATCH else newLen;
      var correction := newMl - (m2.start - m.start);
      if correction > 0 then m2.Later(correction) else m2
    else
      m2
  }

  /** After the correction the first match can be cut where the second one begins. */
  ghost predicate Apart(v: Space, anchor: int, next: int, m: Repeat, m2: Repeat) {
    && v.Valid() && v.dictLimit <= anchor && m.Writable(v) && m2.Writable(v) && anchor <= m.start && next <= m2.End() - 3
    && m.start + MINMATCH <= m2.start <= m.End() + 1 && (m.End() < m2.start ==> 6 <= m2.len) && m.End() + MFLIMIT <= v.end
    && (m2.start - m.start < OPTIMAL_ML ==> m.End() <= m2.start || m.start + OPTIMAL_ML <= m2.start || m2.End() - MINMATCH <= m2.start)
  }

  lemma CorrectedApart(v: Space, anchor: int, next: int, m: Repeat, m2: Repeat)
    requires Going(v, anchor, next, Third(m, m2)) == true
    ensures Apart(v, anchor, next, m, Corrected(m, m2)) == true && Corrected(m, m2).End() == m2.End()
  {
    hide Space.Repeats, Space.Valid;
    var r := Corrected(m, m2);
    if r != m2 { LaterWritable(v, m2, r.start - m2.start); }
  }

  /** No third match: the first one is cut, and both are written. */
  function Cut(m: Repeat, m2: Repeat): Repeat { if m2.start < m.End() then m.(len := m2.start - m.start) else m }

  lemma CutWritable(v: Space, anchor: int, next: int, m: Repeat, m2: Repeat)
    requires Apart(v, anchor, next, m, m2) == true
    ensures Cut(m, m2).Writable(v) == true && anchor <= Cut(m, m2).start && Cut(m, m2).End() <= m2.start && m2.Writable(v) == true
    ensures Going(v, m2.End(), next, Next(m2.End())) == true
  {
    hide Space.Repeats, Space.Valid;
    if m2.start < m.End() { ShorterWritable(v, m, m2.start - m.start); }
  }

  /** The third match follows the first one too closely for the second: what remains of that may still be used instead of the third. */
  function Squeezed(m: Repeat, m2: Repeat, m3: Repeat): Repeat {
    if m2.start < m.End() then
      var r := m2.Later(m.End() - m2.start);
      if r.len < MINMATCH then m3 else r
    else
      m2
  }

  lemma SqueezedGoing(v: Space, anchor: int, next: int, m: Repeat, m2: Repeat, m3: Repeat)
    requires Apart(v, anchor, next, m, m2) == true && Wider(v, m2, m2.End() - 3, m3) == true && m.End() <= m3.start < m.End() + 3
    ensures m.Writable(v) == true && anchor <= m.start && Going(v, m.End(), m2.End() - 3, Second(m3, Squeezed(m, m2, m3))) == true
  {
    hide Space.Repeats, Space.Valid;
    var n := m.End() - m2.start;
    if 0 < n && MINMATCH <= m2.len - n { LaterWritable(v, m2, n); }
  }

  lemma ReplacedGoing(v: Space, anchor: int, next: int, m: Repeat, m2: Repeat, m3: Repeat)
    requires Apart(v, anchor, next, m, m2) == true && Wider(v, m2, m2.End() - 3, m3) == true && m3.start < m.End()
    ensures Going(v, anchor, m2.End() - 3, Third(m, m3)) == true
  {
    hide Space.Repeats, Space.Valid;
  }

  /** Three matches in a row: the first is cut to a good length, or to what is in front of the second, which may be cut in turn. */
  function Ascending(m: Repeat, m2: Repeat): (Repeat, Repeat) {
    if m2.start < m.End() then
      if m2.start - m.start < OPTIMAL_ML then
        var newLen := Min(m.len, OPTIMAL_ML);
        var ml := if m.start + newLen > m2.End() - MINMATCH then m2.start - m.start + m2.len - MINMATCH else newLen;
        var correction := ml - (m2.start - m.start);
        (m.(len := ml), if correction > 0 then m2.Later(correction) else m2)
      else
        (m.(len := m2.start - m.start), m2)
    else
      (m, m2)
  }

  lemma AscendingGoing(v: Space, anchor: int, next: int, m: Repeat, m2: Repeat, m3: Repeat)
    requires Apart(v, anchor, next, m, m2) == true && Wider(v, m2, m2.End() - 3, m3) == true && m.End() + 3 <= m3.start && m2.End() + MFLIMIT <= v.end
    ensures var (m1, second) := Ascending(m, m2);
            m1.Writable(v) == true && anchor <= m1.start && Going(v, m1.End(), m2.End() - 3, Third(second, m3)) == true
  {
    hide Space.Repeats, Space.Valid;
    if m2.start < m.End() { ShorterWritable(v, m, m2.start - m.start); }
  }

  /** A longer match has been found, which begins well behind the first one or takes its place. */
  function Restored(m: Repeat, first: Repeat, m2: Repeat): Repeat {
    if first.start < m.start && m2.start < m.start + first.len then first else m
  }

  // ----- What it may not miss -----

  /** No four bytes in reach are repeated at `p`. */
  ghost predicate NoMatch(v: Space, p: int) { v.Valid() && forall m: int :: v.Readable(m) ==> !v.Repeats(m, p, MINMATCH) }

  ghost predicate Quiet(v: Space, a: int, b: int) { forall p: int :: a <= p < b ==> NoMatch(v, p) }

  /** No match at `p` is longer than `len` bytes. */
  ghost predicate NoLonger(v: Space, p: int, len: int) { At(v, p).Longest(len) }

  /** A match of `len` bytes that ends at `end` is not given up for another: two or three bytes before, no longer one begins. */
  ghost predicate Settled(v: Space, end: int, len: int) { end + MFLIMIT <= v.end ==> NoLonger(v, end - 2, len) || NoLonger(v, end - 3, len) }

  /** The last match is such a one. */
  ghost predicate Rested(v: Space, qs: seq<Emitted>, anchor: int) { qs != [] ==> Settled(v, anchor, qs[|qs| - 1].length) }

  /**
   A sequence with literals from `anchor` to `s`: at most two of them where a match could have begun, and the match in front
   of them is settled. Otherwise it follows at most four bytes behind that match: the two overlapped, or a third one has
   left no room for the second.
   */
  ghost predicate Prompt(v: Space, anchor: int, s: int, first: bool, rested: bool) {
    (rested && Quiet(v, anchor, s - 2)) || (!first && s <= anchor + 4)
  }

  /** This holds for all sequences. */
  ghost predicate AllPrompt(v: Space, start: int, qs: seq<Emitted>)
    requires v.Valid() && v.lowLimit <= start <= v.end && Encodable(qs) && Applicable(Front(v, start), qs)
    decreases |qs|
  {
    qs == [] ||
    (var front, q := qs[..|qs| - 1], qs[|qs| - 1];
     var anchor := v.lowLimit + |Expand(Front(v, start), front)|;
     AllPrompt(v, start, front) && Prompt(v, anchor, anchor + |q.literals|, front == [], Rested(v, front, anchor)))
  }

  /** A parse that has missed nothing. */
  ghost predicate Attentive(v: Space, start: int, qs: seq<Emitted>, anchor: int) { Covers(v, start, qs, anchor) && AllPrompt(v, start, qs) }

  /** And between two steps. */
  ghost predicate Watching(v: Space, anchor: int, st: Lazy, first: bool, rested: bool) {
    match st
    case Next(ip) => rested && Quiet(v, anchor, ip)
    case Second(_, m1) => (rested && Quiet(v, anchor, m1.start)) || (!first && m1.start <= anchor + 2)
    case Third(m, _) => Prompt(v, anchor, m.start, first, rested)
  }

  lemma AttentiveNothing(v: Space, start: int)
    requires Covers(v, start, [], start) == true
    ensures Attentive(v, start, [], start) == true && Watching(v, start, Next(start), true, true) == true && Rested(v, [], start)
  {
  }

  lemma AttentiveMore(v: Space, start: int, qs: seq<Emitted>, anchor: int, m: Repeat)
    requires Attentive(v, start, qs, anchor) == true && Prompt(v, anchor, m.start, qs == [], Rested(v, qs, anchor)) == true
    requires 0 <= v.base + anchor && anchor <= m.start && v.base + m.start <= |v.mem| && m.ref <= m.start && 0 <= m.len
    requires Covers(v, start, qs + [SequenceOf(v, anchor, m)], m.End()) == true
    ensures Attentive(v, start, qs + [SequenceOf(v, anchor, m)], m.End()) == true
  {
    hide Text, Front, Prompt, Rested, Expand, Applicable, Encodable, Small;
    assert (qs + [SequenceOf(v, anchor, m)])[..|qs|] == qs;
  }

  /** The search at `ip`, for any match. */
  function At(v: Space, ip: int): Search { Search(v, ip, ip, v.end - LASTLITERALS, MINMATCH - 1, false, false) }

  /** What a search that has tried everything says. */
  ghost predicate Exhausted(v: Space, ip: int, st: Lazy) {
    match st
    case Next(_) => NoMatch(v, ip)
    case Second(m, _) => At(v, ip).Longest(m.len)
    case Third(_, _) => false
  }

  /** The position of a match that was found after a quiet stretch. */
  lemma WatchFirst(v: Space, anchor: int, ip: int, st: Lazy, first: bool, rested: bool)
    requires Watching(v, anchor, Next(ip), first, rested) == true && Exhausted(v, ip, st) == true && (st == Next(ip + 1) || (st.Second? && st.m == st.first && st.m.start == ip))
    ensures Watching(v, anchor, st, first, rested) == true
  {
    hide NoMatch;
  }

  lemma WatchSecond(v: Space, anchor: int, next: int, m: Repeat, m1: Repeat, m2: Repeat, first: bool, rested: bool)
    requires Going(v, anchor, next, Second(m, m1)) == true && Watching(v, anchor, Second(m, m1), first, rested) == true
    ensures Prompt(v, anchor, m.start, first, rested) == true && Watching(v, m.End(), Next(m.End()), false, true) == true
    ensures Watching(v, anchor, Second(m2, m1), first, rested) == true && Watching(v, anchor, Third(Restored(m, m1, m2), m2), first, rested) == true
  {
    hide NoMatch;
  }

  /** What follows a match that ends where the next sequence begins, or one byte before. */
  lemma WatchBehind(v: Space, anchor: int, m: Repeat, m2: Repeat, rested: bool)
    requires m.start <= anchor + 1
    ensures Prompt(v, anchor, m.start, false, rested) == true && Watching(v, anchor, Third(m, m2), false, rested) == true && Watching(v, m2.End(), Next(m2.End()), false, true) == true
  {
  }

  lemma WatchThird(v: Space, anchor: int, next: int, m: Repeat, m2: Repeat, m3: Repeat, first: bool, rested: bool)
    requires Apart(v, anchor, next, m, m2) == true && Prompt(v, anchor, m.start, first, rested) == true
    ensures Cut(m, m2).start == m.start && m2.start <= Cut(m, m2).End() + 1
    ensures Ascending(m, m2).0.start == m.start && Ascending(m, m2).1.start <= Ascending(m, m2).0.End() + 1
    ensures m.End() <= m3.start < m.End() + 3 ==> forall r :: Watching(v, m.End(), Second(m3, Squeezed(m, m2, m3)), false, r) == true
    ensures Watching(v, anchor, Third(m, m3), first, rested) == true
  {
    hide NoMatch, Space.Repeats, Space.Valid;
  }

  /** A search in front of the end of a match, for a longer one, has found nothing. */
  lemma IsRested(v: Space, qs: seq<Emitted>, qs0: seq<Emitted>, anchor: int, m: Repeat, p: int)
    requires AddsFor(qs, qs0, anchor, m) && (m.End() + MFLIMIT <= v.end ==> NoLonger(v, p, m.len) == true && p in {m.End() - 2, m.End() - 3})
    ensures Rested(v, qs, m.End()) == true
  {
    hide NoLonger;
  }

  // ----- Equal bytes -----

  /** The space holds an input of equal bytes, and nothing in front of it. */
  ghost predicate Uniform(v: Space, start: int) {
    v.Valid() && v.lowLimit == v.dictLimit == start && start + MatchFinder.MIN_LENGTH <= v.end && v.Runs(v.At(start), start, v.end)
  }

  /** The match at its second byte. */
  function WholeRun(v: Space, start: int): Repeat { Repeat(start + 1, start, v.end - LASTLITERALS - (start + 1)) }

  /** The sequence of that match. */
  predicate OneRun(v: Space, start: int, qs: seq<Emitted>) {
    |qs| == 1 && |qs[0].literals| == 1 && qs[0].offset == 1 && qs[0].length == v.end - LASTLITERALS - (start + 1)
  }

  /** How the search goes for such an input. */
  ghost predicate Unrolling(v: Space, start: int, qs: seq<Emitted>, anchor: int, st: Lazy) {
    || (qs == [] && anchor == start && (st == Next(start) || st == Next(start + 1) || st == Second(WholeRun(v, start), WholeRun(v, start))))
    || (OneRun(v, start, qs) && anchor == v.end - LASTLITERALS && st == Next(anchor))
  }

  lemma UnrollingStarts(v: Space, start: int)
    ensures Unrolling(v, start, [], start, Next(start)) == true
  {
  }

  lemma RunFits(v: Space, start: int)
    requires Uniform(v, start) == true
    ensures v.Valid() && v.Readable(start) && v.Repeats(start, start + 1, MINMATCH) && At(v, start + 1).Fits(start, v.end - LASTLITERALS - (start + 1)) == true
  {
    RunsRepeat(v, v.At(start), start, start + 1, v.end - LASTLITERALS - (start + 1));
    RepeatsInside(v, start, start + 1, v.end - LASTLITERALS - (start + 1), 0, MINMATCH);
  }

  lemma RunFound(v: Space, start: int, qs: seq<Emitted>, anchor: int, next: int, ip: int, st: Lazy)
    requires Uniform(v, start) == true && Unrolling(v, start, qs, anchor, Next(ip)) == true && ip + MFLIMIT <= v.end && Going(v, anchor, next, st) == true
    requires st == Next(ip + 1) || (st.Second? && st.m == st.first && st.m.start == ip)
    requires ip == start + 1 ==> Exhausted(v, ip, st) == true
    ensures Unrolling(v, start, qs, anchor, st) == true
  {
    RunFits(v, start);
    if ip == start + 1 {
      LongestRun(v, start, st);
    }
  }

  lemma RepeatsBehind(v: Space, m: Repeat)
    requires m.Writable(v) == true
    ensures v.lowLimit <= m.ref < m.start
  {
  }

  lemma LongestRun(v: Space, start: int, st: Lazy)
    requires v.Valid() && v.lowLimit == start && v.Readable(start) && v.Repeats(start, start + 1, MINMATCH) && At(v, start + 1).Fits(start, v.end - LASTLITERALS - (start + 1)) == true
    requires Exhausted(v, start + 1, st) == true && (st.Second? ==> st.m.Writable(v) == true && st.m == st.first && st.m.start == start + 1)
    ensures st == Second(WholeRun(v, start), WholeRun(v, start))
  {
    hide Search.Fits;
    if st.Second? { RepeatsBehind(v, st.m); }
  }

  /** A block for such an input. */
  lemma RunBound(v: Space, start: int, room: int, answer: seq<byte>, attentive: bool, qs: seq<Emitted>, anchor: int)
    requires FromLazy(v, start, room, answer, attentive, qs, anchor) == true && OneRun(v, start, qs) && anchor == v.end - LASTLITERALS && start + MatchFinder.MIN_LENGTH <= v.end
    ensures |answer| <= EqualBytes.EqualBound(v.end - start) && (EqualBytes.EqualBound(v.end - start) <= room ==> answer != [])
  {
    hide Covers, AllPrompt, Quiet, Rested, EncodeAll, EncodeLiterals, Encode, EqualBytes.EqualBound;
    assert Covers(v, start, qs, anchor) == true;
    EqualBytes.OneSequence(qs[0], v.mem[v.base + anchor..v.base + v.end], v.end - start);
    assert qs == [qs[0]];
    BlockCompressor.NotEmpty(v.mem[v.base + anchor..v.base + v.end]);
  }

  // ----- Its steps -----

  lemma ContextParts(c: HcContext, mem: seq<byte>)
    requires c.Valid() == true
    ensures 0 <= 64 * KB <= c.lowLimit <= c.dictLimit && c.end < INDEX_LIMIT && c.View(mem) == Space(mem, c.base, c.dictBase, c.lowLimit, c.dictLimit, c.end)
  {
  }

  lemma QueryIs(c: HcContext, mem: seq<byte>, p: int, low: int, n: int)
    ensures c.Query(mem, p, low, c.end - LASTLITERALS, n, false, false) == Search(c.View(mem), p, low, c.end - LASTLITERALS, n, false, false)
    ensures c.View(mem).end == c.end && c.View(mem).dictLimit == c.dictLimit
  {
  }

  lemma SearchFor(v: Space, p: int, low: int, n: int)
    requires v.Valid() && 64 * KB <= v.lowLimit && v.end < INDEX_LIMIT && v.dictLimit <= low <= p && p - low < n && 1 <= n && low + n + LASTLITERALS <= v.end && p + MINMATCH + LASTLITERALS <= v.end
    ensures Search(v, p, low, v.end - LASTLITERALS, n, false, false).Valid() == true
  {
    hide Space.Valid;
  }

  /** A search that may begin in front of `p`, for a match that is longer than `m`. */
  method LookWider(c: HcContext, mem: seq<byte>, p: int, m: Repeat, maxNbAttempts: int) returns (wider: bool, m2: Repeat, ghost exhausted: bool)
    requires c.Valid() == true && m.Writable(c.View(mem)) == true && c.dictLimit <= m.start <= p < m.End() && m.End() + MFLIMIT <= c.end && c.nextToUpdate <= p
    modifies c`nextToUpdate, c.hashTable, c.chainTable
    ensures c.Valid() == true && c.nextToUpdate == p && (wider ==> Wider(c.View(mem), m, p, m2) == true)
    ensures exhausted && !wider ==> NoLonger(c.View(mem), p, m.len) == true
    ensures old(c.UpToDate(mem)) ==> c.UpToDate(mem) == true && (Enough(c.View(mem), p, maxNbAttempts) ==> exhausted)
  {
    hide *;
    ContextParts(c, mem);
    WiderSearch(c.View(mem), p, m);
    QueryIs(c, mem, p, m.start, m.len);
    var best, nbAttempts, readBehind := c.InsertAndGetWiderMatch(mem, p, m.start, c.end - LASTLITERALS, m.len, maxNbAttempts, maxNbAttempts > 128, false, false);
    wider, m2 := m.len < best.longest, Repeat(best.startpos, best.matchpos, best.longest);
    exhausted := old(c.UpToDate(mem)) && 0 < nbAttempts;
    WideReach(c.View(mem), p, m, maxNbAttempts);
    if wider {
      BestWider(c.View(mem), p, m, best);
    } else if exhausted {
      NoneWider(c.View(mem), p, m, best);
    }
  }

  lemma WiderSearch(v: Space, p: int, m: Repeat)
    requires m.Writable(v) == true && 64 * KB <= v.lowLimit && v.end < INDEX_LIMIT && v.dictLimit <= m.start <= p < m.End() && m.End() + MFLIMIT <= v.end
    ensures v.Valid() && Search(v, p, m.start, v.end - LASTLITERALS, m.len, false, false).Valid() == true
  {
    hide Space.Repeats;
    SearchFor(v, p, m.start, m.len);
  }

  lemma WideReach(v: Space, p: int, m: Repeat, maxNbAttempts: int)
    ensures Enough(v, p, maxNbAttempts) == (p - Search(v, p, m.start, v.end - LASTLITERALS, m.len, false, false).Lowest() < maxNbAttempts)
  {
  }

  lemma NoneWider(v: Space, p: int, m: Repeat, best: Best)
    requires var s := Search(v, p, m.start, v.end - LASTLITERALS, m.len, false, false); s.Sound(best) == true && s.Longest(best.longest) == true
    requires best.longest <= m.len
    ensures NoLonger(v, p, m.len) == true
  {
    hide Space.Repeats, Space.Readable;
    var s := Search(v, p, m.start, v.end - LASTLITERALS, m.len, false, false);
    forall k, n | At(v, p).Fits(k, n) ensures n <= m.len { assert s.Fits(k, n); }
  }

  lemma BestWider(v: Space, p: int, m: Repeat, best: Best)
    requires Search(v, p, m.start, v.end - LASTLITERALS, m.len, false, false).Sound(best) == true && m.len < best.longest
    requires m.Writable(v) == true && p < m.End() && m.End() + MFLIMIT <= v.end
    ensures Wider(v, m, p, Repeat(best.startpos, best.matchpos, best.longest)) == true
  {
    hide Space.Repeats;
  }

  /** There are more attempts than indices in reach. */
  predicate Enough(v: Space, ip: int, maxNbAttempts: int) { ip - At(v, ip).Lowest() < maxNbAttempts }

  lemma IsExhausted(v: Space, ip: int, found: HcMatch)
    requires v.Valid() && ip + MFLIMIT <= v.end && NoneLonger(At(v, ip), found) == true && Found(At(v, ip), found) == true
    ensures var m := Repeat(ip, ip - found.off, found.len);
            Exhausted(v, ip, if found.len < MINMATCH then Next(ip + 1) else Second(m, m)) == true
  {
    hide Space.Repeats, Space.Readable;
    if found.len < MINMATCH {
      forall m: int | v.Readable(m) ensures !v.Repeats(m, ip, MINMATCH) {
        assert !At(v, ip).Fits(m, MINMATCH);
      }
    }
  }

  /** Without a match: the longest one at `ip`, or the next position. */
  method FindFirst(c: HcContext, mem: seq<byte>, ghost anchor: int, ip: int, maxNbAttempts: int) returns (st: Lazy, ghost exhausted: bool)
    requires c.Valid() == true && Going(c.View(mem), anchor, c.nextToUpdate, Next(ip)) == true && ip + MFLIMIT <= c.end
    modifies c`nextToUpdate, c.hashTable, c.chainTable
    ensures c.Valid() == true && Going(c.View(mem), anchor, c.nextToUpdate, st) == true && ip < st.Top()
    ensures st == Next(ip + 1) || (st.Second? && st.m == st.first && st.m.start == ip)
    ensures exhausted ==> Exhausted(c.View(mem), ip, st) == true
    ensures old(c.UpToDate(mem)) ==> c.UpToDate(mem) == true && (Enough(c.View(mem), ip, maxNbAttempts) ==> exhausted)
  {
    hide *;
    ContextParts(c, mem);
    FirstSearch(c.View(mem), anchor, c.nextToUpdate, ip);
    QueryIs(c, mem, ip, ip, MINMATCH - 1);
    SearchAt(c.View(mem), ip, maxNbAttempts);
    var found, nbAttempts := c.InsertAndFindBestMatch(mem, ip, c.end - LASTLITERALS, maxNbAttempts, maxNbAttempts > 128);
    var m := Repeat(ip, ip - found.off, found.len);
    FirstGoing(c.View(mem), anchor, ip, found);
    exhausted := old(c.UpToDate(mem)) && 0 < nbAttempts;
    if exhausted { IsExhausted(c.View(mem), ip, found); }
    st := if found.len < MINMATCH then Next(ip + 1) else Second(m, m);
  }

  lemma SearchAt(v: Space, ip: int, maxNbAttempts: int)
    ensures At(v, ip) == Search(v, ip, ip, v.end - LASTLITERALS, MINMATCH - 1, false, false)
    ensures Enough(v, ip, maxNbAttempts) == (ip - At(v, ip).Lowest() < maxNbAttempts)
  {
  }

  lemma FirstSearch(v: Space, anchor: int, next: int, ip: int)
    requires Going(v, anchor, next, Next(ip)) == true && ip + MFLIMIT <= v.end && 64 * KB <= v.lowLimit && v.end < INDEX_LIMIT
    ensures v.Valid() && v.dictLimit <= anchor <= ip && next <= ip && Search(v, ip, ip, v.end - LASTLITERALS, MINMATCH - 1, false, false).Valid() == true
  {
    SearchFor(v, ip, ip, MINMATCH - 1);
  }

  lemma FirstGoing(v: Space, anchor: int, ip: int, found: HcMatch)
    requires v.Valid() && v.dictLimit <= anchor <= ip && ip + MFLIMIT <= v.end && Found(Search(v, ip, ip, v.end - LASTLITERALS, MINMATCH - 1, false, false), found) == true
    ensures var m := Repeat(ip, ip - found.off, found.len);
            var st := if found.len < MINMATCH then Next(ip + 1) else Second(m, m);
            Going(v, anchor, ip, st) == true && ip < st.Top()
  {
    hide Space.Repeats;
  }

  lemma SecondParts(v: Space, anchor: int, next: int, m: Repeat, first: Repeat)
    requires Going(v, anchor, next, Second(m, first)) == true
    ensures m.Writable(v) == true && v.dictLimit <= m.start && anchor <= m.start <= m.End() - 2 && next <= m.End() - 2 && Going(v, m.End(), next, Next(m.End())) == true
    ensures m.End() < v.end
  {
    hide Space.Repeats;
  }

  lemma SecondGoing(v: Space, anchor: int, next: int, m: Repeat, first: Repeat, m2: Repeat)
    requires Going(v, anchor, next, Second(m, first)) == true && Wider(v, m, m.End() - 2, m2) == true && m.End() + MFLIMIT <= v.end
    ensures var m1 := Restored(m, first, m2);
            Going(v, anchor, m.End() - 2, if m2.start - m1.start < 3 then Second(m2, first) else Third(m1, m2)) == true
    ensures m.End() < m2.End()
  {
    hide Space.Repeats, Space.Valid;
  }

  /** From `_Search2` on, up to the next jump. */
  method StepSecond(c: HcContext, mem: seq<byte>, start: int, w: Room, dst: array<byte>, op0: int, anchor0: int, m: Repeat, first: Repeat,
                    maxNbAttempts: int, ghost qs: seq<Emitted>, ghost attentive: bool)
    returns (ok: bool, op: int, anchor: int, st: Lazy, ghost qs': seq<Emitted>, ghost attentive': bool)
    requires c.Valid() == true && Parsed(c.View(mem), start, w, dst[..], op0, qs, anchor0) == true
    requires Going(c.View(mem), anchor0, c.nextToUpdate, Second(m, first)) == true
    requires attentive ==> Attentive(c.View(mem), start, qs, anchor0) == true && Watching(c.View(mem), anchor0, Second(m, first), qs == [], Rested(c.View(mem), qs, anchor0)) == true
    modifies c`nextToUpdate, c.hashTable, c.chainTable, dst
    ensures c.Valid() == true && forall i :: 0 <= i < dst.Length && !(w.dest <= i < w.oend) ==> dst[i] == old(dst[i])
    ensures old(c.UpToDate(mem)) ==> c.UpToDate(mem) == true
    ensures old(c.UpToDate(mem)) && attentive && (m.End() + MFLIMIT <= c.end ==> Enough(c.View(mem), m.End() - 2, maxNbAttempts)) ==> attentive'
    ensures !ok ==> w.mode == LimitedOutput && w.oend - w.dest < CompressBound(w.n) && Overflows(c.View(mem), start, w, qs', anchor) == true
    ensures ok ==> Parsed(c.View(mem), start, w, dst[..], op, qs', anchor) == true && Going(c.View(mem), anchor, c.nextToUpdate, st) == true
    ensures attentive' ==> attentive && Attentive(c.View(mem), start, qs', anchor) == true && (ok ==> Watching(c.View(mem), anchor, st, qs' == [], Rested(c.View(mem), qs', anchor)) == true)
    ensures ok ==> m.End() < st.Top() || st == Next(m.End())
    ensures c.end < m.End() + MFLIMIT ==> AddsFor(qs', qs, anchor0, m) && anchor == m.End() && st == Next(m.End())
  {
    hide *;
    ghost var v, next := c.View(mem), c.nextToUpdate;
    ContextParts(c, mem);
    SecondParts(v, anchor0, c.nextToUpdate, m, first);
    TopIs(m, first, m);
    ok, op, anchor, qs' := true, op0, anchor0, qs;
    var wider, m2 := false, m;
    ghost var exhausted := true;
    if m.End() + MFLIMIT <= c.end {
      wider, m2, exhausted := LookWider(c, mem, m.End() - 2, m, maxNbAttempts);
    }
    attentive' := attentive && exhausted;
    if attentive' { WatchSecond(v, anchor0, next, m, first, m2, qs == [], Rested(v, qs, anchor0)); }
    if !wider {
      st := Next(m.End());
      ok, op, qs' := EncodeSequence(c.View(mem), start, w, dst, op0, anchor0, m, qs);
      anchor := m.End();
      SecondGone(v, anchor, c.nextToUpdate, m);
      if attentive' { IsRested(v, qs', qs, anchor0, m, m.End() - 2); }
      return;
    }
    SecondGoing(v, anchor0, next, m, first, m2);
    TopIs(m, first, m2);
    var m1 := m;
    if first.start < m.start {
      if m2.start < m.start + first.len { m1 := first; }
    }
    st := if m2.start - m1.start < 3 then Second(m2, first) else Third(m1, m2);
  }

  lemma TopIs(m: Repeat, first: Repeat, m2: Repeat)
    ensures forall r: Repeat :: Second(m2, r).Top() == Third(r, m2).Top() == m2.End()
    ensures Restored(m, first, m2) == if first.start < m.start && m2.start < m.start + first.len then first else m
  {
  }

  lemma SecondGone(v: Space, anchor: int, next: int, m: Repeat)
    requires m.Writable(v) == true && v.dictLimit <= anchor == m.End() && next <= m.End() - 2
    ensures Going(v, anchor, next, Next(m.End())) == true
  {
    hide Space.Repeats;
  }

  /** From `_Search3` on, up to the next jump. */
  method StepThird(c: HcContext, mem: seq<byte>, start: int, w: Room, dst: array<byte>, op0: int, anchor0: int, m: Repeat, m0: Repeat,
                   maxNbAttempts: int, ghost qs: seq<Emitted>, ghost attentive: bool)
    returns (ok: bool, op: int, anchor: int, st: Lazy, ghost qs': seq<Emitted>, ghost attentive': bool)
    requires c.Valid() == true && Parsed(c.View(mem), start, w, dst[..], op0, qs, anchor0) == true
    requires Going(c.View(mem), anchor0, c.nextToUpdate, Third(m, m0)) == true
    requires attentive ==> Attentive(c.View(mem), start, qs, anchor0) == true && Watching(c.View(mem), anchor0, Third(m, m0), qs == [], Rested(c.View(mem), qs, anchor0)) == true
    modifies c`nextToUpdate, c.hashTable, c.chainTable, dst
    ensures c.Valid() == true && forall i :: 0 <= i < dst.Length && !(w.dest <= i < w.oend) ==> dst[i] == old(dst[i])
    ensures old(c.UpToDate(mem)) ==> c.UpToDate(mem) == true
    ensures old(c.UpToDate(mem)) && attentive && (m0.End() + MFLIMIT <= c.end ==> Enough(c.View(mem), m0.End() - 3, maxNbAttempts)) ==> attentive'
    ensures !ok ==> w.mode == LimitedOutput && w.oend - w.dest < CompressBound(w.n) && Overflows(c.View(mem), start, w, qs', anchor) == true
    ensures ok ==> Parsed(c.View(mem), start, w, dst[..], op, qs', anchor) == true && Going(c.View(mem), anchor, c.nextToUpdate, st) == true
    ensures attentive' ==> attentive && Attentive(c.View(mem), start, qs', anchor) == true && (ok ==> Watching(c.View(mem), anchor, st, qs' == [], Rested(c.View(mem), qs', anchor)) == true)
    ensures ok ==> m0.End() < st.Top() || st == Next(m0.End())
  {
    hide *;
    ghost var v := c.View(mem);
    ContextParts(c, mem);
    CorrectedApart(v, anchor0, c.nextToUpdate, m, m0);
    var m2 := Corrected(m, m0);
    ApartParts(v, anchor0, c.nextToUpdate, m, m2);
    ok, op, anchor, qs' := true, op0, anchor0, qs;
    var wider, m3 := false, m2;
    ghost var exhausted := true;
    if m2.End() + MFLIMIT <= c.end {
      wider, m3, exhausted := LookWider(c, mem, m2.End() - 3, m2, maxNbAttempts);
    }
    attentive' := attentive && exhausted;
    if attentive' {
      WatchingThird(v, anchor0, m, m0, qs == [], Rested(v, qs, anchor0));
      WatchThird(v, anchor0, c.nextToUpdate, m, m2, m3, qs == [], Rested(v, qs, anchor0));
    }
    if !wider {
      st := Next(m2.End());
      CutWritable(v, anchor0, c.nextToUpdate, m, m2);
      var m1 := Cut(m, m2);
      ok, op, qs' := EncodeSequence(c.View(mem), start, w, dst, op0, anchor0, m1, qs);
      anchor := m1.End();
      if attentive' { WatchBehind(v, anchor, m2, m2, Rested(v, qs', anchor)); }
      if !ok { return; }
      ghost var qs1 := qs';
      ok, op, qs' := EncodeSequence(c.View(mem), start, w, dst, op, anchor, m2, qs');
      if attentive' { IsRested(v, qs', qs1, anchor, m2, m2.End() - 3); }
      anchor := m2.End();
      return;
    }
    ThirdTop(v, m, m2, m3);
    if m3.start < m.End() + 3 {
      if m3.start >= m.End() {
        SqueezedGoing(v, anchor0, m2.End() - 3, m, m2, m3);
        st := Second(m3, Squeezed(m, m2, m3));
        ok, op, qs' := EncodeSequence(c.View(mem), start, w, dst, op0, anchor0, m, qs);
        anchor := m.End();
        return;
      }
      ReplacedGoing(v, anchor0, m2.End() - 3, m, m2, m3);
      st := Third(m, m3);
      return;
    }
    AscendingGoing(v, anchor0, m2.End() - 3, m, m2, m3);
    var (m1, second) := Ascending(m, m2);
    st := Third(second, m3);
    ThirdTop(v, second, m2, m3);
    ok, op, qs' := EncodeSequence(c.View(mem), start, w, dst, op0, anchor0, m1, qs);
    anchor := m1.End();
    if attentive' { WatchBehind(v, anchor, second, m3, Rested(v, qs', anchor)); }
  }

  lemma WatchingThird(v: Space, anchor: int, m: Repeat, m2: Repeat, first: bool, rested: bool)
    requires Watching(v, anchor, Third(m, m2), first, rested) == true
    ensures Prompt(v, anchor, m.start, first, rested) == true
  {
  }

  lemma ApartParts(v: Space, anchor: int, next: int, m: Repeat, m2: Repeat)
    requires Apart(v, anchor, next, m, m2) == true
    ensures m2.Writable(v) == true && v.dictLimit <= m2.start <= m2.End() - 3 && m2.End() - 3 < m2.End() && next <= m2.End() - 3
    ensures m2.End() + MFLIMIT <= v.end ==> Apart(v, anchor, m2.End() - 3, m, m2) == true
  {
    hide Space.Repeats;
  }

  lemma ThirdTop(v: Space, m: Repeat, m2: Repeat, m3: Repeat)
    requires Wider(v, m2, m2.End() - 3, m3) == true
    ensures forall r: Repeat :: Second(m3, r).Top() == Third(r, m3).Top() == m3.End()
    ensures m2.End() < m3.End()
  {
  }

  // ----- The whole call -----

  lemma LoopParts(v: Space, anchor: int, next: int, st: Lazy)
    requires Going(v, anchor, next, st) == true
    ensures st.Top() <= v.end && (st.Next? ==> st.Top() == st.ip)
  {
    hide Space.Repeats;
  }

  /** The main loop, with its jumps; `false` if the output is too small. */
  method Parse(c: HcContext, mem: seq<byte>, start: int, w: Room, dst: array<byte>, maxNbAttempts: int)
    returns (ok: bool, op: int, anchor: int, ghost qs: seq<Emitted>, ghost attentive: bool)
    requires c.Valid() == true && Parsed(c.View(mem), start, w, dst[..], w.dest, [], start) == true && c.nextToUpdate <= start
    modifies c`nextToUpdate, c.hashTable, c.chainTable, dst
    ensures c.Valid() == true && forall i :: 0 <= i < dst.Length && !(w.dest <= i < w.oend) ==> dst[i] == old(dst[i])
    ensures !ok ==> w.mode == LimitedOutput && w.oend - w.dest < CompressBound(w.n) && Overflows(c.View(mem), start, w, qs, anchor) == true
    ensures ok ==> Parsed(c.View(mem), start, w, dst[..], op, qs, anchor) == true
    ensures attentive ==> Attentive(c.View(mem), start, qs, anchor) == true && (ok ==> Quiet(c.View(mem), anchor, c.end - MFLIMIT + 1) == true && Rested(c.View(mem), qs, anchor) == true)
    ensures old(c.UpToDate(mem)) ==> c.UpToDate(mem) == true && (AllEnough(c.View(mem), start, maxNbAttempts) ==> attentive)
    ensures old(c.UpToDate(mem)) && 2 <= maxNbAttempts && Uniform(c.View(mem), start) == true ==> OneRun(c.View(mem), start, qs) && anchor == c.end - LASTLITERALS
  {
    hide *;
    ghost var v := c.View(mem);
    ghost var uniform := c.UpToDate(mem) && 2 <= maxNbAttempts && Uniform(v, start);
    UnrollingStarts(v, start);
    ok, op, anchor, qs := true, w.dest, start, [];
    var st := Next(start);
    ContextParts(c, mem);
    ParsedParts(v, start, w, dst[..], w.dest, [], start);
    StartGoing(v, start, c.nextToUpdate);
    LoopParts(v, anchor, c.nextToUpdate, st);
    ParsedCovers(v, start, w, dst[..], w.dest, [], start);
    AttentiveNothing(v, start);
    attentive := c.UpToDate(mem);
    while !st.Next? || st.ip + MFLIMIT <= c.end
      invariant c.Valid() == true && Parsed(v, start, w, dst[..], op, qs, anchor) == true && Going(v, anchor, c.nextToUpdate, st) == true
      invariant forall i :: 0 <= i < dst.Length && !(w.dest <= i < w.oend) ==> dst[i] == old(dst[i])
      invariant ok && st.Top() <= v.end && (st.Next? ==> st.Top() == st.ip)
      invariant attentive ==> Attentive(v, start, qs, anchor) == true && Watching(v, anchor, st, qs == [], Rested(v, qs, anchor)) == true
      invariant old(c.UpToDate(mem)) ==> c.UpToDate(mem) == true && (AllEnough(v, start, maxNbAttempts) ==> attentive)
      invariant uniform ==> Unrolling(v, start, qs, anchor, st) == true
      decreases v.end - st.Top(), !st.Next?
    {
      match st {
        case Next(ip) =>
          ghost var exhausted;
          if AllEnough(v, start, maxNbAttempts) { EnoughAt(v, start, w, dst[..], op, qs, anchor, c.nextToUpdate, ip, maxNbAttempts); }
          st, exhausted := FindFirst(c, mem, anchor, ip, maxNbAttempts);
          if uniform { RunStep(v, start, qs, anchor, c.nextToUpdate, ip, st, exhausted, maxNbAttempts); }
          attentive := attentive && exhausted;
          if attentive { WatchFirst(v, anchor, ip, st, qs == [], Rested(v, qs, anchor)); }
        case Second(m, first) =>
          SecondTop(m, first);
          ghost var qs0, anchor0 := qs, anchor;
          if uniform { RunSecond(v, start, qs, anchor, m, first); }
          if AllEnough(v, start, maxNbAttempts) { EnoughBefore(v, start, w, dst[..], op, qs, anchor, c.nextToUpdate, st, maxNbAttempts); }
          ok, op, anchor, st, qs, attentive := StepSecond(c, mem, start, w, dst, op, anchor, m, first, maxNbAttempts, qs, attentive);
          if uniform { RunWritten(v, start, qs0, anchor0, qs); }
        case Third(m, m2) =>
          if uniform { NoThird(v, start, qs, anchor, m, m2); }
          SecondTop(m2, m);
          if AllEnough(v, start, maxNbAttempts) { EnoughBefore(v, start, w, dst[..], op, qs, anchor, c.nextToUpdate, st, maxNbAttempts); }
          ok, op, anchor, st, qs, attentive := StepThird(c, mem, start, w, dst, op, anchor, m, m2, maxNbAttempts, qs, attentive);
      }
      if !ok { return; }
      LoopParts(v, anchor, c.nextToUpdate, st);
    }
    if attentive { QuietEnd(v, anchor, st, c.end - MFLIMIT + 1, qs == [], Rested(v, qs, anchor)); }
    if uniform { RunEnds(v, start, qs, anchor, st); }
  }

  lemma RunStep(v: Space, start: int, qs: seq<Emitted>, anchor: int, next: int, ip: int, st: Lazy, exhausted: bool, maxNbAttempts: int)
    requires Uniform(v, start) == true && Unrolling(v, start, qs, anchor, Next(ip)) == true && ip + MFLIMIT <= v.end && Going(v, anchor, next, st) == true
    requires st == Next(ip + 1) || (st.Second? && st.m == st.first && st.m.start == ip)
    requires 2 <= maxNbAttempts && (exhausted ==> Exhausted(v, ip, st) == true) && (Enough(v, ip, maxNbAttempts) ==> exhausted)
    ensures Unrolling(v, start, qs, anchor, st) == true
  {
    hide Exhausted, Unrolling, Going;
    if ip == start + 1 { assert Enough(v, ip, maxNbAttempts); }
    RunFound(v, start, qs, anchor, next, ip, st);
  }

  lemma RunSecond(v: Space, start: int, qs: seq<Emitted>, anchor: int, m: Repeat, first: Repeat)
    requires Unrolling(v, start, qs, anchor, Second(m, first)) == true
    ensures qs == [] && anchor == start && m == WholeRun(v, start) && m.End() == v.end - LASTLITERALS && v.end < m.End() + MFLIMIT
  {
  }

  lemma RunWritten(v: Space, start: int, qs0: seq<Emitted>, anchor: int, qs: seq<Emitted>)
    requires qs0 == [] && anchor == start && AddsFor(qs, qs0, anchor, WholeRun(v, start))
    ensures OneRun(v, start, qs) && Unrolling(v, start, qs, v.end - LASTLITERALS, Next(v.end - LASTLITERALS)) == true
  {
  }

  lemma NoThird(v: Space, start: int, qs: seq<Emitted>, anchor: int, m: Repeat, m2: Repeat)
    ensures Unrolling(v, start, qs, anchor, Third(m, m2)) == false
  {
  }

  lemma RunEnds(v: Space, start: int, qs: seq<Emitted>, anchor: int, st: Lazy)
    requires Uniform(v, start) == true && Unrolling(v, start, qs, anchor, st) == true && st.Next? && v.end < st.ip + MFLIMIT
    ensures OneRun(v, start, qs) && anchor == v.end - LASTLITERALS
  {
    hide Space.Runs;
    if qs == [] { assert false; }
  }

  /** No position from `start` on has more indices in reach than there are attempts. */
  predicate AllEnough(v: Space, start: int, maxNbAttempts: int) {
    forall ip: int :: start <= ip && ip + MFLIMIT <= v.end ==> Enough(v, ip, maxNbAttempts)
  }

  lemma EnoughAt(v: Space, start: int, w: Room, d: seq<byte>, op: int, qs: seq<Emitted>, anchor: int, next: int, ip: int, maxNbAttempts: int)
    requires AllEnough(v, start, maxNbAttempts) && ip + MFLIMIT <= v.end
    requires Parsed(v, start, w, d, op, qs, anchor) == true && Going(v, anchor, next, Next(ip)) == true
    ensures Enough(v, ip, maxNbAttempts)
  {
  }

  lemma EnoughBefore(v: Space, start: int, w: Room, d: seq<byte>, op: int, qs: seq<Emitted>, anchor: int, next: int, st: Lazy, maxNbAttempts: int)
    requires AllEnough(v, start, maxNbAttempts) && !st.Next?
    requires Parsed(v, start, w, d, op, qs, anchor) == true && Going(v, anchor, next, st) == true
    ensures st.Second? && st.Top() + MFLIMIT <= v.end ==> Enough(v, st.Top() - 2, maxNbAttempts)
    ensures st.Third? && st.Top() + MFLIMIT <= v.end ==> Enough(v, st.Top() - 3, maxNbAttempts)
  {
    hide Enough, Space.Repeats;
  }

  lemma QuietEnd(v: Space, anchor: int, st: Lazy, b: int, first: bool, rested: bool)
    requires st.Next? && Watching(v, anchor, st, first, rested) == true && b <= st.ip
    ensures Quiet(v, anchor, b) == true && rested
  {
    hide NoMatch;
  }

  lemma StartGoing(v: Space, start: int, next: int)
    requires v.Valid() && v.dictLimit <= start <= v.end && next <= start
    ensures Going(v, start, next, Next(start)) == true
  {
  }

  lemma SecondTop(m: Repeat, r: Repeat)
    ensures Second(m, r).Top() == Third(r, m).Top() == m.End()
  {
  }

  /** Last literals behind the sequences complete the block. */
  lemma BlockIs(v: Space, start: int, w: Room, before: seq<byte>, d: seq<byte>, op: int, qs: seq<Emitted>, anchor: int, end: int)
    requires Parsed(v, start, w, before, op, qs, anchor) == true
    requires |d| == |before| && (forall i :: w.dest <= i < op ==> d[i] == before[i])
    requires 0 <= v.base + anchor && v.base + v.end <= |v.mem| && op <= end <= |d| && d[op..end] == EncodeLiterals(v.mem[v.base + anchor..v.base + v.end], 0)
    ensures v.Valid() && v.lowLimit <= start <= v.end && 0 <= v.base + start && 0 <= w.dest < end
    ensures BlockCompressor.Represents(d[w.dest..end], Front(v, start), v.mem[v.base + start..v.base + v.end])
  {
    hide Text, EncodeLiterals, EndConditions, Decode, EncodeAll, Expand, Small, Applicable, Encodable, Front;
    var h, last := Front(v, start), v.mem[v.base + anchor..v.base + v.end];
    SameSlice(d, before, w.dest, op);
    SplitSlice(d, w.dest, op, end);
    assert d[w.dest..end] == EncodeBlock(qs, last);
    PrefixText(v, anchor, v.end);
    PrefixText(v, start, v.end);
    BlockRoundTrip(h, qs, last);
    BlockSizeBound(h, qs, last);
    BlockCompressor.NotEmpty(last);
    if start == v.end { BlockCompressor.EmptyBlock(h, qs, last); }
  }

  lemma UniformSize(v: Space, start: int)
    requires Uniform(v, start) == true
    ensures start + MatchFinder.MIN_LENGTH <= v.end
  {
  }

  lemma Short(n: nat)
    ensures n < MatchFinder.MIN_LENGTH <==> n <= MFLIMIT
  {
  }

  lemma InMemory(v: Space, start: int)
    requires v.Valid() && v.dictLimit <= start <= v.end
    ensures 0 <= v.base + start && v.base + v.end <= |v.mem| && v.lowLimit <= start
  {
  }

  /**
   The answer of the lazy search: the block for its parse, or nothing, exactly as there is room for that block. An
   attentive one has missed nothing, neither between its sequences nor behind the last one, unless the block is already
   too long there.
   */
  ghost predicate Lazily(v: Space, start: int, room: int, answer: seq<byte>, attentive: bool) {
    exists qs: seq<Emitted>, anchor: int :: FromLazy(v, start, room, answer, attentive, qs, anchor)
  }

  ghost predicate FromLazy(v: Space, start: int, room: int, answer: seq<byte>, attentive: bool, qs: seq<Emitted>, anchor: int) {
    && Covers(v, start, qs, anchor) && 0 <= v.base + anchor && v.base + v.end <= |v.mem|
    && answer == BlockCompressor.Fitting(EncodeBlock(qs, v.mem[v.base + anchor..v.base + v.end]), room)
    && (attentive ==> AllPrompt(v, start, qs) && (!BlockCompressor.Cut(room, qs) && MatchFinder.MIN_LENGTH <= v.end - start ==> Quiet(v, anchor, v.end - MFLIMIT + 1) && Rested(v, qs, anchor)))
  }

  lemma IsLazy(v: Space, start: int, room: int, answer: seq<byte>, attentive: bool, qs: seq<Emitted>, anchor: int)
    requires FromLazy(v, start, room, answer, attentive, qs, anchor) == true
    ensures Lazily(v, start, room, answer, attentive) == true
  {
    hide FromLazy;
  }

  lemma LazilyToo(v: Space, start: int, room: int, answer: seq<byte>, attentive: bool, less: bool)
    requires Lazily(v, start, room, answer, attentive) == true && (less ==> attentive)
    ensures Lazily(v, start, room, answer, less) == true
  {
    hide Covers, AllPrompt, Quiet, Rested, EncodeBlock;
    var qs: seq<Emitted>, anchor: int :| FromLazy(v, start, room, answer, attentive, qs, anchor);
    assert FromLazy(v, start, room, answer, less, qs, anchor);
  }

  lemma NothingFits(v: Space, start: int, w: Room, qs: seq<Emitted>, anchor: int, attentive: bool)
    requires Overflows(v, start, w, qs, anchor) == true && (attentive ==> Attentive(v, start, qs, anchor) == true)
    ensures FromLazy(v, start, w.oend - w.dest, [], attentive, qs, anchor) == true
  {
    hide AllPrompt, EncodeAll, EncodeLiterals, Quiet, Rested, Expand, Applicable, Encodable, Small, Text, Front;
  }

  /** The end of the search, with or without room for the last literals. */
  lemma BlockAnswers(v: Space, start: int, w: Room, before: seq<byte>, d: seq<byte>, op: int, qs: seq<Emitted>, anchor: int, ok: bool, end: int, attentive: bool)
    requires Parsed(v, start, w, before, op, qs, anchor) == true && 0 <= v.base + anchor <= v.base + v.end <= |v.mem|
    requires |d| == |before| && (forall i :: w.dest <= i < op ==> d[i] == before[i])
    requires if ok then op <= end <= w.oend && d[op..end] == EncodeLiterals(v.mem[v.base + anchor..v.base + v.end], 0)
             else w.oend < op + |EncodeLiterals(v.mem[v.base + anchor..v.base + v.end], 0)|
    requires attentive ==> Attentive(v, start, qs, anchor) == true && (MatchFinder.MIN_LENGTH <= w.n ==> Quiet(v, anchor, v.end - MFLIMIT + 1) == true && Rested(v, qs, anchor) == true)
    requires 0 <= w.dest <= w.oend <= |d|
    ensures FromLazy(v, start, w.oend - w.dest, if ok then d[w.dest..end] else [], attentive, qs, anchor) == true
  {
    hide AllPrompt, EncodeAll, EncodeLiterals, Quiet, Rested, Expand, Applicable, Encodable, Small, Text, Front;
    SameSlice(d, before, w.dest, op);
    SplitSlice(d, w.dest, op, if ok then end else op);
    BlockCompressor.NotEmpty(v.mem[v.base + anchor..v.base + v.end]);
  }

  /** The last literals. */
  method FinishBlock(v: Space, start: int, w: Room, dst: array<byte>, op: int, anchor: int, ghost qs: seq<Emitted>, ghost attentive: bool) returns (result: nat)
    requires Parsed(v, start, w, dst[..], op, qs, anchor) == true && 0 <= v.base + start && v.base + v.end <= |v.mem|
    requires attentive ==> Attentive(v, start, qs, anchor) == true && (MatchFinder.MIN_LENGTH <= w.n ==> Quiet(v, anchor, v.end - MFLIMIT + 1) == true && Rested(v, qs, anchor) == true)
    modifies dst
    ensures forall i :: 0 <= i < dst.Length && !(w.dest <= i < w.oend) ==> dst[i] == old(dst[i])
    ensures result == 0 ==> w.mode == LimitedOutput && w.oend - w.dest < CompressBound(w.n)
    ensures result > 0 ==> 0 <= w.dest && w.dest + result <= w.oend <= dst.Length && v.Valid() && v.lowLimit <= start <= v.end
    ensures result > 0 ==> BlockCompressor.Represents(dst[w.dest..w.dest + result], Front(v, start), v.mem[v.base + start..v.base + v.end]) == true
    ensures 0 <= w.dest <= w.dest + result <= dst.Length && FromLazy(v, start, w.oend - w.dest, dst[w.dest..w.dest + result], attentive, qs, anchor) == true
  {
    hide *;
    ghost var before := dst[..];
    ParsedParts(v, start, w, before, op, qs, anchor);
    var ok, end, lastRun := WriteLastLiterals(w, dst, op, v.mem, v.base + start, v.base + anchor);
    BlockAnswers(v, start, w, before, dst[..], op, qs, anchor, ok, end, attentive);
    if !ok {
      assert dst[w.dest..w.dest + 0] == [];
      return 0;
    }
    BlockCompressor.NotEmpty(v.mem[v.base + anchor..v.base + anchor + lastRun]);
    BlockIs(v, start, w, before, dst[..], op, qs, anchor, end);
    result := end - w.dest;
  }

  /**
   LZ4HC_compress_hashChain, unless the output is to be filled. The block stands for the input behind the
   text of all indices in front of it, whatever the tables hold; and there is none only for want of room. With
   tables that are up to date, and more attempts than indices in reach, the parse is attentive.
   */
  method CompressHashChain(c: HcContext, mem: seq<byte>, start: int, w: Room, dst: array<byte>, maxNbAttempts: int)
    returns (result: nat, ghost attentive: bool)
    requires c.Valid() == true && c.View(mem).Valid() == true && c.dictLimit <= start <= c.end && c.nextToUpdate <= start
    requires w.n == c.end - start && w.Fits(dst.Length) && w.mode != FillOutput
    modifies c`nextToUpdate, c.hashTable, c.chainTable, dst
    ensures c.Valid() == true && forall i :: 0 <= i < dst.Length && !(w.dest <= i < w.oend) ==> dst[i] == old(dst[i])
    ensures result == 0 ==> w.mode == LimitedOutput && w.oend - w.dest < CompressBound(w.n)
    ensures result > 0 ==> 0 <= w.dest && w.dest + result <= w.oend <= dst.Length
    ensures result > 0 ==> var v := c.View(mem);
      && v.Valid() && v.lowLimit <= start <= v.end && 0 <= v.base + start && v.base + v.end <= |mem|
      && BlockCompressor.Represents(dst[w.dest..w.dest + result], Front(v, start), mem[v.base + start..v.base + v.end]) == true
    ensures 0 <= w.dest <= w.dest + result <= dst.Length && Lazily(c.View(mem), start, w.oend - w.dest, dst[w.dest..w.dest + result], attentive) == true
    ensures old(c.UpToDate(mem)) ==> c.UpToDate(mem) == true && (AllEnough(c.View(mem), start, maxNbAttempts) ==> attentive)
    ensures old(c.UpToDate(mem)) && 2 <= maxNbAttempts && Uniform(c.View(mem), start) == true ==>
      result <= EqualBytes.EqualBound(w.n) && (EqualBytes.EqualBound(w.n) <= w.oend - w.dest ==> 0 < result)
  {
    hide *;
    ghost var v := c.View(mem);
    ghost var uniform := c.UpToDate(mem) && 2 <= maxNbAttempts && Uniform(v, start);
    if uniform { UniformSize(v, start); }
    ContextParts(c, mem);
    Short(w.n);
    ParsedNothing(v, start, w, dst[..]);
    ParsedParts(v, start, w, dst[..], w.dest, [], start);
    InMemory(v, start);
    var ok, op, anchor := true, w.dest, start;
    ghost var qs := [];
    ParsedCovers(v, start, w, dst[..], w.dest, [], start);
    AttentiveNothing(v, start);
    attentive := c.UpToDate(mem);
    if w.n >= MatchFinder.MIN_LENGTH {
      ok, op, anchor, qs, attentive := Parse(c, mem, start, w, dst, maxNbAttempts);
      if !ok {
        NothingFits(v, start, w, qs, anchor, attentive);
        IsLazy(v, start, w.oend - w.dest, [], attentive, qs, anchor);
        if uniform { RunBound(v, start, w.oend - w.dest, [], attentive, qs, anchor); }
        assert dst[w.dest..w.dest + 0] == [];
        return 0, attentive;
      }
    }
    result := FinishBlock(c.View(mem), start, w, dst, op, anchor, qs, attentive);
    IsLazy(v, start, w.oend - w.dest, dst[w.dest..w.dest + result], attentive, qs, anchor);
    if uniform { RunBound(v, start, w.oend - w.dest, dst[w.dest..w.dest + result], attentive, qs, anchor); }
  }
}
