/**
 LZ4_compress_generic_validated: the greedy compressor, for every dictionary mode and every output
 mode. What it has written is always the encoding of a parse that stands for the input so far.
 */
module BlockCompressor {
  import opened Bytes
  import opened BlockFormat
  import opened BlockEncoding
  import opened MatchFinder
  import opened MatchLength
  import opened SequenceWriter

  // ----- What has been written so far -----

  /** `qs` cover the input before `anchor`; and stand for it, unless the two segments cannot be told apart. */
  ghost predicate Parsed(j: Job, qs: seq<Emitted>, anchor: int)
    requires j.Valid()
  {
    && j.source <= anchor <= j.End() && Encodable(qs) && Small(qs) && Applicable(j.History(), qs)
    && |Expand(j.History(), qs)| == j.At(anchor)
    && (j.Distinct() ==> Expand(j.History(), qs) == j.Text()[..j.At(anchor)])
  }

  /** `d[dest..op]` is the encoding of `qs`. */
  ghost predicate Emitting(j: Job, w: Room, d: seq<byte>, op: int, qs: seq<Emitted>, anchor: int)
    requires j.Valid()
  {
    && w.n == j.inputSize && w.Fits(|d|) && w.dest <= op <= w.oend && Parsed(j, qs, anchor)
    && d[w.dest..op] == EncodeAll(qs)
  }

  /** The block can end here: enough literals are left, in the input and in the output. */
  ghost predicate CanEnd(j: Job, w: Room, op: int, qs: seq<Emitted>, anchor: int) {
    if qs == [] then
      w.mode == FillOutput ==> op < w.oend
    else
      var last := qs[|qs| - 1];
      && LASTLITERALS <= j.End() - anchor && MFLIMIT <= last.length + (j.End() - anchor)
      && (w.mode != NotLimited ==> op + 1 + LASTLITERALS <= w.oend)
      && (w.mode == FillOutput && last.length < ML_MASK + MINMATCH ==> op + 1 + MFLIMIT - MINMATCH <= w.oend)
  }

  lemma EmittingBudget(j: Job, w: Room, d: seq<byte>, op: int, qs: seq<Emitted>, anchor: int)
    requires j.Valid() && Emitting(j, w, d, op, qs, anchor)
    ensures Budget(w, op, anchor - j.source, 0)
  {
    ExpandSize(j.History(), qs);
  }

  lemma AppendSequence(h: seq<byte>, qs: seq<Emitted>, q: Emitted)
    requires Encodable(qs) && Small(qs) && Applicable(h, qs)
    requires 1 <= q.offset <= DISTANCE_MAX && MINMATCH <= q.length < U32_SIZE && |q.literals| < U32_SIZE
    requires q.offset <= |Expand(h, qs)| + |q.literals|
    ensures var qs' := qs + [q];
            && Encodable(qs') && Small(qs') && Applicable(h, qs')
            && EncodeAll(qs') == EncodeAll(qs) + Encode(q)
            && Expand(h, qs') == CopyMatch(Expand(h, qs) + q.literals, q.offset, q.length)
  {
    var qs' := qs + [q];
    assert qs'[..|qs'| - 1] == qs;
  }

  /** A match repeats what stands `offset` bytes before it. */
  lemma MatchText(t: seq<byte>, p: int, offset: int, n: nat)
    requires 1 <= offset <= p && Same(t, p - offset, p, n)
    ensures CopyMatch(t[..p], offset, n) == t[..p + n]
  {
    var r := t[..p + n];
    forall i | p <= i < p + n ensures r[i] == r[i - offset] {
      assert t[i] == t[p..p + n][i - p] == t[p - offset..p - offset + n][i - p];
    }
    assert r[..p] == t[..p];
    RepeatsIsCopyMatch(t[..p], offset, r);
  }

  lemma InputText(j: Job, a: int, b: int)
    requires j.Valid() && j.source <= a <= b <= j.End()
    ensures j.Text()[j.At(a)..j.At(b)] == j.mem[a..b]
  {
    hide Job.Text, Job.History;
    TextSlice(j, j.At(a), b - a);
  }

  /** One more sequence. */
  lemma ParsedMore(j: Job, qs: seq<Emitted>, anchor: int, ip: int, offset: int, n: int)
    requires j.Valid() && Parsed(j, qs, anchor) && anchor <= ip && ip + n <= j.End() && MINMATCH <= n
    requires 1 <= offset <= DISTANCE_MAX && offset <= j.At(ip) && (j.Distinct() ==> Same(j.Text(), j.At(ip) - offset, j.At(ip), n))
    ensures var q := Emitted(j.mem[anchor..ip], offset, n); Parsed(j, qs + [q], ip + n) && EncodeAll(qs + [q]) == EncodeAll(qs) + Encode(q)
  {
    hide Job.Text, Job.History, Encode, EncodeAll, Expand, Applicable, Encodable, Small, CopyMatch;
    var q := Emitted(j.mem[anchor..ip], offset, n);
    AppendSequence(j.History(), qs, q);
    if j.Distinct() {
      InputText(j, anchor, ip);
      SplitSlice(j.Text(), 0, j.At(anchor), j.At(ip));
      assert Expand(j.History(), qs) + q.literals == j.Text()[..j.At(ip)];
      MatchText(j.Text(), j.At(ip), offset, n);
    }
  }

  /** One more sequence that has been written. */
  lemma EmittingMore(j: Job, w: Room, d: seq<byte>, op: int, qs: seq<Emitted>, anchor: int,
                     d': seq<byte>, op': int, ip: int, offset: int, n: nat)
    requires j.Valid() && Emitting(j, w, d, op, qs, anchor)
    requires anchor <= ip && ip + n <= j.End() && MINMATCH <= n
    requires 1 <= offset <= DISTANCE_MAX && offset <= j.At(ip) && (j.Distinct() ==> Same(j.Text(), j.At(ip) - offset, j.At(ip), n))
    requires |d'| == |d| && op <= op' <= w.oend
    requires forall i :: w.dest <= i < op ==> d'[i] == d[i]
    requires d'[op..op'] == Encode(Emitted(j.mem[anchor..ip], offset, n))
    ensures Emitting(j, w, d', op', qs + [Emitted(j.mem[anchor..ip], offset, n)], ip + n)
  {
    hide Job.Text, Job.History, Encode, EncodeAll, Parsed;
    ParsedMore(j, qs, anchor, ip, offset, n);
    SameSlice(d', d, w.dest, op);
    SplitSlice(d', w.dest, op, op');
  }

  lemma EmittingKept(j: Job, w: Room, d: seq<byte>, d': seq<byte>, op: int, qs: seq<Emitted>, anchor: int)
    requires j.Valid() && Emitting(j, w, d, op, qs, anchor)
    requires |d'| == |d| && forall i :: w.dest <= i < op ==> d'[i] == d[i]
    ensures Emitting(j, w, d', op, qs, anchor)
  {
    SameSlice(d', d, w.dest, op);
  }

  // ----- How good a parse is -----

  /** Every match goes as far as it can. */
  ghost predicate AllStretched(j: Job, qs: seq<Emitted>)
    requires j.Valid() && Encodable(qs) && Applicable(j.History(), qs)
    decreases |qs|
  {
    qs == [] ||
    (var front, q := qs[..|qs| - 1], qs[|qs| - 1];
     var anchor := j.source + |Expand(j.History(), front)| - j.dictSize;
     AllStretched(j, front) && Stretched(j, anchor, anchor + |q.literals|, q.offset, q.length))
  }

  /** Where the sequences end. */
  ghost function Behind(j: Job, qs: seq<Emitted>): int
    requires j.Valid() && Encodable(qs) && Applicable(j.History(), qs)
  {
    j.source + |Expand(j.History(), qs)| - j.dictSize
  }

  /**
   What comes next behind sequences that end at `a`: two positions go into the table, and if the second one finds nothing
   the search begins behind it. In front of all sequences it is only one position.
   */
  ghost function Next(j: Job, t: Tables, a: int, begun: bool): (r: SearchEnd)
    requires j.Valid() && t.Fit(j)
    ensures |r.table| == TABLE_SIZE
  {
    if a < j.source || j.End() - MFLIMIT < a || (begun && a < j.source + 2) then
      SearchEnd(false, a, 0, t.own)
    else if !begun then
      SearchFrom(j, Tables(WithPosition(j, t.own, a), t.dict), a + 1)
    else
      var t1 := WithPosition(j, t.own, a - 2);
      if Hit(j, t1, t.dict, a) then SearchEnd(true, a, HitOffset(j, t1, t.dict, a), WithPosition(j, t1, a))
      else SearchFrom(j, Tables(WithPosition(j, t1, a), t.dict), a + 1)
  }

  /** The table behind the sequences. */
  ghost function After(j: Job, t: Tables, qs: seq<Emitted>): (r: seq<int>)
    requires j.Valid() && t.Fit(j) && Encodable(qs) && Applicable(j.History(), qs)
    ensures |r| == TABLE_SIZE
    decreases |qs|
  {
    if qs == [] then t.own
    else
      var front := qs[..|qs| - 1];
      Next(j, Tables(After(j, t, front), t.dict), Behind(j, front), front != []).table
  }

  /** What the tables lead to behind the sequences. */
  ghost function Then(j: Job, t: Tables, qs: seq<Emitted>): (r: SearchEnd)
    requires j.Valid() && t.Fit(j) && Encodable(qs) && Applicable(j.History(), qs)
    ensures |r.table| == TABLE_SIZE
  {
    Next(j, Tables(After(j, t, qs), t.dict), Behind(j, qs), qs != [])
  }

  /** Every sequence is that of the match which the tables lead to. */
  ghost predicate AllTaken(j: Job, t: Tables, qs: seq<Emitted>)
    requires j.Valid() && t.Fit(j) && Encodable(qs) && Applicable(j.History(), qs)
    decreases |qs|
  {
    qs == [] ||
    (var front, q := qs[..|qs| - 1], qs[|qs| - 1];
     var r := Then(j, t, front);
     AllTaken(j, t, front) && r.found && Covers(q, Behind(j, front), r.at, r.offset))
  }

  /** Both, where the source promises it: if the output is not to be filled, and the segments can be told apart. */
  ghost predicate Thorough(j: Job, w: Room, t: Tables, qs: seq<Emitted>)
    requires j.Valid()
  {
    w.mode != FillOutput && j.Distinct() ==> t.Fit(j) && Encodable(qs) && Applicable(j.History(), qs) && AllStretched(j, qs) && AllTaken(j, t, qs)
  }

  /** A match has been found, as the tables say; `now` is the table. */
  ghost predicate Due(j: Job, w: Room, t: Tables, qs: seq<Emitted>, at: int, offset: int, now: seq<int>)
    requires j.Valid()
  {
    w.mode != FillOutput && j.Distinct() ==> t.Fit(j) && Encodable(qs) && Applicable(j.History(), qs) && Then(j, t, qs) == SearchEnd(true, at, offset, now)
  }

  /** The table is what it is to be behind the sequences. */
  ghost predicate Standing(j: Job, w: Room, t: Tables, qs: seq<Emitted>, now: seq<int>)
    requires j.Valid()
  {
    w.mode != FillOutput && j.Distinct() ==> t.Fit(j) && Encodable(qs) && Applicable(j.History(), qs) && After(j, t, qs) == now
  }

  /** A search from `ip` on comes next. */
  ghost predicate Sought(j: Job, w: Room, t: Tables, qs: seq<Emitted>, ip: int, now: seq<int>)
    requires j.Valid()
  {
    w.mode != FillOutput && j.Distinct() ==>
      && t.Fit(j) && Encodable(qs) && Applicable(j.History(), qs) && j.source <= ip && |now| == TABLE_SIZE
      && Then(j, t, qs) == SearchFrom(j, Tables(now, t.dict), ip)
  }

  /** Nothing comes next. */
  ghost predicate Ended(j: Job, w: Room, t: Tables, qs: seq<Emitted>)
    requires j.Valid()
  {
    w.mode != FillOutput && j.Distinct() ==> t.Fit(j) && Encodable(qs) && Applicable(j.History(), qs) && !Then(j, t, qs).found
  }

  lemma ParsedBehind(j: Job, qs: seq<Emitted>, anchor: int)
    requires j.Valid() && Parsed(j, qs, anchor) == true
    ensures Encodable(qs) && Applicable(j.History(), qs) && Behind(j, qs) == anchor
  {
    hide Expand, Applicable, Encodable, Job.Text, Job.History, Small;
  }

  lemma OneMoreTaken(j: Job, t: Tables, qs: seq<Emitted>, anchor: int, q: Emitted, at: int, now: seq<int>)
    requires j.Valid() && t.Fit(j) && Parsed(j, qs, anchor) == true && AllTaken(j, t, qs) == true && Encodable(qs + [q]) && Applicable(j.History(), qs + [q])
    requires Then(j, t, qs) == SearchEnd(true, at, q.offset, now) && Covers(q, anchor, at, q.offset)
    ensures AllTaken(j, t, qs + [q]) == true && After(j, t, qs + [q]) == now
  {
    ParsedBehind(j, qs, anchor);
    hide Behind, Next, Covers, Expand, Applicable, Encodable, Job.Text, Job.History, Small, Tables.Fit;
    assert (qs + [q])[..|qs|] == qs;
  }

  /** In front of all sequences. */
  lemma SoughtFirst(j: Job, w: Room, t: Tables, now: seq<int>)
    requires j.Valid() && t.Fit(j) && MIN_LENGTH <= j.inputSize && now == WithPosition(j, t.own, j.source)
    ensures Sought(j, w, t, [], j.source + 1, now) == true
  {
    hide SearchFrom, WithPosition;
  }

  /** Behind a match, there is another one at once; or the search goes on. */
  lemma ThenAtOnce(j: Job, w: Room, t: Tables, qs: seq<Emitted>, a: int, before: seq<int>)
    requires j.Valid() && Parsed(j, qs, a) == true && Standing(j, w, t, qs, before) == true && qs != [] && j.source + 2 <= a <= j.End() - MFLIMIT
    requires t.Fit(j) && |before| == TABLE_SIZE
    ensures var t1 := WithPosition(j, before, a - 2);
            if Hit(j, t1, t.dict, a) then Due(j, w, t, qs, a, HitOffset(j, t1, t.dict, a), WithPosition(j, t1, a)) == true
            else Sought(j, w, t, qs, a + 1, WithPosition(j, t1, a)) == true
  {
    ParsedBehind(j, qs, a);
    hide Parsed, Behind, After, Hit, HitOffset, WithPosition, SearchFrom, Expand, Applicable, Encodable, Job.Text, Job.History, Job.Distinct;
  }

  /** There is nothing more where only last literals are left. */
  lemma EndsHere(j: Job, w: Room, t: Tables, qs: seq<Emitted>, a: int, now: seq<int>)
    requires j.Valid() && Parsed(j, qs, a) == true && Standing(j, w, t, qs, now) == true && j.End() - MFLIMIT < a
    ensures Ended(j, w, t, qs) == true
  {
    ParsedBehind(j, qs, a);
    hide Parsed, Behind, After, Hit, HitOffset, WithPosition, SearchFrom, Expand, Applicable, Encodable, Job.Text, Job.History, Job.Distinct;
  }

  lemma EndsAtOnce(j: Job, w: Room, t: Tables)
    requires j.Valid() && t.Fit(j) && j.inputSize < MIN_LENGTH
    ensures Ended(j, w, t, []) == true
  {
    hide Hit, HitOffset, WithPosition, Job.Text, Job.History, Job.Distinct;
  }

  /** What a search has led to. */
  lemma SearchTold(j: Job, w: Room, t: Tables, qs: seq<Emitted>, ip: int, now: seq<int>, r: SearchEnd)
    requires j.Valid() && Sought(j, w, t, qs, ip, now) == true && j.source <= ip && Tables(now, t.dict).Fit(j)
    requires if r.found then SearchFrom(j, Tables(now, t.dict), ip) == r else !SearchFrom(j, Tables(now, t.dict), ip).found
    ensures if r.found then Due(j, w, t, qs, r.at, r.offset, r.table) == true else Ended(j, w, t, qs) == true
  {
    hide Then, SearchFrom, Applicable, Encodable, Job.Text, Job.History, Job.Distinct;
  }

  /** A match that is stretched if it is counted right. */
  ghost predicate Stretches(j: Job, anchor: int, ip: int, offset: int)
    requires j.Valid()
  {
    && j.source <= anchor <= ip <= j.End() - LASTLITERALS && 1 <= offset <= j.At(ip)
    && Stretched(j, anchor, ip, offset, FullLength(j, ip, offset))
  }

  /** A block with the sequences `qs` is too long for the output. */
  ghost predicate TooLong(j: Job, w: Room, t: Tables, qs: seq<Emitted>)
    requires j.Valid()
  {
    exists anchor: int :: TooLongBehind(j, w, t, qs, anchor)
  }

  /** There is not even room for the sequences and five last literals. */
  predicate Cut(room: int, qs: seq<Emitted>)
    requires Encodable(qs)
  {
    qs != [] && room < |EncodeAll(qs)| + 1 + LASTLITERALS
  }

  ghost predicate TooLongBehind(j: Job, w: Room, t: Tables, qs: seq<Emitted>, anchor: int)
    requires j.Valid()
  {
    Parsed(j, qs, anchor) && t.Fit(j) && AllStretched(j, qs) && AllTaken(j, t, qs) && Cut(w.oend - w.dest, qs)
    && w.oend - w.dest < |EncodeBlock(qs, j.mem[anchor..j.End()])|
  }

  lemma OneMoreStretched(j: Job, qs: seq<Emitted>, anchor: int, q: Emitted)
    requires j.Valid() && Parsed(j, qs, anchor) == true && AllStretched(j, qs) == true && Encodable(qs + [q]) && Applicable(j.History(), qs + [q])
    requires Stretched(j, anchor, anchor + |q.literals|, q.offset, q.length) == true
    ensures AllStretched(j, qs + [q]) == true
  {
    hide Stretched, Expand, Applicable, Encodable, Job.Text, Job.History, Small;
    assert (qs + [q])[..|qs|] == qs;
  }

  /** The sequence of a match that has been counted right. */
  lemma OneMoreThorough(j: Job, w: Room, t: Tables, qs: seq<Emitted>, anchor: int, ip: int, q: Emitted, at: int, now: seq<int>)
    requires j.Valid() && Parsed(j, qs, anchor) == true && Parsed(j, qs + [q], ip + q.length) == true && Thorough(j, w, t, qs) == true
    requires w.mode != FillOutput && j.Distinct() ==>
      && Stretches(j, anchor, ip, q.offset) == true && |q.literals| == ip - anchor && q.length == FullLength(j, ip, q.offset)
      && ip <= at && at - ip + MINMATCH <= q.length
    requires Due(j, w, t, qs, at, q.offset, now) == true
    ensures Thorough(j, w, t, qs + [q]) == true && Standing(j, w, t, qs + [q], now) == true
  {
    hide Stretched, FullLength, AllStretched, AllTaken, After, Then, Expand, Applicable, Encodable, Job.Text, Job.History, Job.Distinct, Small;
    if w.mode != FillOutput && j.Distinct() {
      OneMoreStretched(j, qs, anchor, q);
      OneMoreTaken(j, t, qs, anchor, q, at, now);
    }
  }

  /** The sequence of a match that does not fit. */
  lemma MatchTooLong(j: Job, w: Room, t: Tables, d: seq<byte>, token: int, qs: seq<Emitted>, anchor: int, ip: int, offset: int, n: nat, at: int, now: seq<int>)
    requires j.Valid() && j.Distinct() && Emitting(j, w, d, token, qs, anchor) == true && Thorough(j, w, t, qs) == true && w.mode != FillOutput
    requires Stretches(j, anchor, ip, offset) == true && n == FullLength(j, ip, offset) && MINMATCH <= n && 0 <= anchor && ip <= |j.mem|
    requires offset <= DISTANCE_MAX && Same(j.Text(), j.At(ip) - offset, j.At(ip), n) && ip <= at && at - ip + MINMATCH <= n
    requires Due(j, w, t, qs, at, offset, now) == true
    requires w.oend < token + |EncodeLiterals(j.mem[anchor..ip], 0)| + 2 + |LengthBytes(n - MINMATCH)| + 1 + LASTLITERALS
    ensures TooLong(j, w, t, qs + [Emitted(j.mem[anchor..ip], offset, n)]) == true
  {
    hide Job.Text, Job.History, Job.Distinct, Stretched, FullLength, AllStretched, AllTaken, Due, Standing, Encode, EncodeAll, EncodeLiterals, Same, LengthBytes, Expand, Applicable, Encodable, Small;
    ParsedMore(j, qs, anchor, ip, offset, n);
    var q := Emitted(j.mem[anchor..ip], offset, n);
    OneMoreThorough(j, w, t, qs, anchor, ip, q, at, now);
    SequenceSize(q);
    LiteralsSize(j.mem[ip + n..j.End()]);
    assert TooLongBehind(j, w, t, qs + [q], ip + n);
  }

  lemma SequenceSize(q: Emitted)
    requires q.offset <= DISTANCE_MAX && MINMATCH <= q.length
    ensures |Encode(q)| == |EncodeLiterals(q.literals, 0)| + 2 + |LengthBytes(q.length - MINMATCH)|
  {
    TokenChanges(q.literals, q.length - MINMATCH);
    hide EncodeLiterals;
  }

  // ----- One match -----

  /** Literals, offset and match length, each in its place, are one sequence. */
  lemma SequenceComplete(before: seq<byte>, d: seq<byte>, token: int, op: int, q: Emitted, end: int)
    requires q.offset <= DISTANCE_MAX && MINMATCH <= q.length
    requires 0 <= token < op && op + 2 <= end <= |d| == |before|
    requires before[token..op] == EncodeLiterals(q.literals, 0)
    requires forall i :: token < i < op ==> d[i] == before[i]
    requires d[token] == Token(|q.literals|, q.length - MINMATCH)
    requires d[op] == q.offset % 256 && d[op + 1] == q.offset / 256
    requires d[op + 2..end] == LengthBytes(q.length - MINMATCH)
    ensures d[token..end] == Encode(q)
  {
    hide EncodeLiterals, LengthBytes, Token;
    TokenChanges(q.literals, q.length - MINMATCH);
    SameSlice(d, before, token + 1, op);
    SliceOfSlice(before, token, op, 1, op - token);
    SplitSlice(d, token, token + 1, op);
    assert d[op..op + 2] == [q.offset % 256, q.offset / 256];
    SplitSlice(d, token, op, op + 2);
    SplitSlice(d, token, op + 2, end);
  }

  /** The match length changes nothing but the token. */
  lemma TokenChanges(literals: seq<byte>, code: nat)
    ensures |EncodeLiterals(literals, 0)| == |EncodeLiterals(literals, code)| > 0
    ensures EncodeLiterals(literals, code) == [Token(|literals|, code)] + EncodeLiterals(literals, 0)[1..]
  {
    var tail := LengthBytes(|literals|) + literals;
    assert EncodeLiterals(literals, 0) == [Token(|literals|, 0)] + tail;
    assert EncodeLiterals(literals, code) == [Token(|literals|, code)] + tail;
  }

  /** Removes the positions `[ip, filledIp]` from the table, so that only earlier ones remain. */
  method ClearPositions(j: Job, table: array<int>, ip: int, filledIp: int)
    requires j.Valid() && j.source < ip && filledIp <= j.End() - MFLIMIT && EntryOk(j, 0)
    requires TableOk(j, table[..], j.startIndex + (filledIp - j.source) + 1)
    modifies table
    ensures TableOk(j, table[..], Min(j.startIndex + (ip - j.source), j.startIndex + (filledIp - j.source) + 1))
  {
    var ptr := ip;
    ghost var t := table[..];
    while ptr <= filledIp
      invariant ip <= ptr && (ip <= filledIp ==> ptr <= filledIp + 1) && table.Length == TABLE_SIZE
      invariant forall h :: 0 <= h < Slots(j.tableType) ==> table[h] == 0 || table[h] == t[h]
      invariant forall h :: 0 <= h < Slots(j.tableType) && table[h] != 0 ==>
        !(j.startIndex + (ip - j.source) <= table[h] < j.startIndex + (ptr - j.source))
    {
      ghost var was := table[..];
      table[j.HashPosition(ptr)] := 0;
      forall h | 0 <= h < Slots(j.tableType) && table[h] != 0
        ensures !(j.startIndex + (ip - j.source) <= table[h] < j.startIndex + (ptr + 1 - j.source))
      {
        assert table[h] == was[h] == t[h];
      }
      ptr := ptr + 1;
    }
  }

  /** With FillOutput a match that is too long for the output is shortened until the last literals fit. */
  method FitMatch(j: Job, w: Room, table: array<int>, op: int, ip0: int, filledIp: int, matchCode0: nat, ghost last: int)
    returns (ok: bool, ip: int, matchCode: nat)
    requires j.Valid() && w.n == j.inputSize && j.source <= ip0 && ip0 + MINMATCH + matchCode0 <= j.End() - LASTLITERALS
    requires filledIp <= last < ip0 + MINMATCH + matchCode0 && last <= j.End() - MFLIMIT && last in {filledIp, ip0}
    requires TableOk(j, table[..], j.startIndex + (last - j.source) + 1)
    requires w.mode == FillOutput ==> op + 9 <= w.oend && EntryOk(j, 0)
    requires Budget(w, op, ip0 - j.source, 1005)
    requires w.mode == NotLimited ==> CompressBound(w.n) <= w.oend - w.dest
    modifies table
    ensures !ok ==> w.mode == LimitedOutput && w.oend - w.dest < CompressBound(w.n)
    ensures !ok || w.mode != FillOutput ==> table[..] == old(table[..])
    ensures !ok ==> w.oend < op + |LengthBytes(matchCode0)| + 1 + LASTLITERALS
    ensures ip == ip0 + MINMATCH + matchCode && matchCode <= matchCode0 && (!ok ==> matchCode == matchCode0)
    ensures ok ==> matchCode == matchCode0 || (w.mode == FillOutput && op + |LengthBytes(matchCode)| + 6 == w.oend)
    ensures ok ==> op + |LengthBytes(matchCode)| + 3 <= w.oend
    ensures ok && w.mode != NotLimited ==> op + |LengthBytes(matchCode)| + 1 + LASTLITERALS <= w.oend
    ensures ok ==> TableOk(j, table[..], Min(j.startIndex + (ip - j.source), j.startIndex + (last - j.source) + 1))
  {
    hide TableOk, EntryOk, Job.HashPosition;
    matchCode := matchCode0;
    ip := ip0 + MINMATCH + matchCode;
    ok := true;
    assert |LengthBytes(matchCode)| == (matchCode + 240) / 255;
    if w.mode != NotLimited && op + (1 + LASTLITERALS) + (matchCode + 240) / 255 > w.oend {
      if w.mode == FillOutput {
        var newMatchCode := 14 + (w.oend - op - 1 - LASTLITERALS) * 255;
        assert |LengthBytes(newMatchCode)| == (newMatchCode + 240) / 255 == w.oend - op - 1 - LASTLITERALS;
        ip := ip - (matchCode - newMatchCode);
        matchCode := newMatchCode;
        if ip <= filledIp {
          ClearPositions(j, table, ip, filledIp);
        }
      } else {
        ok := false;
      }
    }
  }

  /** The bytes of a match: offset, then length. */
  method PutMatch(dst: array<byte>, token: int, op0: int, offset: nat, matchCode: nat, ghost literals: seq<byte>) returns (op: int)
    requires 0 <= token < op0 && op0 + 2 + |LengthBytes(matchCode)| + 3 <= dst.Length && 1 <= offset <= DISTANCE_MAX
    requires dst[token..op0] == EncodeLiterals(literals, 0)
    modifies dst
    ensures op == op0 + 2 + |LengthBytes(matchCode)|
    ensures dst[token..op] == Encode(Emitted(literals, offset, matchCode + MINMATCH))
    ensures forall i :: 0 <= i < dst.Length && !(token <= i < op + 3) ==> dst[i] == old(dst[i])
  {
    hide LengthBytes, Token, Encode;
    ghost var before := dst[..];
    assert dst[token] == dst[token..op0][0] == Token(|literals|, 0);
    dst[op0], dst[op0 + 1] := offset % 256, offset / 256;
    op := WriteMatchLength(dst, token, op0 + 2, matchCode, |literals|);
    SequenceComplete(before, dst[..], token, op0, Emitted(literals, offset, matchCode + MINMATCH), op);
  }

  /** The offset of a match within one segment is the distance of the two pointers. */
  lemma OffsetIsDistance(j: Job, ip: int, m: int, lowLimit: int, offset: int, n: nat)
    requires j.Valid() && Genuine(j, ip, m, lowLimit, offset, n)
    ensures 1 <= offset <= DISTANCE_MAX && offset <= j.At(ip) && (!j.TwoSegments() ==> offset == ip - m)
  {
  }

  lemma GenuinePrefix(j: Job, ip: int, m: int, lowLimit: int, offset: int, n: nat, k: nat)
    requires j.Valid() && Genuine(j, ip, m, lowLimit, offset, n) && k <= n
    ensures Genuine(j, ip, m, lowLimit, offset, k) && Same(j.Text(), j.At(ip) - offset, j.At(ip), k)
  {
    hide Job.Text, Job.History;
    var t, p := j.At(ip) - offset, j.At(ip);
    SliceOfSlice(j.Text(), t, t + n, 0, k);
    SliceOfSlice(j.Text(), p, p + n, 0, k);
  }

  /** A match for which there is room. */
  method AppendMatch(j: Job, w: Room, dst: array<byte>, token: int, op0: int, anchor: int, ip: int, offset: nat, matchCode: nat,
                     ghost qs: seq<Emitted>)
    returns (op: int, ghost q: Emitted)
    requires j.Valid() && Emitting(j, w, dst[..], token, qs, anchor)
    requires anchor <= ip <= j.End() - MFLIMIT && ip + MINMATCH + matchCode <= j.End() - LASTLITERALS
    requires 0 <= w.dest <= token < op0 && op0 + 2 + |LengthBytes(matchCode)| + 3 <= w.oend <= dst.Length && 0 <= anchor && ip <= |j.mem|
    requires dst[token..op0] == EncodeLiterals(j.mem[anchor..ip], 0)
    requires 1 <= offset <= DISTANCE_MAX && offset <= j.At(ip) && (j.Distinct() ==> Same(j.Text(), j.At(ip) - offset, j.At(ip), MINMATCH + matchCode))
    requires w.mode != NotLimited ==> op0 + 2 + |LengthBytes(matchCode)| + 1 + LASTLITERALS <= w.oend
    requires w.mode == FillOutput ==> op0 + 2 + 1 + MFLIMIT - MINMATCH <= w.oend
    modifies dst
    ensures forall i :: 0 <= i < dst.Length && !(token <= i < w.oend) ==> dst[i] == old(dst[i])
    ensures op == op0 + 2 + |LengthBytes(matchCode)|
    ensures Emitting(j, w, dst[..], op, qs + [q], ip + MINMATCH + matchCode)
    ensures CanEnd(j, w, op, qs + [q], ip + MINMATCH + matchCode)
    ensures q == Emitted(j.mem[anchor..ip], offset, MINMATCH + matchCode)
  {
    hide Job.Text, Job.History, Job.Distinct, LengthBytes, EncodeLiterals, Emitting, Encode, CanEnd, Same;
    ghost var d := dst[..];
    q := Emitted(j.mem[anchor..ip], offset, MINMATCH + matchCode);
    op := PutMatch(dst, token, op0, offset, matchCode, j.mem[anchor..ip]);
    EmittingMore(j, w, d, token, qs, anchor, dst[..], op, ip, offset, MINMATCH + matchCode);
    MatchCanEnd(j, w, op, qs, q, op0 + 2, ip + MINMATCH + matchCode);
  }

  /** What is in the sequence of a match that is taken to be in the dictionary. */
  ghost predicate CountedIn(j: Job, ip: int, m: int, lowLimit: int, n: nat)
    requires j.Valid()
  {
    InDictionary(j, lowLimit) ==>
      && j.source <= ip <= j.End() - MFLIMIT && 0 <= m && j.dictionary + j.dictSize <= |j.mem|
      && n == CountedLength(j.mem, ip, m, j.dictionary + j.dictSize, j.source, j.End() - LASTLITERALS)
  }

  /**
   Offset and length of a match, as far as there is room behind `op`, where the length is to be written.
   If the length is so wrong that the match ends before positions that have been searched, the search is
   lost: it would find positions that are not behind it, which the source excludes by an assertion.
   */
  method MeasureMatch(j: Job, w: Room, table: array<int>, op: int, ip0: int, m: int, lowLimit: int, offset0: int,
                      filledIp: int, ghost n: nat)
    returns (outcome: Progress, ip: int, offset: int, matchCode: nat)
    requires j.Valid() && w.n == j.inputSize && j.source <= ip0
    requires MINMATCH <= n && ip0 + n - MINMATCH <= j.End() - MFLIMIT
    requires var last := ip0 + n - MINMATCH; filledIp <= last && last in {filledIp, ip0}
    requires Genuine(j, ip0, m, lowLimit, offset0, n)
    requires Budget(w, op, ip0 - j.source, 1005)
    requires TableOk(j, table[..], j.startIndex + (ip0 + n - MINMATCH - j.source) + 1)
    requires w.mode == FillOutput ==> op + 9 <= w.oend && EntryOk(j, 0)
    requires w.mode == NotLimited ==> CompressBound(w.n) <= w.oend - w.dest
    modifies table
    ensures outcome in {Written, NoRoom, Lost} && (outcome != Written || w.mode != FillOutput ==> table[..] == old(table[..]))
    ensures outcome == NoRoom ==> w.mode == LimitedOutput && w.oend - w.dest < CompressBound(w.n)
    ensures outcome == Lost ==> !j.Distinct()
    ensures outcome == Written ==> ip == ip0 + MINMATCH + matchCode <= j.End() - LASTLITERALS
    ensures outcome == Written ==> 1 <= offset <= DISTANCE_MAX && offset <= j.At(ip0) && offset == offset0
    ensures outcome == Written && j.Distinct() ==> Same(j.Text(), j.At(ip0) - offset, j.At(ip0), MINMATCH + matchCode) && (w.mode != FillOutput ==> n <= MINMATCH + matchCode)
    ensures outcome == Written && w.mode != FillOutput ==> CountedIn(j, ip0, m, lowLimit, MINMATCH + matchCode)
    ensures outcome != Lost && w.mode != FillOutput && j.Distinct() ==>
      && 1 <= offset0 <= j.At(ip0) && MINMATCH <= n <= MINMATCH + matchCode == FullLength(j, ip0, offset0)
      && Same(j.Text(), j.At(ip0) - offset0, j.At(ip0), MINMATCH + matchCode)
    ensures outcome == NoRoom ==> w.oend < op + |LengthBytes(matchCode)| + 1 + LASTLITERALS && 1 <= offset0 <= DISTANCE_MAX && ip == ip0 + MINMATCH + matchCode
    ensures outcome == Written ==> op + |LengthBytes(matchCode)| + 3 <= w.oend
    ensures outcome == Written && w.mode != NotLimited ==> op + |LengthBytes(matchCode)| + 1 + LASTLITERALS <= w.oend
    ensures outcome == Written ==> ip0 + n - MINMATCH < ip || (w.mode == FillOutput && op + |LengthBytes(matchCode)| + 6 == w.oend)
    ensures outcome == Written ==> TableOk(j, table[..], Min(j.startIndex + (ip - j.source), j.startIndex + (ip0 + n - MINMATCH - j.source) + 1))
  {
    hide Job.Text, Job.History, Job.Distinct, Genuine, TableOk, EntryOk, LengthBytes, Budget, Same;
    OffsetIsDistance(j, ip0, m, lowLimit, offset0, n);
    offset := if j.TwoSegments() then offset0 else ip0 - m;
    matchCode := MatchCode(j, ip0, m, lowLimit, offset0, n);
    ghost var full := MINMATCH + matchCode;
    ip := ip0 + MINMATCH + matchCode;
    if ip <= filledIp { return Lost, ip, offset, matchCode; }
    var ok;
    ok, ip, matchCode := FitMatch(j, w, table, op, ip0, filledIp, matchCode, ip0 + n - MINMATCH);
    outcome := if ok then Written else NoRoom;
    if j.Distinct() {
      GenuinePrefix(j, ip0, m, lowLimit, offset0, full, MINMATCH + matchCode);
    }
  }

  /** With FillOutput, a match at `op` would leave too little room for the last literals. */
  predicate Full(w: Room, op: int) { w.mode == FillOutput && op + 2 + 1 + MFLIMIT - MINMATCH > w.oend }

  /** The section `_next_match`: a match at `ip0` of at least `n` bytes, behind its literals. */
  method WriteMatch(j: Job, w: Room, dst: array<byte>, table: array<int>, token: int, op0: int, anchor: int, ip0: int,
                    m: int, lowLimit: int, offset0: int, filledIp: int, ghost n: nat, ghost qs: seq<Emitted>, ghost t: Tables)
    returns (outcome: Progress, op: int, ip: int, ghost q: Emitted)
    requires j.Valid() && Emitting(j, w, dst[..], token, qs, anchor)
    requires anchor <= ip0 && MINMATCH <= n && ip0 + n - MINMATCH <= j.End() - MFLIMIT
    requires var last := ip0 + n - MINMATCH; Full(w, op0) || (filledIp <= last && last in {filledIp, ip0})
    requires Genuine(j, ip0, m, lowLimit, offset0, n)
    requires token < op0 == token + |EncodeLiterals(j.mem[anchor..ip0], 0)| && op0 + 5 <= w.oend
    requires dst[token..op0] == EncodeLiterals(j.mem[anchor..ip0], 0)
    requires Budget(w, op0, ip0 - j.source, 495)
    requires TableOk(j, table[..], j.startIndex + (ip0 + n - MINMATCH - j.source) + 1)
    requires w.mode == FillOutput ==> EntryOk(j, 0)
    requires Thorough(j, w, t, qs) == true && Stretches(j, anchor, ip0, offset0) == true
    requires Due(j, w, t, qs, ip0 + n - MINMATCH, offset0, table[..]) == true
    modifies dst, table
    ensures forall i :: 0 <= i < dst.Length && !(token <= i < w.oend) ==> dst[i] == old(dst[i])
    ensures outcome.NoRoom? ==> w.mode == LimitedOutput && w.oend - w.dest < CompressBound(w.n)
    ensures outcome.NoRoom? && j.Distinct() ==>
      TooLong(j, w, t, qs + [q]) == true && |q.literals| == ip0 - anchor && q.offset == offset0 && n <= q.length
    ensures outcome.Lost? ==> !j.Distinct()
    ensures outcome.Rewind? ==> w.mode == FillOutput && op == token
    ensures !outcome.Written? ==> table[..] == old(table[..])
    ensures outcome.Written? ==> token < op && ip0 + MINMATCH <= ip <= j.End() - LASTLITERALS
    ensures outcome.Written? && w.mode != FillOutput ==>
      0 <= anchor && ip0 <= |j.mem| && q.literals == j.mem[anchor..ip0] && q.offset == offset0 && (j.Distinct() ==> n <= q.length) && CountedIn(j, ip0, m, lowLimit, q.length)
    ensures outcome.Written? ==> !Full(w, op0) && (ip0 + n - MINMATCH < ip || Full(w, op + 1))
    ensures outcome.Written? ==> Emitting(j, w, dst[..], op, qs + [q], ip) && CanEnd(j, w, op, qs + [q], ip) && Thorough(j, w, t, qs + [q]) == true && Standing(j, w, t, qs + [q], table[..]) == true
    ensures outcome.Written? ==> TableOk(j, table[..], Min(j.startIndex + (ip - j.source), j.startIndex + (ip0 + n - MINMATCH - j.source) + 1))
  {
    hide Job.Text, Job.History, Job.Distinct, CountedIn, Genuine, TableOk, EntryOk, LengthBytes, EncodeLiterals, Emitting, Encode, CanEnd, Budget, Same, FullLength, Thorough, Due, Standing, Stretches, TooLong, Parsed;
    ghost var now := table[..];
    MoreBudget(w, op0, ip0 - j.source);
    op, ip := op0, ip0;
    q := Emitted([], 0, 0);
    RoomFits(j, w, dst[..], token, qs, anchor);
    if Full(w, op) {
      return Rewind, token, ip, q;
    }
    var offset, matchCode;
    outcome, ip, offset, matchCode := MeasureMatch(j, w, table, op0 + 2, ip0, m, lowLimit, offset0, filledIp, n);
    if !outcome.Written? {
      if outcome.NoRoom? && j.Distinct() {
        q := Emitted(j.mem[anchor..ip0], offset0, MINMATCH + matchCode);
        MatchTooLong(j, w, t, dst[..], token, qs, anchor, ip0, offset0, MINMATCH + matchCode, ip0 + n - MINMATCH, now);
      }
      return outcome, op, ip, q;
    }
    EmittingParsed(j, w, dst[..], token, qs, anchor);
    op, q := AppendMatch(j, w, dst, token, op0, anchor, ip0, offset, matchCode, qs);
    EmittingParsed(j, w, dst[..], op, qs + [q], ip);
    OneMoreThorough(j, w, t, qs, anchor, ip0, q, ip0 + n - MINMATCH, now);
    if w.mode == FillOutput { NoStanding(j, w, t, qs + [q], table[..]); }
  }

  lemma NoStanding(j: Job, w: Room, t: Tables, qs: seq<Emitted>, now: seq<int>)
    requires j.Valid() && w.mode == FillOutput
    ensures Standing(j, w, t, qs, now) == true
  {
  }

  lemma MatchCanEnd(j: Job, w: Room, op: int, qs: seq<Emitted>, q: Emitted, op1: int, ip: int)
    requires MINMATCH <= q.length && ip - q.length <= j.End() - MFLIMIT && ip <= j.End() - LASTLITERALS
    requires op == op1 + |LengthBytes(q.length - MINMATCH)|
    requires w.mode != NotLimited ==> op + 1 + LASTLITERALS <= w.oend
    requires w.mode == FillOutput ==> op1 + 1 + MFLIMIT - MINMATCH <= w.oend
    ensures CanEnd(j, w, op, qs + [q], ip)
  {
  }

  lemma MoreBudget(w: Room, op: int, consumed: int)
    requires Budget(w, op, consumed, 495)
    ensures Budget(w, op + 2, consumed, 1005)
  {
  }

  lemma EmittingParsed(j: Job, w: Room, d: seq<byte>, op: int, qs: seq<Emitted>, anchor: int)
    requires j.Valid() && Emitting(j, w, d, op, qs, anchor)
    ensures Parsed(j, qs, anchor) == true
  {
  }

  lemma RoomFits(j: Job, w: Room, d: seq<byte>, op: int, qs: seq<Emitted>, anchor: int)
    requires j.Valid() && Emitting(j, w, d, op, qs, anchor)
    ensures w.n == j.inputSize && w.Fits(|d|) && w.dest <= op <= w.oend && j.source <= anchor <= j.End()
  {
  }

  // ----- The loops -----

  /** Positions that are in the table lie far enough from the end of the input. */
  ghost predicate TableKept(j: Job, t: seq<int>)
    requires j.Valid()
  {
    exists b :: TableOk(j, t, b) && b <= j.startIndex + j.inputSize - MFLIMIT + 1
  }

  /** A token without literals. */
  method EmptyLiterals(j: Job, w: Room, dst: array<byte>, op0: int, ip: int, ghost qs: seq<Emitted>) returns (token: int, op: int)
    requires j.Valid() && Emitting(j, w, dst[..], op0, qs, ip) && op0 < w.oend
    modifies dst
    ensures token == op0 && op == op0 + 1
    ensures forall i :: 0 <= i < dst.Length && i != token ==> dst[i] == old(dst[i])
    ensures Emitting(j, w, dst[..], op0, qs, ip)
    ensures 0 <= ip <= |j.mem| && |EncodeLiterals(j.mem[ip..ip], 0)| == 1 && dst[token..op] == EncodeLiterals(j.mem[ip..ip], 0)
  {
    ghost var d := dst[..];
    RoomFits(j, w, d, op0, qs, ip);
    hide Emitting, Job.Text, Job.History, EncodeLiterals;
    token := op0;
    op := op0 + 1;
    dst[token] := 0;
    EmittingKept(j, w, d, dst[..], op0, qs, ip);
    NoLiterals(j.mem[ip..ip]);
    assert dst[token..op] == [dst[token]];
  }

  lemma NoLiterals(literals: seq<byte>)
    requires literals == []
    ensures EncodeLiterals(literals, 0) == [0]
  {
  }

  /** After a match there is room for a token and five more bytes. */
  lemma RoomBehindMatch(j: Job, w: Room, d: seq<byte>, op: int, qs: seq<Emitted>, anchor: int)
    requires j.Valid() && Emitting(j, w, d, op, qs, anchor) && CanEnd(j, w, op, qs, anchor) && qs != []
    ensures op + 6 <= w.oend && Budget(w, op, anchor - j.source, 0)
  {
    EmittingBudget(j, w, d, op, qs, anchor);
  }

  /** The sequence of a match that was found at `found`, behind literals from `anchor` on. */
  predicate Covers(q: Emitted, anchor: int, found: int, offset: int) {
    q.offset == offset && |q.literals| <= found - anchor && found - anchor + MINMATCH <= |q.literals| + q.length
  }

  /** Some sequences, and behind them the one of a match that was found. */
  predicate GoesOn(qs: seq<Emitted>, qs0: seq<Emitted>, anchor: int, found: int, offset: int) {
    |qs0| < |qs| && qs[..|qs0|] == qs0 && Covers(qs[|qs0|], anchor, found, offset)
  }

  lemma MatchGoesOn(qs: seq<Emitted>, qs0: seq<Emitted>, q: Emitted, anchor: int, ip: int, n: nat, found: int, offset: int, first: bool)
    requires anchor <= ip && MINMATCH <= n && ip + n - MINMATCH == found
    requires if first then qs == qs0 && |q.literals| == ip - anchor && q.offset == offset && n <= q.length else GoesOn(qs, qs0, anchor, found, offset) == true
    ensures GoesOn(qs + [q], qs0, anchor, found, offset) == true
  {
    if first {
      assert (qs + [q])[..|qs0|] == qs0;
    } else {
      assert (qs + [q])[..|qs0|] == qs[..|qs0|] && (qs + [q])[|qs0|] == qs[|qs0|];
    }
  }

  /** Some sequences, and behind them the one of a match at `ip`, as it is counted if it is taken to be in the dictionary. */
  ghost predicate Takes(j: Job, qs: seq<Emitted>, qs0: seq<Emitted>, anchor: int, ip: int, m: int, lowLimit: int, offset: int)
    requires j.Valid()
  {
    && |qs0| < |qs| && qs[..|qs0|] == qs0
    && (InDictionary(j, lowLimit) ==>
          && 0 <= anchor <= ip <= |j.mem| && qs[|qs0|].literals == j.mem[anchor..ip] && qs[|qs0|].offset == offset
          && CountedIn(j, ip, m, lowLimit, qs[|qs0|].length))
  }

  lemma TakesPrefix(j: Job, qs: seq<Emitted>, qs0: seq<Emitted>, anchor: int, ip: int, m: int, lowLimit: int, offset: int)
    requires j.Valid() && Takes(j, qs, qs0, anchor, ip, m, lowLimit, offset) == true
    ensures qs0 <= qs && |qs0| < |qs| && (qs0 == [] ==> Takes(j, qs[..1], [], anchor, ip, m, lowLimit, offset) == true)
  {
    hide CountedIn;
  }

  lemma MatchTakes(j: Job, qs: seq<Emitted>, qs0: seq<Emitted>, q: Emitted, anchor: int, ip: int, m: int, lowLimit: int, offset: int, first: bool)
    requires j.Valid() && 0 <= anchor <= ip <= |j.mem|
    requires if first then
               qs == qs0 && q.literals == j.mem[anchor..ip] && q.offset == offset && CountedIn(j, ip, m, lowLimit, q.length) == true
             else
               Takes(j, qs, qs0, anchor, ip, m, lowLimit, offset) == true
    ensures Takes(j, qs + [q], qs0, anchor, ip, m, lowLimit, offset) == true
  {
    hide CountedIn;
    if first {
      assert (qs + [q])[..|qs0|] == qs0;
    } else {
      assert (qs + [q])[..|qs0|] == qs[..|qs0|] && (qs + [q])[|qs0|] == qs[|qs0|];
    }
  }

  /** Behind a match: two positions go into the table, and the next match may follow at once, without literals. */
  method TryNext(j: Job, w: Room, dst: array<byte>, table: array<int>, dictTable: seq<int>, op0: int, ip: int, ghost b: int, ghost qs: seq<Emitted>, ghost t: Tables)
    returns (found: bool, m: int, lowLimit: int, offset: int, token: int, op: int)
    requires j.Valid() && Emitting(j, w, dst[..], op0, qs, ip) == true && CanEnd(j, w, op0, qs, ip) == true && qs != []
    requires j.source + 2 <= ip <= j.End() - MFLIMIT && b <= j.startIndex + (ip - j.source) && TableOk(j, table[..], b) == true
    requires j.mode == UsingDictCtx ==> DictTableOk(j, dictTable) == true
    requires Standing(j, w, t, qs, table[..]) == true && t.dict == dictTable && |t.own| == TABLE_SIZE
    modifies dst, table
    ensures TableOk(j, table[..], j.startIndex + (ip - j.source) + 1) == true
    ensures if found then Due(j, w, t, qs, ip, offset, table[..]) == true else Sought(j, w, t, qs, ip + 1, table[..]) == true
    ensures Emitting(j, w, dst[..], op0, qs, ip) == true
    ensures forall i :: 0 <= i < dst.Length && !(op0 <= i < w.oend) ==> dst[i] == old(dst[i])
    ensures if found then
        && Genuine(j, ip, m, lowLimit, offset, MINMATCH) == true && token == op0 && op0 < op == op0 + |EncodeLiterals(j.mem[ip..ip], 0)| && op + 5 <= w.oend
        && dst[token..op] == EncodeLiterals(j.mem[ip..ip], 0) && Budget(w, op, ip - j.source, 495) == true && Stretches(j, ip, ip, offset) == true
      else
        token == op == op0
  {
    hide Job.Text, Job.History, Genuine, TableOk, DictTableOk, EntryOk, EncodeLiterals, Emitting, CanEnd, Hit, HitOffset, Stretched, FullLength, Standing, Due, Sought, Parsed;
    RoomFits(j, w, dst[..], op0, qs, ip);
    EmittingParsed(j, w, dst[..], op0, qs, ip);
    TableSize(j, table[..], b);
    if j.mode == UsingDictCtx { DictSize(j, dictTable); }
    ThenAtOnce(j, w, t, qs, ip, table[..]);
    token, op := op0, op0;
    PutPosition(j, table, ip - 2, b);
    found, m, lowLimit, offset := TryPosition(j, table, dictTable, ip, Max(b, j.startIndex + (ip - 2 - j.source) + 1));
    if !found { return; }
    FullIsStretched(j, ip, ip, m, lowLimit, offset);
    RoomBehindMatch(j, w, dst[..], op, qs, ip);
    token, op := EmptyLiterals(j, w, dst, op, ip, qs);
  }

  /**
   A match, and the matches that follow it without literals. The outcome is `Written` when the
   search goes on behind `ip`, and `Rewind` when it is time for the last literals.
   */
  method WriteMatches(j: Job, w: Room, dst: array<byte>, table: array<int>, dictTable: seq<int>, token0: int, op0: int,
                      anchor0: int, ip0: int, m0: int, lowLimit0: int, offset0: int, filledIp: int, ghost n0: nat, ghost qs0: seq<Emitted>, ghost t: Tables)
    returns (outcome: Progress, op: int, ip: int, anchor: int, ghost qs: seq<Emitted>)
    requires j.Valid() && Emitting(j, w, dst[..], token0, qs0, anchor0) && CanEnd(j, w, token0, qs0, anchor0)
    requires anchor0 <= ip0 && MINMATCH <= n0 && ip0 + n0 - MINMATCH == filledIp <= j.End() - MFLIMIT
    requires Genuine(j, ip0, m0, lowLimit0, offset0, n0)
    requires token0 < op0 == token0 + |EncodeLiterals(j.mem[anchor0..ip0], 0)| && op0 + 5 <= w.oend
    requires dst[token0..op0] == EncodeLiterals(j.mem[anchor0..ip0], 0)
    requires Budget(w, op0, ip0 - j.source, 495)
    requires TableOk(j, table[..], j.startIndex + (filledIp - j.source) + 1)
    requires j.mode == UsingDictCtx ==> DictTableOk(j, dictTable)
    requires w.mode == FillOutput ==> EntryOk(j, 0)
    requires Thorough(j, w, t, qs0) == true && Stretches(j, anchor0, ip0, offset0) == true
    requires Due(j, w, t, qs0, filledIp, offset0, table[..]) == true && t.dict == dictTable && |t.own| == TABLE_SIZE
    modifies dst, table
    ensures forall i :: 0 <= i < dst.Length && !(token0 <= i < w.oend) ==> dst[i] == old(dst[i])
    ensures outcome.NoRoom? ==> w.mode == LimitedOutput && w.oend - w.dest < CompressBound(w.n)
    ensures outcome.NoRoom? && j.Distinct() ==> TooLong(j, w, t, qs) == true && GoesOn(qs, qs0, anchor0, filledIp, offset0) == true
    ensures outcome.Lost? ==> !j.Distinct()
    ensures outcome.Written? || outcome.Rewind? ==> Emitting(j, w, dst[..], op, qs, anchor) && CanEnd(j, w, op, qs, anchor) && Thorough(j, w, t, qs) == true
    ensures outcome.Written? ==> Sought(j, w, t, qs, ip + 1, table[..]) == true
    ensures outcome.Rewind? ==> Ended(j, w, t, qs) == true
    ensures outcome.Written? ==> anchor == ip && ip0 < ip <= j.End() - MFLIMIT
    ensures outcome.Written? ==> TableOk(j, table[..], j.startIndex + (ip - j.source) + 1)
    ensures TableKept(j, table[..])
    ensures w.mode != FillOutput && (outcome.Written? || outcome.Rewind?) ==>
      (j.Distinct() ==> GoesOn(qs, qs0, anchor0, filledIp, offset0)) && Takes(j, qs, qs0, anchor0, ip0, m0, lowLimit0, offset0)
  {
    hide Job.Text, Job.History, Job.Distinct, CountedIn, Takes, Genuine, TableOk, EntryOk, LengthBytes, EncodeLiterals, Emitting, CanEnd, Encode, GoesOn, Covers, Budget, Thorough, Due, Standing, Sought, Ended, Stretches, TooLong, Parsed;
    anchor, ip, op, qs := anchor0, ip0, op0, qs0;
    var token, m, lowLimit, offset := token0, m0, lowLimit0, offset0;
    ghost var n, first := n0, true;
    ghost var q;
    RoomFits(j, w, dst[..], token, qs, anchor);
    while true
      invariant Emitting(j, w, dst[..], token, qs, anchor) && CanEnd(j, w, token, qs, anchor)
      invariant Thorough(j, w, t, qs) == true && Stretches(j, anchor, ip, offset) == true
      invariant Due(j, w, t, qs, ip + n - MINMATCH, offset, table[..]) == true
      invariant first ==> qs == qs0 && anchor == anchor0 && ip == ip0 && n == n0 && offset == offset0 && m == m0 && lowLimit == lowLimit0
      invariant !first && w.mode != FillOutput ==>
        (j.Distinct() ==> GoesOn(qs, qs0, anchor0, filledIp, offset0) == true) && Takes(j, qs, qs0, anchor0, ip0, m0, lowLimit0, offset0) == true
      invariant j.source <= anchor <= ip && ip0 <= ip && MINMATCH <= n && ip + n - MINMATCH <= j.End() - MFLIMIT
      invariant Full(w, op) || (filledIp <= ip + n - MINMATCH && ip + n - MINMATCH in {filledIp, ip})
      invariant Genuine(j, ip, m, lowLimit, offset, n)
      invariant token0 <= token < op == token + |EncodeLiterals(j.mem[anchor..ip], 0)| && op + 5 <= w.oend
      invariant dst[token..op] == EncodeLiterals(j.mem[anchor..ip], 0)
      invariant Budget(w, op, ip - j.source, 495)
      invariant TableOk(j, table[..], j.startIndex + (ip + n - MINMATCH - j.source) + 1)
      invariant forall i :: 0 <= i < dst.Length && !(token0 <= i < w.oend) ==> dst[i] == old(dst[i])
      decreases j.End() - ip
    {
      ghost var d, qs', anchor', ip' := dst[..], qs, anchor, ip;
      outcome, op, ip, q := WriteMatch(j, w, dst, table, token, op, anchor, ip, m, lowLimit, offset, filledIp, n, qs, t);
      if outcome.NoRoom? {
        if j.Distinct() { MatchGoesOn(qs, qs0, q, anchor0, ip0, n0, filledIp, offset0, first); }
        qs := qs + [q];
        return;
      }
      if !outcome.Written? {
        EmittingKept(j, w, d, dst[..], token, qs, anchor);
        if outcome.Rewind? { EndsToBeFilled(j, w, t, qs); }
        return;
      }
      if w.mode != FillOutput {
        if j.Distinct() { MatchGoesOn(qs, qs0, q, anchor0, ip0, n0, filledIp, offset0, first); }
        MatchTakes(j, qs, qs0, q, anchor0, ip0, m0, lowLimit0, offset0, first);
      }
      first := false;
      qs := qs + [q];
      anchor := ip;
      if ip >= j.End() - MFLIMIT + 1 {
        EmittingParsed(j, w, dst[..], op, qs, anchor);
        EndsHere(j, w, t, qs, anchor, table[..]);
        return Rewind, op, ip, anchor, qs;
      }
      ghost var b := Min(j.startIndex + (ip - j.source), j.startIndex + (ip' + n - MINMATCH - j.source) + 1);
      var found;
      found, m, lowLimit, offset, token, op := TryNext(j, w, dst, table, dictTable, op, ip, b, qs, t);
      if !found { return; }
      n := MINMATCH;
    }
  }

  lemma EndsToBeFilled(j: Job, w: Room, t: Tables, qs: seq<Emitted>)
    requires j.Valid() && w.mode == FillOutput
    ensures Ended(j, w, t, qs) == true
  {
  }

  /** One search, and what is written for it. With `Written`, the search goes on behind `ip`. */
  method FindAndWrite(j: Job, w: Room, dst: array<byte>, table: array<int>, dictTable: seq<int>, op0: int, anchor0: int,
                      ip0: int, ghost b: int, ghost qs0: seq<Emitted>, ghost t0: Tables)
    returns (outcome: Progress, op: int, ip: int, anchor: int, ghost qs: seq<Emitted>)
    requires j.Valid() && Emitting(j, w, dst[..], op0, qs0, anchor0) && CanEnd(j, w, op0, qs0, anchor0)
    requires anchor0 <= ip0 && j.source < ip0 <= j.End() - MFLIMIT + 1 && b <= j.startIndex + (ip0 - j.source)
    requires TableOk(j, table[..], b)
    requires j.mode == UsingDictCtx ==> DictTableOk(j, dictTable)
    requires w.mode == FillOutput ==> EntryOk(j, 0)
    requires Thorough(j, w, t0, qs0) == true && Sought(j, w, t0, qs0, ip0, table[..]) == true && t0.dict == dictTable && |t0.own| == TABLE_SIZE
    modifies dst, table
    ensures forall i :: 0 <= i < dst.Length && !(w.dest <= i < w.oend) ==> dst[i] == old(dst[i])
    ensures outcome.NoRoom? ==> w.mode == LimitedOutput && w.oend - w.dest < CompressBound(w.n)
    ensures outcome.NoRoom? && j.Distinct() ==> TooLong(j, w, t0, qs) == true
    ensures outcome.Lost? ==> !j.Distinct()
    ensures outcome.Written? || outcome.Rewind? ==> Emitting(j, w, dst[..], op, qs, anchor) && CanEnd(j, w, op, qs, anchor) && Thorough(j, w, t0, qs) == true
    ensures outcome.Written? ==> Sought(j, w, t0, qs, ip + 1, table[..]) == true
    ensures outcome.Rewind? ==> Ended(j, w, t0, qs) == true
    ensures outcome.Written? ==> anchor == ip && anchor0 < ip && j.source <= ip <= j.End() - MFLIMIT
    ensures outcome.Written? ==> TableOk(j, table[..], j.startIndex + (ip - j.source) + 1)
    ensures TableKept(j, table[..])
    ensures w.mode != FillOutput && (outcome.Written? || outcome.Rewind? || (outcome.NoRoom? && j.Distinct())) ==> qs0 <= qs
    ensures table.Length == TABLE_SIZE
    ensures w.mode != FillOutput && j.Distinct() && ip0 <= j.End() - MFLIMIT && Hit(j, old(table[..]), dictTable, ip0) ==>
      GoesOn(qs, qs0, anchor0, ip0, HitOffset(j, old(table[..]), dictTable, ip0))
    ensures w.mode != FillOutput && (outcome.Written? || outcome.Rewind?) && ip0 <= j.End() - MFLIMIT && SecondHit(j, old(table[..]), dictTable, ip0) ==>
      SecondTaken(j, old(table[..]), dictTable, ip0, qs, qs0, anchor0)
  {
    hide Job.Text, Job.History, Job.Distinct, CountedIn, Takes, GoesOn, Genuine, TableOk, EntryOk, LengthBytes, EncodeLiterals, Emitting, CanEnd, Encode, Hit, HitOffset, HitAddress, WithPosition, Thorough, Due, Sought, Ended, SearchFrom, Stretched, FullLength, TooLong;
    op, anchor, qs := op0, anchor0, qs0;
    RoomFits(j, w, dst[..], op, qs, anchor);
    EmittingBudget(j, w, dst[..], op, qs, anchor);
    var found, m, lowLimit, offset;
    ghost var now := table[..];
    found, ip, m, lowLimit, offset := FindMatch(j, table, dictTable, ip0, b);
    SearchTold(j, w, t0, qs, ip0, now, SearchEnd(found, ip, offset, table[..]));
    if !found {
      return Rewind, op, ip, anchor, qs;
    }
    var filledIp := ip;
    LimitIsSource(j, ip, m, lowLimit, offset);
    ip, m := CatchUp(j, anchor, ip, m, lowLimit, offset);
    if ip0 <= j.End() - MFLIMIT && SecondHit(j, old(table[..]), dictTable, ip0) { NotMovedBack(j, old(table[..]), dictTable, ip0, ip, m); }
    GenuinePrefix(j, ip, m, lowLimit, offset, MINMATCH + (filledIp - ip), MINMATCH);
    FullIsStretched(j, anchor, ip, m, lowLimit, offset);
    ghost var ip1 := ip;
    outcome, op, ip, anchor, qs := WriteFound(j, w, dst, table, dictTable, op, anchor, ip, m, lowLimit, offset, filledIp, qs, t0);
    if w.mode != FillOutput && (outcome.Written? || outcome.Rewind?) { TakesPrefix(j, qs, qs0, anchor0, ip1, m, lowLimit, offset); }
    if outcome.NoRoom? && j.Distinct() { GoesOnPrefix(qs, qs0, anchor0, filledIp, offset); }
  }

  /** The literals in front of a match that was found at `filledIp`, and the matches from there on. */
  method WriteFound(j: Job, w: Room, dst: array<byte>, table: array<int>, dictTable: seq<int>, op0: int, anchor0: int, ip0: int,
                    m: int, lowLimit: int, offset: int, filledIp: int, ghost qs0: seq<Emitted>, ghost t: Tables)
    returns (outcome: Progress, op: int, ip: int, anchor: int, ghost qs: seq<Emitted>)
    requires j.Valid() && Emitting(j, w, dst[..], op0, qs0, anchor0) == true && CanEnd(j, w, op0, qs0, anchor0) == true
    requires 0 <= anchor0 <= ip0 <= filledIp <= j.End() - MFLIMIT && ip0 <= |j.mem| && j.source < filledIp
    requires Genuine(j, ip0, m, lowLimit, offset, MINMATCH + (filledIp - ip0)) == true
    requires TableOk(j, table[..], j.startIndex + (filledIp - j.source) + 1) == true
    requires j.mode == UsingDictCtx ==> DictTableOk(j, dictTable) == true
    requires w.mode == FillOutput ==> EntryOk(j, 0) == true
    requires Thorough(j, w, t, qs0) == true && Stretches(j, anchor0, ip0, offset) == true
    requires Due(j, w, t, qs0, filledIp, offset, table[..]) == true && t.dict == dictTable && |t.own| == TABLE_SIZE
    modifies dst, table
    ensures forall i :: 0 <= i < dst.Length && !(w.dest <= i < w.oend) ==> dst[i] == old(dst[i])
    ensures outcome.NoRoom? ==> w.mode == LimitedOutput && w.oend - w.dest < CompressBound(w.n)
    ensures outcome.NoRoom? && j.Distinct() ==> TooLong(j, w, t, qs) == true && GoesOn(qs, qs0, anchor0, filledIp, offset) == true
    ensures outcome.Lost? ==> !j.Distinct()
    ensures outcome.Written? || outcome.Rewind? ==> Emitting(j, w, dst[..], op, qs, anchor) == true && CanEnd(j, w, op, qs, anchor) == true && Thorough(j, w, t, qs) == true
    ensures outcome.Written? ==> Sought(j, w, t, qs, ip + 1, table[..]) == true
    ensures outcome.Rewind? ==> Ended(j, w, t, qs) == true
    ensures outcome.Written? ==> anchor == ip && ip0 < ip <= j.End() - MFLIMIT
    ensures outcome.Written? ==> TableOk(j, table[..], j.startIndex + (ip - j.source) + 1) == true
    ensures TableKept(j, table[..]) == true && table.Length == TABLE_SIZE
    ensures w.mode != FillOutput && (outcome.Written? || outcome.Rewind?) ==>
      (j.Distinct() ==> GoesOn(qs, qs0, anchor0, filledIp, offset) == true) && Takes(j, qs, qs0, anchor0, ip0, m, lowLimit, offset) == true
  {
    hide Job.Text, Job.History, Job.Distinct, CountedIn, Takes, GoesOn, Genuine, TableOk, DictTableOk, EntryOk, LengthBytes, EncodeLiterals, Emitting, CanEnd, Encode, Thorough, Due, Sought, Ended, Stretched, FullLength, TooLong;
    op, anchor, ip, qs := op0, anchor0, ip0, qs0;
    RoomFits(j, w, dst[..], op, qs, anchor);
    EmittingBudget(j, w, dst[..], op, qs, anchor);
    TableSize(j, table[..], j.startIndex + (filledIp - j.source) + 1);
    ghost var d := dst[..];
    outcome, op := WriteLiterals(w, dst, op, j.mem, anchor, ip, j.source);
    EmittingKept(j, w, d, dst[..], op0, qs, anchor);
    if outcome.NoRoom? && j.Distinct() {
      qs := FirstTooLong(j, w, t, dst[..], op0, qs, anchor, ip, m, lowLimit, offset, filledIp, table[..]);
      return;
    }
    if !outcome.Written? {
      if outcome.Rewind? { EndsToBeFilled(j, w, t, qs); }
      return;
    }
    assert op0 < op by { NotEmpty(j.mem[anchor..ip]); }
    outcome, op, ip, anchor, qs := WriteMatches(j, w, dst, table, dictTable, op0, op, anchor, ip, m, lowLimit, offset,
                                                filledIp, MINMATCH + (filledIp - ip), qs, t);
  }

  lemma GoesOnPrefix(qs: seq<Emitted>, qs0: seq<Emitted>, anchor: int, found: int, offset: int)
    requires GoesOn(qs, qs0, anchor, found, offset) == true
    ensures qs0 <= qs
  {
  }

  /** The sequence of a match whose literals do not fit. */
  lemma FirstTooLong(j: Job, w: Room, t: Tables, d: seq<byte>, op: int, qs: seq<Emitted>, anchor: int, ip: int, m: int, lowLimit: int, offset: int, found: int, now: seq<int>)
    returns (qs': seq<Emitted>)
    requires j.Valid() && j.Distinct() && Emitting(j, w, d, op, qs, anchor) == true && Thorough(j, w, t, qs) == true && w.mode != FillOutput
    requires Due(j, w, t, qs, found, offset, now) == true
    requires Stretches(j, anchor, ip, offset) == true && 0 <= anchor <= ip <= found <= j.End() - MFLIMIT && ip <= |j.mem|
    requires Genuine(j, ip, m, lowLimit, offset, MINMATCH + (found - ip)) == true
    requires w.oend < op + |EncodeLiterals(j.mem[anchor..ip], 0)| + 2 + 1 + LASTLITERALS
    ensures TooLong(j, w, t, qs') == true && GoesOn(qs', qs, anchor, found, offset) == true
  {
    hide Job.Text, Job.History, Job.Distinct, EncodeLiterals, Emitting, Thorough, Due, Stretched, FullLength, TooLong, GoesOn, LengthBytes, Same;
    var n := FullLength(j, ip, offset);
    FullMatch(j, ip, m, lowLimit, offset, MINMATCH + (found - ip));
    var q := Emitted(j.mem[anchor..ip], offset, n);
    qs' := qs + [q];
    MatchTooLong(j, w, t, d, op, qs, anchor, ip, offset, n, found, now);
    MatchGoesOn(qs, qs, q, anchor, ip, MINMATCH + (found - ip), found, offset, true);
  }

  /** The position `ip` finds nothing, and the next one an acceptable candidate that cannot be moved back, where the dictionary begins with the input. */
  ghost predicate SecondHit(j: Job, t: seq<int>, dictTable: seq<int>, ip: int)
    requires j.Valid() && j.source <= ip <= j.End() - MFLIMIT && |t| == TABLE_SIZE && (j.mode == UsingDictCtx ==> |dictTable| == TABLE_SIZE)
  {
    && ip + j.acceleration <= j.End() - MFLIMIT && j.TwoSegments() && j.dictionary == j.source
    && !Hit(j, t, dictTable, ip) && Hit(j, WithPosition(j, t, ip), dictTable, ip + 1)
    && var m := HitAddress(j, WithPosition(j, t, ip), dictTable, ip + 1); 0 < m <= |j.mem| && j.mem[m - 1] != j.mem[ip]
  }

  /** Then its sequence comes next. */
  ghost predicate SecondTaken(j: Job, t: seq<int>, dictTable: seq<int>, ip: int, qs: seq<Emitted>, qs0: seq<Emitted>, anchor: int)
    requires j.Valid() && j.source <= ip <= j.End() - MFLIMIT && |t| == TABLE_SIZE && (j.mode == UsingDictCtx ==> |dictTable| == TABLE_SIZE)
  {
    var t' := WithPosition(j, t, ip);
    Takes(j, qs, qs0, anchor, ip + 1, HitAddress(j, t', dictTable, ip + 1), j.source, HitOffset(j, t', dictTable, ip + 1))
  }

  lemma SecondFirst(j: Job, t: seq<int>, dictTable: seq<int>, ip: int, qs: seq<Emitted>)
    requires j.Valid() && j.source <= ip <= j.End() - MFLIMIT && |t| == TABLE_SIZE && (j.mode == UsingDictCtx ==> |dictTable| == TABLE_SIZE)
    requires SecondTaken(j, t, dictTable, ip, qs, [], j.source)
    ensures qs != [] && SecondTaken(j, t, dictTable, ip, qs[..1], [], j.source)
  {
    hide Takes, HitOffset, HitAddress;
    var t' := WithPosition(j, t, ip);
    TakesPrefix(j, qs, [], j.source, ip + 1, HitAddress(j, t', dictTable, ip + 1), j.source, HitOffset(j, t', dictTable, ip + 1));
  }

  lemma NotMovedBack(j: Job, t: seq<int>, dictTable: seq<int>, ip0: int, ip: int, m: int)
    requires j.Valid() && j.source <= ip0 <= j.End() - MFLIMIT && |t| == TABLE_SIZE && (j.mode == UsingDictCtx ==> |dictTable| == TABLE_SIZE)
    requires SecondHit(j, t, dictTable, ip0)
    requires var m0 := HitAddress(j, WithPosition(j, t, ip0), dictTable, ip0 + 1);
             0 <= m <= m0 <= |j.mem| && 0 <= ip <= ip0 + 1 && ip0 + 1 - ip == m0 - m && j.mem[m..m0] == j.mem[ip..ip0 + 1]
    ensures ip == ip0 + 1 && m == HitAddress(j, WithPosition(j, t, ip0), dictTable, ip0 + 1)
  {
    hide Hit, HitAddress, WithPosition;
    StopsAtOnce(j.mem, m, HitAddress(j, WithPosition(j, t, ip0), dictTable, ip0 + 1), ip, ip0 + 1);
  }

  lemma LimitIsSource(j: Job, ip: int, m: int, lowLimit: int, offset: int)
    requires j.Valid() && Genuine(j, ip, m, lowLimit, offset, MINMATCH)
    ensures j.TwoSegments() && j.dictionary == j.source ==> lowLimit == j.source
  {
    hide Job.Text, Job.History, Same;
  }

  lemma NotEmpty(literals: seq<byte>)
    ensures 0 < |EncodeLiterals(literals, 0)|
  {
  }

  // ----- The first match -----

  /** The table with the first position of the input. */
  function WithFirst(j: Job, t: seq<int>): (r: seq<int>)
    requires 0 <= j.source && j.source + 8 <= |j.mem| && |t| == TABLE_SIZE
    ensures |r| == TABLE_SIZE
  {
    t[j.HashPosition(j.source) := j.startIndex]
  }

  /** The second position of the input finds an acceptable candidate in the table. */
  ghost predicate FirstHit(j: Job, t: seq<int>, dictTable: seq<int>)
    requires j.Valid() && |t| == TABLE_SIZE && (j.mode == UsingDictCtx ==> |dictTable| == TABLE_SIZE)
  {
    MIN_LENGTH <= j.inputSize && Hit(j, WithFirst(j, t), dictTable, j.source + 1)
  }

  /** How far back it is. */
  ghost function FirstOffset(j: Job, t: seq<int>, dictTable: seq<int>): int
    requires j.Valid() && |t| == TABLE_SIZE && (j.mode == UsingDictCtx ==> |dictTable| == TABLE_SIZE)
  {
    if MIN_LENGTH <= j.inputSize then HitOffset(j, WithFirst(j, t), dictTable, j.source + 1) else 0
  }

  /** If the second position that is tried finds a match, the block begins with its sequence, as it is counted. */
  ghost predicate BeginsCounted(j: Job, t: seq<int>, dictTable: seq<int>, block: seq<byte>)
    requires j.Valid() && |t| == TABLE_SIZE && (j.mode == UsingDictCtx ==> |dictTable| == TABLE_SIZE)
  {
    MIN_LENGTH <= j.inputSize && SecondHit(j, WithFirst(j, t), dictTable, j.source + 1) ==>
      var t' := WithPosition(j, WithFirst(j, t), j.source + 1);
      var offset, m := HitOffset(j, t', dictTable, j.source + 2), HitAddress(j, t', dictTable, j.source + 2);
      && 0 <= offset <= DISTANCE_MAX && 0 <= m && j.dictionary + j.dictSize <= |j.mem|
      && var n := CountedLength(j.mem, j.source + 2, m, j.dictionary + j.dictSize, j.source, j.End() - LASTLITERALS);
         Encode(Emitted(j.mem[j.source..j.source + 2], offset, n)) <= block
  }

  lemma BlockCounted(j: Job, t: seq<int>, dictTable: seq<int>, qs: seq<Emitted>, block: seq<byte>)
    requires j.Valid() && |t| == TABLE_SIZE && (j.mode == UsingDictCtx ==> |dictTable| == TABLE_SIZE)
    requires MIN_LENGTH <= j.inputSize && SecondHit(j, WithFirst(j, t), dictTable, j.source + 1) ==>
      qs != [] && SecondTaken(j, WithFirst(j, t), dictTable, j.source + 1, qs[..1], [], j.source)
    requires qs != [] ==> qs[0].offset <= DISTANCE_MAX && MINMATCH <= qs[0].length && Encode(qs[0]) <= block
    ensures BeginsCounted(j, t, dictTable, block)
  {
    hide Hit, HitOffset, HitAddress, Encode, CountedLength;
  }

  /** A block whose first sequence copies the four bytes behind the first one, from `offset` bytes back. */
  ghost predicate BeginsWith(block: seq<byte>, h: seq<byte>, offset: int) {
    exists qs: seq<Emitted>, last: seq<byte> ::
      && Encodable(qs) && Small(qs) && Applicable(h, qs) && |last| < U32_SIZE
      && block == EncodeBlock(qs, last) && qs != [] && Covers(qs[0], 0, 1, offset)
  }

  // ----- The whole call -----

  /** `block` stands for `text` behind the history `h`, is well ended and not too long. */
  ghost predicate Represents(block: seq<byte>, h: seq<byte>, text: seq<byte>) {
    && Decode(block, 0, h) == Output(h + text)
    && EndConditions(block, 0)
    && |block| <= CompressBound(|text|)
    && (text == [] ==> block == [0])
  }

  lemma EmittingNothing(j: Job, w: Room, d: seq<byte>)
    requires j.Valid() && w.n == j.inputSize && w.Fits(|d|) && (w.mode == FillOutput ==> w.dest < w.oend)
    ensures Emitting(j, w, d, w.dest, [], j.source) && CanEnd(j, w, w.dest, [], j.source)
  {
    assert j.Text()[..j.dictSize] == j.History();
  }

  lemma EndsWell(j: Job, w: Room, op: int, qs: seq<Emitted>, anchor: int, last: seq<byte>)
    requires Encodable(qs) && CanEnd(j, w, op, qs, anchor) && anchor + |last| <= j.End()
    requires anchor + |last| < j.End() ==> |last| >= Min(w.oend - op - 1, 14) && w.mode == FillOutput
    ensures WellEnded(qs, last)
  {
    if qs != [] {
      assert qs[|qs| - 1].length >= MINMATCH;
    }
  }

  /** Sequences, and last literals behind them, are a block for the input up to their end. */
  lemma BlockComplete(j: Job, w: Room, before: seq<byte>, d: seq<byte>, op: int, qs: seq<Emitted>, anchor: int, n: nat, end: int)
    requires j.Valid() && Emitting(j, w, before, op, qs, anchor) && CanEnd(j, w, op, qs, anchor) && anchor + n <= j.End()
    requires |d| == |before| && forall i :: w.dest <= i < op ==> d[i] == before[i]
    requires op <= end <= w.oend && d[op..end] == EncodeLiterals(j.mem[anchor..anchor + n], 0)
    requires anchor + n < j.End() ==> n >= Min(w.oend - op - 1, 14) && w.mode == FillOutput
    ensures w.dest < end && (j.Distinct() ==> Represents(d[w.dest..end], j.History(), j.mem[j.source..anchor + n]))
  {
    RoomFits(j, w, before, op, qs, anchor);
    hide Job.Text, Job.History, Job.Distinct, EncodeLiterals, Emitting, CanEnd, Represents;
    NotEmpty(j.mem[anchor..anchor + n]);
    if j.Distinct() { BlockMeans(j, w, before, d, op, qs, anchor, n, end); }
  }

  lemma BlockMeans(j: Job, w: Room, before: seq<byte>, d: seq<byte>, op: int, qs: seq<Emitted>, anchor: int, n: nat, end: int)
    requires j.Valid() && j.Distinct() && Emitting(j, w, before, op, qs, anchor) && CanEnd(j, w, op, qs, anchor) && anchor + n <= j.End()
    requires |d| == |before| && forall i :: w.dest <= i < op ==> d[i] == before[i]
    requires op <= end <= w.oend && d[op..end] == EncodeLiterals(j.mem[anchor..anchor + n], 0)
    requires anchor + n < j.End() ==> n >= Min(w.oend - op - 1, 14) && w.mode == FillOutput
    ensures Represents(d[w.dest..end], j.History(), j.mem[j.source..anchor + n])
  {
    hide Job.Text, Job.History, Job.Distinct, EncodeLiterals, EndConditions, Decode, EncodeAll, Expand, Small, Applicable, Encodable;
    var h, last := j.History(), j.mem[anchor..anchor + n];
    EmittingKept(j, w, before, d, op, qs, anchor);
    SplitSlice(d, w.dest, op, end);
    assert d[w.dest..end] == EncodeBlock(qs, last);
    EndsWell(j, w, op, qs, anchor, last);
    BlockRoundTrip(h, qs, last);
    BlockSizeBound(h, qs, last);
    NotEmpty(last);
    InputText(j, anchor, anchor + n);
    InputText(j, j.source, anchor + n);
    TextFront(j, anchor + n);
    SplitSlice(j.Text(), 0, j.At(anchor), j.At(anchor + n));
    assert Expand(h, qs) + last == h + j.mem[j.source..anchor + n];
    if anchor + n == j.source { EmptyBlock(h, qs, last); }
  }

  /** What the block begins with. */
  lemma BlockBegins(j: Job, w: Room, before: seq<byte>, d: seq<byte>, op: int, qs: seq<Emitted>, anchor: int, n: nat, end: int, offset: int)
    requires j.Valid() && Emitting(j, w, before, op, qs, anchor) && anchor + n <= j.End()
    requires |d| == |before| && forall i :: w.dest <= i < op ==> d[i] == before[i]
    requires op <= end <= w.oend && d[op..end] == EncodeLiterals(j.mem[anchor..anchor + n], 0)
    ensures GoesOn(qs, [], j.source, j.source + 1, offset) ==> BeginsWith(d[w.dest..end], j.History(), offset)
    ensures forall q :: q in qs && qs[0] == q ==> q.offset <= DISTANCE_MAX && MINMATCH <= q.length && Encode(q) <= d[w.dest..end]
  {
    hide Job.Text, Job.History, EncodeLiterals, EncodeAll, Expand, Small, Applicable, Encodable;
    EmittingKept(j, w, before, d, op, qs, anchor);
    SplitSlice(d, w.dest, op, end);
    var last := j.mem[anchor..anchor + n];
    assert d[w.dest..end] == EncodeBlock(qs, last);
    if qs != [] { FirstEncoded(qs, last); }
  }

  lemma FirstEncoded(qs: seq<Emitted>, last: seq<byte>)
    requires Encodable(qs) && qs != []
    ensures qs[0].offset <= DISTANCE_MAX && MINMATCH <= qs[0].length && Encode(qs[0]) <= EncodeBlock(qs, last)
  {
    hide Encode, EncodeLiterals;
    assert qs[0] in qs;
    SequenceOfBlock(EncodeBlock(qs, last), qs, last, 0);
    assert qs[..0] == [];
  }

  lemma TextFront(j: Job, p: int)
    requires j.Valid() && j.source <= p <= j.End()
    ensures j.Text()[..j.At(p)] == j.History() + j.mem[j.source..p]
  {
    InputText(j, j.source, p);
    assert j.Text()[..j.dictSize] == j.History();
    SplitSlice(j.Text(), 0, j.dictSize, j.At(p));
    hide Job.Text, Job.History;
  }

  lemma EmptyBlock(h: seq<byte>, qs: seq<Emitted>, last: seq<byte>)
    requires Encodable(qs) && Applicable(h, qs) && last == [] && WellEnded(qs, last)
    ensures EncodeBlock(qs, last) == [0]
  {
  }

  /** A block, if there is room for it. */
  function Fitting(block: seq<byte>, room: int): seq<byte> { if |block| <= room then block else [] }

  /**
   The answer of a search that takes all the matches that the tables lead to, one after the other, and stretches every
   match: the block for its parse, or nothing, exactly as there is room for that block. The parse ends where the tables lead
   to nothing more, or where it is already too long.
   */
  ghost predicate Greedy(j: Job, t: seq<int>, dictTable: seq<int>, room: int, answer: seq<byte>)
    requires j.Valid() && |t| == TABLE_SIZE && (j.mode == UsingDictCtx ==> |dictTable| == TABLE_SIZE)
  {
    exists qs: seq<Emitted>, anchor: int :: FromParse(j, t, dictTable, room, answer, qs, anchor)
  }

  ghost predicate FromParse(j: Job, t: seq<int>, dictTable: seq<int>, room: int, answer: seq<byte>, qs: seq<Emitted>, anchor: int)
    requires j.Valid() && |t| == TABLE_SIZE && (j.mode == UsingDictCtx ==> |dictTable| == TABLE_SIZE)
  {
    && Parsed(j, qs, anchor) && AllStretched(j, qs) && FirstGoes(j, t, dictTable, qs)
    && AllTaken(j, Tables(t, dictTable), qs) && (!Cut(room, qs) ==> !Then(j, Tables(t, dictTable), qs).found)
    && answer == Fitting(EncodeBlock(qs, j.mem[anchor..j.End()]), room)
  }

  /** What fills an output: a parse of the input, and then as many literals as fit. */
  ghost predicate Fills(j: Job, room: int, answer: seq<byte>, consumed: nat)
    requires j.Valid()
  {
    exists qs: seq<Emitted>, anchor: int :: FillsBy(j, room, answer, consumed, qs, anchor)
  }

  ghost predicate FillsBy(j: Job, room: int, answer: seq<byte>, consumed: nat, qs: seq<Emitted>, anchor: int)
    requires j.Valid()
  {
    && Parsed(j, qs, anchor) && anchor <= j.source + consumed <= j.End()
    && answer == EncodeBlock(qs, j.mem[anchor..j.source + consumed])
    && (consumed < j.inputSize ==> |answer| == |EncodeAll(qs)| + UsedOf(room - |EncodeAll(qs)|))
  }

  lemma BlockFills(j: Job, w: Room, before: seq<byte>, d: seq<byte>, op: int, qs: seq<Emitted>, anchor: int, lastRun: nat, end: int)
    requires j.Valid() && Emitting(j, w, before, op, qs, anchor) == true && j.source <= anchor && anchor + lastRun <= j.End() <= |j.mem|
    requires |d| == |before| && (forall i :: w.dest <= i < op ==> d[i] == before[i]) && 0 <= w.dest && end <= |d|
    requires op <= end && d[op..end] == EncodeLiterals(j.mem[anchor..anchor + lastRun], 0)
    requires anchor + lastRun < j.End() ==> end == op + UsedOf(w.oend - op)
    ensures Fills(j, w.oend - w.dest, d[w.dest..end], anchor + lastRun - j.source) == true
  {
    hide EncodeAll, EncodeLiterals, Expand, Applicable, Encodable, Small, Job.Text, Job.History, Job.Distinct;
    EmittingKept(j, w, before, d, op, qs, anchor);
    SplitSlice(d, w.dest, op, end);
    assert FillsBy(j, w.oend - w.dest, d[w.dest..end], anchor + lastRun - j.source, qs, anchor);
  }

  lemma NoAnswer(j: Job, t: seq<int>, dictTable: seq<int>, w: Room, qs: seq<Emitted>)
    requires j.Valid() && |t| == TABLE_SIZE && (j.mode == UsingDictCtx ==> |dictTable| == TABLE_SIZE)
    requires TooLong(j, w, Tables(t, dictTable), qs) == true && FirstGoes(j, t, dictTable, qs) == true
    ensures Greedy(j, t, dictTable, w.oend - w.dest, []) == true
  {
    hide FirstGoes, AllStretched, AllTaken, Then, EncodeBlock;
    var anchor :| TooLongBehind(j, w, Tables(t, dictTable), qs, anchor);
    assert FromParse(j, t, dictTable, w.oend - w.dest, [], qs, anchor);
  }

  lemma FirstStillGoes(j: Job, t: seq<int>, dictTable: seq<int>, qs: seq<Emitted>)
    requires j.Valid() && |t| == TABLE_SIZE && (j.mode == UsingDictCtx ==> |dictTable| == TABLE_SIZE)
    requires MIN_LENGTH <= j.inputSize ==> FirstTaken(j, t, dictTable, qs) == true
    ensures FirstGoes(j, t, dictTable, qs) == true
  {
    hide Hit, GoesOn, SecondHit, SecondTaken, HitOffset;
  }

  /** The end of the search, with or without room for the last literals. */
  lemma BlockAnswers(j: Job, t: seq<int>, dictTable: seq<int>, w: Room, before: seq<byte>, d: seq<byte>, op: int, qs: seq<Emitted>, anchor: int, ok: bool, end: int)
    requires j.Valid() && j.Distinct() && w.mode != FillOutput && |t| == TABLE_SIZE && (j.mode == UsingDictCtx ==> |dictTable| == TABLE_SIZE)
    requires Emitting(j, w, before, op, qs, anchor) == true && FirstGoes(j, t, dictTable, qs) == true && 0 <= anchor <= |j.mem|
    requires Thorough(j, w, Tables(t, dictTable), qs) == true && Ended(j, w, Tables(t, dictTable), qs) == true
    requires |d| == |before| && forall i :: w.dest <= i < op ==> d[i] == before[i]
    requires if ok then op <= end <= w.oend && anchor <= j.End() <= |j.mem| && d[op..end] == EncodeLiterals(j.mem[anchor..j.End()], 0)
             else anchor <= j.End() <= |j.mem| && w.oend < op + |EncodeLiterals(j.mem[anchor..j.End()], 0)|
    requires 0 <= w.dest <= |d|
    ensures Greedy(j, t, dictTable, w.oend - w.dest, if ok then d[w.dest..end] else []) == true
  {
    hide FirstGoes, Stretched, AllTaken, Then, EncodeAll, EncodeLiterals, Expand, Applicable, Encodable, Small, Job.Text, Job.History, Job.Distinct;
    var last := j.mem[anchor..j.End()];
    EmittingKept(j, w, before, d, op, qs, anchor);
    SplitSlice(d, w.dest, op, if ok then end else op);
    assert FromParse(j, t, dictTable, w.oend - w.dest, if ok then d[w.dest..end] else [], qs, anchor);
  }

  /** The last literals. */
  method FinishBlock(j: Job, w: Room, dst: array<byte>, op0: int, anchor: int, ghost qs: seq<Emitted>, ghost t: seq<int>, ghost dictTable: seq<int>)
    returns (result: nat, consumed: nat)
    requires j.Valid() && w.n == j.inputSize && w.Fits(dst.Length) && Emitting(j, w, dst[..], op0, qs, anchor) == true && CanEnd(j, w, op0, qs, anchor) == true
    requires Thorough(j, w, Tables(t, dictTable), qs) == true && Ended(j, w, Tables(t, dictTable), qs) == true
    requires |t| == TABLE_SIZE && (j.mode == UsingDictCtx ==> |dictTable| == TABLE_SIZE)
    requires if j.inputSize < MIN_LENGTH then qs == [] && anchor == j.source && op0 == w.dest else w.mode != FillOutput ==> FirstTaken(j, t, dictTable, qs) == true
    modifies dst
    ensures forall i :: 0 <= i < dst.Length && !(w.dest <= i < w.oend) ==> dst[i] == old(dst[i])
    ensures result == 0 ==> w.mode == LimitedOutput && w.oend - w.dest < CompressBound(j.inputSize)
    ensures consumed <= j.inputSize && (w.mode != FillOutput ==> consumed == j.inputSize)
    ensures result > 0 ==> w.dest + result <= w.oend
    ensures result > 0 && j.Distinct() ==> Represents(dst[w.dest..w.dest + result], j.History(), j.mem[j.source..j.source + consumed])
    ensures result > 0 && w.mode != FillOutput && j.inputSize < MIN_LENGTH ==>
      dst[w.dest..w.dest + result] == EncodeLiterals(j.mem[j.source..j.source + consumed], 0)
    ensures result > 0 && w.mode != FillOutput && j.Distinct() && FirstHit(j, t, dictTable) ==>
      BeginsWith(dst[w.dest..w.dest + result], j.History(), FirstOffset(j, t, dictTable))
    ensures result > 0 && w.mode != FillOutput ==> BeginsCounted(j, t, dictTable, dst[w.dest..w.dest + result])
    ensures w.mode != FillOutput && j.Distinct() ==> Greedy(j, t, dictTable, w.oend - w.dest, dst[w.dest..w.dest + result]) == true
    ensures result > 0 ==> Fills(j, w.oend - w.dest, dst[w.dest..w.dest + result], consumed) == true
  {
    hide Job.Text, Job.History, Job.Distinct, EncodeLiterals, Emitting, CanEnd, Represents, FirstHit, FirstOffset, BeginsWith, BeginsCounted, FirstTaken, Greedy, Thorough, Ended, FirstGoes, UsedOf, Fills;
    if w.mode != FillOutput && j.Distinct() { FirstStillGoes(j, t, dictTable, qs); }
    ghost var d := dst[..];
    RoomFits(j, w, d, op0, qs, anchor);
    EmittingBudget(j, w, d, op0, qs, anchor);
    LastRoom(j, w, d, op0, qs, anchor);
    var ok, op, lastRun := WriteLastLiterals(w, dst, op0, j.mem, j.source, anchor);
    if w.mode != FillOutput && j.Distinct() { BlockAnswers(j, t, dictTable, w, d, dst[..], op0, qs, anchor, ok, op); }
    if !ok {
      assert dst[w.dest..w.dest + 0] == [];
      return 0, j.inputSize;
    }
    BlockComplete(j, w, d, dst[..], op0, qs, anchor, lastRun, op);
    BlockFills(j, w, d, dst[..], op0, qs, anchor, lastRun, op);
    if w.mode != FillOutput { BlockFirst(j, t, dictTable, w, d, dst[..], op0, qs, anchor, lastRun, op); }
    result, consumed := op - w.dest, anchor + lastRun - j.source;
  }

  /**
   LZ4_compress_generic_validated. The block stands for the input, or for the first `consumed` bytes
   of it if the output is to be filled; there is no block only if the output is smaller than
   LZ4_compressBound, and too small for the block that the search arrives at. Either way the table is
   fit for the calls that follow.
   */
  method Compress(j: Job, w: Room, dst: array<byte>, table: array<int>, dictTable: seq<int>)
    returns (result: nat, consumed: nat, lost: bool)
    requires j.Valid() && w.n == j.inputSize && w.Fits(dst.Length)
    requires w.mode == FillOutput ==> EntryOk(j, 0) && w.dest < w.oend
    requires TableOk(j, table[..], j.startIndex) && (j.mode == UsingDictCtx ==> DictTableOk(j, dictTable))
    modifies dst, table
    ensures forall i :: 0 <= i < dst.Length && !(w.dest <= i < w.oend) ==> dst[i] == old(dst[i])
    ensures lost ==> !j.Distinct() && result == 0
    ensures result == 0 && !lost ==> w.mode == LimitedOutput && w.oend - w.dest < CompressBound(j.inputSize)
    ensures consumed <= j.inputSize && (w.mode != FillOutput ==> consumed == j.inputSize)
    ensures result > 0 ==> w.dest + result <= w.oend
    ensures result > 0 && j.Distinct() ==> Represents(dst[w.dest..w.dest + result], j.History(), j.mem[j.source..j.source + consumed])
    ensures if j.inputSize < MIN_LENGTH then table[..] == old(table[..]) else TableKept(j, table[..])
    ensures table.Length == TABLE_SIZE
    ensures result > 0 && w.mode != FillOutput && j.inputSize < MIN_LENGTH ==>
      dst[w.dest..w.dest + result] == EncodeLiterals(j.mem[j.source..j.source + consumed], 0)
    ensures result > 0 && w.mode != FillOutput && j.Distinct() && FirstHit(j, old(table[..]), dictTable) ==>
      BeginsWith(dst[w.dest..w.dest + result], j.History(), FirstOffset(j, old(table[..]), dictTable))
    ensures result > 0 && w.mode != FillOutput ==> BeginsCounted(j, old(table[..]), dictTable, dst[w.dest..w.dest + result])
    ensures !lost && w.mode != FillOutput && j.Distinct() ==> Greedy(j, old(table[..]), dictTable, w.oend - w.dest, dst[w.dest..w.dest + result]) == true
    ensures result > 0 ==> Fills(j, w.oend - w.dest, dst[w.dest..w.dest + result], consumed) == true
  {
    hide Fills, Job.Text, Job.History, Job.Distinct, TableOk, EntryOk, EncodeLiterals, Emitting, CanEnd, Represents, FirstHit, FirstOffset, BeginsWith, BeginsCounted, FirstTaken, TableKept, Greedy, Thorough, Ended, TooLong, FirstGoes, DictTableOk;
    TableSize(j, table[..], j.startIndex);
    if j.mode == UsingDictCtx { DictSize(j, dictTable); }
    ghost var t0 := table[..];
    var outcome, op, anchor := Rewind, w.dest, j.source;
    ghost var qs := [];
    EmittingNothing(j, w, dst[..]);
    NothingThorough(j, w, Tables(t0, dictTable));
    if j.inputSize >= MIN_LENGTH {
      outcome, op, anchor, qs := SearchAll(j, w, dst, table, dictTable);
      if outcome.NoRoom? && j.Distinct() { NoAnswer(j, t0, dictTable, w, qs); }
      if !outcome.Rewind? {
        assert dst[w.dest..w.dest + 0] == [];
        return 0, j.inputSize, outcome.Lost?;
      }
    }
    lost := false;
    if j.inputSize < MIN_LENGTH { EndsAtOnce(j, w, Tables(t0, dictTable)); }
    result, consumed := FinishBlock(j, w, dst, op, anchor, qs, t0, dictTable);
  }

  /** What the second position of the input leads to, if it finds something. */
  ghost predicate FirstGoes(j: Job, t: seq<int>, dictTable: seq<int>, qs: seq<Emitted>)
    requires j.Valid() && |t| == TABLE_SIZE && (j.mode == UsingDictCtx ==> |dictTable| == TABLE_SIZE)
  {
    j.Distinct() && FirstHit(j, t, dictTable) ==> GoesOn(qs, [], j.source, j.source + 1, FirstOffset(j, t, dictTable))
  }

  lemma FirstIsGoing(j: Job, t: seq<int>, dictTable: seq<int>, qs: seq<Emitted>)
    requires j.Valid() && |t| == TABLE_SIZE && (j.mode == UsingDictCtx ==> |dictTable| == TABLE_SIZE) && MIN_LENGTH <= j.inputSize
    requires j.Distinct() && Hit(j, WithFirst(j, t), dictTable, j.source + 1) ==> GoesOn(qs, [], j.source, j.source + 1, HitOffset(j, WithFirst(j, t), dictTable, j.source + 1))
    ensures FirstGoes(j, t, dictTable, qs) == true
  {
    hide GoesOn, Hit, HitOffset;
  }

  lemma StillGoing(j: Job, t: seq<int>, dictTable: seq<int>, qs0: seq<Emitted>, qs: seq<Emitted>)
    requires j.Valid() && |t| == TABLE_SIZE && (j.mode == UsingDictCtx ==> |dictTable| == TABLE_SIZE)
    requires FirstTaken(j, t, dictTable, qs0) == true && qs0 <= qs
    ensures FirstGoes(j, t, dictTable, qs) == true
  {
    hide FirstHit, FirstOffset, SecondHit, SecondTaken;
    if qs0 != [] { assert qs[..1] == qs0[..1]; }
  }

  lemma NothingThorough(j: Job, w: Room, t: Tables)
    requires j.Valid() && t.Fit(j)
    ensures Thorough(j, w, t, []) == true
  {
  }

  /** What the first positions that are tried lead to. */
  ghost predicate FirstTaken(j: Job, t: seq<int>, dictTable: seq<int>, qs: seq<Emitted>)
    requires j.Valid() && |t| == TABLE_SIZE && (j.mode == UsingDictCtx ==> |dictTable| == TABLE_SIZE)
  {
    && FirstGoes(j, t, dictTable, qs)
    && (MIN_LENGTH <= j.inputSize && SecondHit(j, WithFirst(j, t), dictTable, j.source + 1) ==>
          qs != [] && SecondTaken(j, WithFirst(j, t), dictTable, j.source + 1, qs[..1], [], j.source))
  }

  lemma BlockFirst(j: Job, t: seq<int>, dictTable: seq<int>, w: Room, before: seq<byte>, d: seq<byte>, op: int, qs: seq<Emitted>, anchor: int, n: nat, end: int)
    requires j.Valid() && |t| == TABLE_SIZE && (j.mode == UsingDictCtx ==> |dictTable| == TABLE_SIZE)
    requires Emitting(j, w, before, op, qs, anchor) && anchor + n <= j.End()
    requires |d| == |before| && forall i :: w.dest <= i < op ==> d[i] == before[i]
    requires op <= end <= w.oend && d[op..end] == EncodeLiterals(j.mem[anchor..anchor + n], 0)
    requires MIN_LENGTH <= j.inputSize ==> FirstTaken(j, t, dictTable, qs)
    ensures j.Distinct() && FirstHit(j, t, dictTable) ==> BeginsWith(d[w.dest..end], j.History(), FirstOffset(j, t, dictTable))
    ensures BeginsCounted(j, t, dictTable, d[w.dest..end])
  {
    BlockBegins(j, w, before, d, op, qs, anchor, n, end, FirstOffset(j, t, dictTable));
    RoomFits(j, w, before, op, qs, anchor);
    hide Emitting, SecondHit, SecondTaken, GoesOn, BeginsWith, BeginsCounted, FirstOffset, Hit, Encode, EncodeLiterals, Job.Text, Job.History;
    BlockCounted(j, t, dictTable, qs, d[w.dest..end]);
  }

  /** The main loop: it ends when only last literals are left, or too early. */
  method SearchAll(j: Job, w: Room, dst: array<byte>, table: array<int>, dictTable: seq<int>)
    returns (outcome: Progress, op: int, anchor: int, ghost qs: seq<Emitted>)
    requires j.Valid() && w.n == j.inputSize && w.Fits(dst.Length) && MIN_LENGTH <= j.inputSize
    requires w.mode == FillOutput ==> EntryOk(j, 0) && w.dest < w.oend
    requires TableOk(j, table[..], j.startIndex) && (j.mode == UsingDictCtx ==> DictTableOk(j, dictTable))
    modifies dst, table
    ensures forall i :: 0 <= i < dst.Length && !(w.dest <= i < w.oend) ==> dst[i] == old(dst[i])
    ensures !outcome.Written? && (outcome.Lost? ==> !j.Distinct())
    ensures outcome.NoRoom? ==> w.mode == LimitedOutput && w.oend - w.dest < CompressBound(j.inputSize)
    ensures outcome.Rewind? ==> Emitting(j, w, dst[..], op, qs, anchor) && CanEnd(j, w, op, qs, anchor)
    ensures outcome.Rewind? ==> Thorough(j, w, Tables(old(table[..]), dictTable), qs) == true && Ended(j, w, Tables(old(table[..]), dictTable), qs) == true
    ensures |old(table[..])| == TABLE_SIZE
    ensures outcome.NoRoom? && j.Distinct() ==> TooLong(j, w, Tables(old(table[..]), dictTable), qs) == true && FirstGoes(j, old(table[..]), dictTable, qs) == true
    ensures TableKept(j, table[..]) && table.Length == TABLE_SIZE
    ensures outcome.Rewind? && w.mode != FillOutput ==> FirstTaken(j, old(table[..]), dictTable, qs)
  {
    hide Job.Text, Job.History, Job.Distinct, TableOk, EntryOk, EncodeLiterals, Emitting, CanEnd, Hit, HitOffset, SecondHit, SecondTaken, GoesOn, FirstTaken, FirstHit, FirstOffset, FirstGoes, Thorough, Sought, Ended, TooLong, Parsed, DictTableOk;
    TableSize(j, table[..], j.startIndex);
    if j.mode == UsingDictCtx { DictSize(j, dictTable); }
    ghost var t0, t := table[..], Tables(table[..], dictTable);
    var ip := j.source;
    op, anchor, qs := w.dest, j.source, [];
    EmittingNothing(j, w, dst[..]);
    NothingThorough(j, w, t);
    PutPosition(j, table, ip, j.startIndex);
    SoughtFirst(j, w, t, table[..]);
    outcome := Written;
    ghost var first := true;
    while outcome.Written?
      invariant !outcome.NoRoom? && !outcome.Lost? && Emitting(j, w, dst[..], op, qs, anchor) && CanEnd(j, w, op, qs, anchor)
      invariant Thorough(j, w, t, qs) == true && (outcome.Written? ==> Sought(j, w, t, qs, ip + 1, table[..]) == true)
      invariant outcome.Rewind? ==> Ended(j, w, t, qs) == true
      invariant outcome.Written? ==> anchor <= ip && j.source <= ip <= j.End() - MFLIMIT
      invariant outcome.Written? ==> TableOk(j, table[..], Max(j.startIndex, j.startIndex + (ip - j.source) + 1))
      invariant TableKept(j, table[..])
      invariant first ==> qs == [] && ip == anchor == j.source && outcome.Written? && table[..] == WithFirst(j, t0)
      invariant !first && w.mode != FillOutput ==> FirstTaken(j, t0, dictTable, qs) == true
      invariant forall i :: 0 <= i < dst.Length && !(w.dest <= i < w.oend) ==> dst[i] == old(dst[i])
      decreases outcome.Written?, j.End() - anchor
    {
      ip := ip + 1;
      ghost var qs0 := qs;
      outcome, op, ip, anchor, qs :=
        FindAndWrite(j, w, dst, table, dictTable, op, anchor, ip, Max(j.startIndex, j.startIndex + (ip - 1 - j.source) + 1), qs, t);
      if outcome.NoRoom? && j.Distinct() {
        if first { FirstIsGoing(j, t0, dictTable, qs); } else { StillGoing(j, t0, dictTable, qs0, qs); }
      }
      if outcome.NoRoom? || outcome.Lost? { return; }
      if w.mode != FillOutput {
        if first { FirstIsTaken(j, t0, dictTable, qs); } else { StillTaken(j, t0, dictTable, qs0, qs); }
      }
      first := false;
    }
  }

  lemma FirstIsTaken(j: Job, t: seq<int>, dictTable: seq<int>, qs: seq<Emitted>)
    requires j.Valid() && |t| == TABLE_SIZE && (j.mode == UsingDictCtx ==> |dictTable| == TABLE_SIZE) && MIN_LENGTH <= j.inputSize
    requires j.Distinct() && Hit(j, WithFirst(j, t), dictTable, j.source + 1) ==> GoesOn(qs, [], j.source, j.source + 1, HitOffset(j, WithFirst(j, t), dictTable, j.source + 1))
    requires SecondHit(j, WithFirst(j, t), dictTable, j.source + 1) ==> SecondTaken(j, WithFirst(j, t), dictTable, j.source + 1, qs, [], j.source)
    ensures FirstTaken(j, t, dictTable, qs) == true
  {
    hide GoesOn, Hit, SecondHit, SecondTaken, HitOffset;
    if SecondHit(j, WithFirst(j, t), dictTable, j.source + 1) { SecondFirst(j, WithFirst(j, t), dictTable, j.source + 1, qs); }
  }

  lemma StillTaken(j: Job, t: seq<int>, dictTable: seq<int>, qs0: seq<Emitted>, qs: seq<Emitted>)
    requires j.Valid() && |t| == TABLE_SIZE && (j.mode == UsingDictCtx ==> |dictTable| == TABLE_SIZE)
    requires FirstTaken(j, t, dictTable, qs0) == true && qs0 <= qs
    ensures FirstTaken(j, t, dictTable, qs) == true
  {
    hide FirstHit, FirstOffset, SecondHit, SecondTaken;
    if qs0 != [] { assert qs[..1] == qs0[..1]; }
  }

  lemma LastRoom(j: Job, w: Room, d: seq<byte>, op: int, qs: seq<Emitted>, anchor: int)
    requires j.Valid() && Emitting(j, w, d, op, qs, anchor) && CanEnd(j, w, op, qs, anchor)
    ensures w.mode == FillOutput ==> op < w.oend
  {
  }
}
