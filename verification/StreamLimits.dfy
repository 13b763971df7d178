/**
 Where LZ4_compress_fast_continue does not keep its promise: calls whose blocks do not decode, for all
 sizes that a caller can choose. Together with the contract of `CompressFastContinue`, which promises a
 good block whenever the call is `Faithful`, they say which calls can be trusted.
 */
module StreamLimits {
  import opened Bytes
  import opened BlockFormat
  import opened BlockEncoding
  import opened MatchFinder
  import opened MatchLength
  import opened SequenceWriter
  import opened BlockCompressor
  import opened BlockStream
  import RoundTrip

  /** A block that such a call can write never stands for the text. */
  ghost predicate AlwaysWrong(j: Job, t: seq<int>, dictTable: seq<int>, h: seq<byte>, text: seq<byte>) {
    forall block :: Done(j, t, dictTable, block, text) ==> !Represents(block, h, text)
  }

  /** Whatever block the call for `[source, source + n)` writes, it does not stand for the input. */
  ghost predicate Fails(s: Stream, mem: seq<byte>, source: int, n: nat)
    reads s, s.hashTable, s.dictCtx, if s.dictCtx != null then {s.dictCtx.hashTable} else {}
  {
    && s.Sound() == true && 0 <= source && source + n <= |mem| && s.Intact(mem, source, n) && 1 <= n <= MAX_INPUT_SIZE && s.currentOffset + n <= RENORM_LIMIT
    && AlwaysWrong(s.CallJob(mem, source, n, 1), s.CallTables(source, n).0, s.CallTables(source, n).1, s.history, mem[source..source + n])
  }

  lemma FailsParts(s: Stream, mem: seq<byte>, source: int, n: nat)
    requires Fails(s, mem, source, n) == true
    ensures s.Sound() == true && 0 <= source && source + n <= |mem| && s.Intact(mem, source, n) == true && 1 <= n <= MAX_INPUT_SIZE && s.currentOffset + n <= RENORM_LIMIT
    ensures AlwaysWrong(s.CallJob(mem, source, n, 1), s.CallTables(source, n).0, s.CallTables(source, n).1, s.history, mem[source..source + n]) == true
  {
    hide AlwaysWrong;
  }

  lemma IsWrong(j: Job, t: seq<int>, dictTable: seq<int>, h: seq<byte>, text: seq<byte>, block: seq<byte>)
    requires AlwaysWrong(j, t, dictTable, h, text) == true && Done(j, t, dictTable, block, text) == true
    ensures !Represents(block, h, text)
  {
    hide Done, Represents;
  }

  /** That is the block that the call returns, if it returns one at all. */
  method CallFails(s: Stream, mem: seq<byte>, source: int, n: nat, dst: array<byte>) returns (result: nat, lost: bool)
    requires Fails(s, mem, source, n) == true
    modifies s, s.hashTable, dst
    ensures result <= dst.Length && (lost ==> old(s.Ambiguous(source, n)))
    ensures result == 0 && !lost ==> dst.Length < CompressBound(n)
    ensures result > 0 ==> 0 <= source && source + n <= |mem| && !Represents(dst[0..0 + result], old(s.history), mem[source..source + n])
  {
    hide *;
    FailsParts(s, mem, source, n);
    ghost var j, t, h := s.CallJob(mem, source, n, 1), s.CallTables(source, n), s.history;
    result, lost := s.CompressFastContinue(mem, source, n, dst, 0, dst.Length, 1);
    if result > 0 { IsWrong(j, t.0, t.1, h, mem[source..source + n], dst[0..0 + result]); }
  }

  // ----- What a first match says about the text -----

  /** A parse that applies behind one history applies behind every longer one. */
  lemma {:induction false} ApplicableLonger(h: seq<byte>, h': seq<byte>, qs: seq<Emitted>)
    requires Encodable(qs) && Applicable(h, qs) && |h| <= |h'|
    ensures Applicable(h', qs) && |Expand(h', qs)| - |h'| == |Expand(h, qs)| - |h|
    decreases |qs|
  {
    if qs != [] {
      ApplicableLonger(h, h', qs[..|qs| - 1]);
    }
  }

  /** What the first sequence stands for is not changed by those behind it. */
  lemma {:induction false} ExpandBegins(h: seq<byte>, qs: seq<Emitted>)
    requires Encodable(qs) && Applicable(h, qs) && qs != []
    ensures qs[0].offset <= |h| + |qs[0].literals|
    ensures CopyMatch(h + qs[0].literals, qs[0].offset, qs[0].length) <= Expand(h, qs)
    decreases |qs|
  {
    var front, q := qs[..|qs| - 1], qs[|qs| - 1];
    if front == [] {
      assert Expand(h, front) == h;
    } else {
      ExpandBegins(h, front);
      var r := Expand(h, front) + q.literals;
      RepeatsIsCopyMatch(r, q.offset, CopyMatch(r, q.offset, q.length));
      assert Expand(h, front) == r[..|Expand(h, front)|];
      assert Expand(h, front) <= Expand(h, qs);
    }
  }

  /** A copied stretch repeats what stands `offset` bytes before it. */
  lemma CopyRepeats(h: seq<byte>, offset: int, n: nat, i: nat)
    requires 1 <= offset <= |h| <= i < |h| + n
    ensures CopyMatch(h, offset, n)[i] == CopyMatch(h, offset, n)[i - offset]
  {
    RepeatsIsCopyMatch(h, offset, CopyMatch(h, offset, n));
  }

  /**
   A block that begins with a match at the second byte of its text can stand for a text only behind a
   history that holds the four bytes of the match.
   */
  lemma BeginsRepeats(block: seq<byte>, seen: seq<byte>, history: seq<byte>, text: seq<byte>, offset: int, k: nat)
    requires BeginsWith(block, seen, offset) && |seen| <= |history| && Represents(block, history, text)
    requires 1 <= k <= MINMATCH
    ensures |history| + k < |history + text| && 0 <= |history| + k - offset < |history + text|
    ensures (history + text)[|history| + k] == (history + text)[|history| + k - offset]
  {
    var qs: seq<Emitted>, last: seq<byte> :|
      && Encodable(qs) && Small(qs) && Applicable(seen, qs) && |last| < U32_SIZE
      && block == EncodeBlock(qs, last) && qs != [] && Covers(qs[0], 0, 1, offset);
    hide *;
    ApplicableLonger(seen, history, qs);
    BlockRoundTrip(history, qs, last);
    ExpandBegins(history, qs);
    Decoded(block, history, text, Expand(history, qs) + last);
    FirstRepeats(qs[0], history, Expand(history, qs), last, history + text, offset, k);
  }

  lemma Decoded(block: seq<byte>, history: seq<byte>, text: seq<byte>, r: seq<byte>)
    requires Represents(block, history, text) && Decode(block, 0, history) == Output(r)
    ensures history + text == r
  {
    hide Decode, EndConditions;
  }

  lemma FirstRepeats(q: Emitted, history: seq<byte>, r: seq<byte>, last: seq<byte>, t: seq<byte>, offset: int, k: nat)
    requires Covers(q, 0, 1, offset) && 1 <= k <= MINMATCH && 1 <= offset <= |history| + |q.literals|
    requires CopyMatch(history + q.literals, offset, q.length) <= r && t == r + last
    ensures |history| + k < |t| && 0 <= |history| + k - offset && t[|history| + k] == t[|history| + k - offset]
  {
    hide CopyMatch;
    var h := history + q.literals;
    CopyRepeats(h, offset, q.length, |history| + k);
  }

  // ----- An input that runs over the end of the dictionary -----

  /** The input: 2 where that makes its second byte begin like what its front leaves of the dictionary's end. */
  function Over(v: nat, i: int): (b: byte) {
    if i == 0 || (v == 1 && i == 4) || (v == 2 && i == 3) || (v == 3 && i in {2, 4}) || (v == 4 && 0 <= i <= 4) then 2 else 1
  }

  /** Memory in which all else is 1. */
  function OverMemory(source: nat, v: nat, size: nat): (mem: seq<byte>)
    ensures |mem| == size && forall a :: 0 <= a < |mem| ==> mem[a] == Over(v, a - source)
  {
    seq<byte>(size, a => Over(v, a - source))
  }

  function Kept(address: int, source: int): (b: byte) { if address < source then 1 else 0 }

  /** The history of a stream whose dictionary ended in bytes that the input has overwritten. */
  function OverHistory(dictionary: nat, dictSize: nat, source: nat): (h: seq<byte>)
    ensures |h| == dictSize && forall i :: 0 <= i < dictSize ==> h[i] == Kept(dictionary + i, source)
  {
    seq<byte>(dictSize, i => Kept(dictionary + i, source))
  }

  /** The four bytes at the end of the overwritten dictionary, and those at the second byte of the input. */
  lemma OverSame(source: nat, n: nat, v: nat, size: nat)
    requires 1 <= v <= n && MIN_LENGTH <= n && MINMATCH <= source + v && source + n <= size
    ensures Same(OverMemory(source, v, size), source + v - MINMATCH, source + 1, MINMATCH)
    ensures OverMemory(source, v, size)[source..source + 8] != OverMemory(source, v, size)[source + 1..source + 9]
  {
    var mem := OverMemory(source, v, size);
    var a, b := mem[source + v - 4..source + v], mem[source + 1..source + 5];
    hide OverMemory;
    assert a == [mem[source + v - 4], mem[source + v - 3], mem[source + v - 2], mem[source + v - 1]];
    assert b == [mem[source + 1], mem[source + 2], mem[source + 3], mem[source + 4]];
    assert mem[source..source + 8][0] == mem[source] == 2;
    if v == 4 {
      assert mem[source..source + 8][4] == mem[source + 4] == 2 && mem[source + 1..source + 9][4] == mem[source + 5] == 1;
    } else {
      assert mem[source + 1..source + 9][0] == mem[source + 1] == 1;
    }
  }

  predicate AtOne(t: seq<int>, e: int) { |t| == TABLE_SIZE && t[1] == e }

  predicate BelowAtOne(t: seq<int>, e: int) { |t| == TABLE_SIZE && t[1] < e }

  /** A stream with such a dictionary, whose table leads from the second byte of the input to the dictionary's end. */
  method OverStream(dictionary: nat, dictSize: nat, source: nat, key: seq<byte>) returns (s: Stream)
    requires MINMATCH <= dictSize <= RENORM_LIMIT && source < dictionary + dictSize
    ensures fresh(s) && fresh(s.hashTable) && s.Valid() && s.dictCtx == null
    ensures s.currentOffset == dictSize && s.dictionary == dictionary && s.dictSize == dictSize && s.DictEnd() == dictionary + dictSize
    ensures s.history == OverHistory(dictionary, dictSize, source)
    ensures AtOne(s.hashTable[..], dictSize - MINMATCH) == true
    ensures forall w: seq<byte> :: s.hash(w) == if w == key then 1 else 0
  {
    s := new Stream(w => if w == key then 1 else 0);
    s.hashTable[1] := dictSize - MINMATCH;
    s.currentOffset, s.tableType, s.dictionary, s.dictSize := dictSize, ByU32, dictionary, dictSize;
    s.history := OverHistory(dictionary, dictSize, source);
  }

  lemma OverIntact(s: Stream, n: nat, dictionary: nat, dictSize: nat, source: nat, size: nat)
    requires s.Valid() && s.dictCtx == null && s.dictionary == dictionary && s.dictSize == dictSize
    requires s.history == OverHistory(dictionary, dictSize, source) && source < dictionary + dictSize <= source + n <= size
    ensures s.Intact(OverMemory(source, dictionary + dictSize - source, size), source, n) == true
  {
  }

  /** The second byte of the input finds the overwritten end of the dictionary. */
  lemma OverHit(j: Job, t: seq<int>, v: nat, key: seq<byte>)
    requires MIN_LENGTH <= j.inputSize && j.Valid() && MINMATCH <= j.dictSize == j.startIndex
    requires j.mode == UsingExtDict && j.tableType == ByU32 && 1 <= v <= j.inputSize && j.dictionary + j.dictSize == j.source + v
    requires j.mem == OverMemory(j.source, v, |j.mem|)
    requires AtOne(t, j.dictSize - MINMATCH) == true
    requires key == j.mem[j.source + 1..j.source + 9] && forall w: seq<byte> :: j.hash(w) == if w == key then 1 else 0
    ensures |t| == TABLE_SIZE && FirstHit(j, t, []) && FirstOffset(j, t, []) == MINMATCH + 1
  {
    hide OverMemory, Same;
    OverSame(j.source, j.inputSize, v, |j.mem|);
    hide Over, BelowAtOne;
    OverHashes(j, key);
  }

  lemma OverHashes(j: Job, key: seq<byte>)
    requires 0 <= j.source && j.source + 9 <= |j.mem| && j.tableType == ByU32 && j.mem[j.source..j.source + 8] != key == j.mem[j.source + 1..j.source + 9]
    requires forall w: seq<byte> :: j.hash(w) == if w == key then 1 else 0
    ensures j.HashPosition(j.source) == 0 && j.HashPosition(j.source + 1) == 1
  {
    assert j.hash(j.mem[j.source..j.source + 8]) == 0 && j.hash(key) == 1;
  }

  lemma OverJob(s: Stream, mem: seq<byte>, source: int, n: nat, acceleration: int)
    requires s.dictCtx == null && MINMATCH <= s.dictSize && source < s.DictEnd() <= source + n && s.Valid()
    ensures s.Sound() == true
    ensures s.CallJob(mem, source, n, acceleration) ==
      Job(mem, source, n, s.currentOffset, s.dictionary, s.dictSize, 0, UsingExtDict, s.dictSize < 64 * KB && s.dictSize < s.currentOffset, ByU32,
          s.hash, Clamp(acceleration))
    ensures s.CallTables(source, n) == (s.hashTable[..], [])
    ensures s.Overruns(source, n)
    ensures s.dictionary != source || n <= s.dictSize + LASTLITERALS + 1 ==> s.CallJob(mem, source, n, acceleration).Distinct() == true
  {
  }

  /** The last byte of the overwritten dictionary is not what the first match of the block repeats. */
  lemma OverWrong(j: Job, t: seq<int>, block: seq<byte>, dictionary: nat, dictSize: nat, key: seq<byte>, text: seq<byte>)
    requires Done(j, t, [], block, text) == true && AtOne(t, dictSize - MINMATCH) == true
    requires MIN_LENGTH <= j.inputSize && MINMATCH <= dictSize == j.dictSize == j.startIndex && dictionary == j.dictionary
    requires j.mode == UsingExtDict && j.tableType == ByU32 && 0 <= j.source < dictionary + dictSize <= j.source + j.inputSize
    requires j.mem == OverMemory(j.source, dictionary + dictSize - j.source, |j.mem|) && text == j.mem[j.source..j.source + j.inputSize]
    requires key == j.mem[j.source + 1..j.source + 9] && forall w: seq<byte> :: j.hash(w) == if w == key then 1 else 0
    requires j.Distinct() == true
    ensures !Represents(block, OverHistory(dictionary, dictSize, j.source), text)
  {
    hide *;
    var v := dictionary + dictSize - j.source;
    var h := OverHistory(dictionary, dictSize, j.source);
    DoneValid(j, t, block, text);
    OverHit(j, t, v, key);
    DoneBegins(j, t, block, text);
    if Represents(block, h, text) {
      BeginsRepeats(block, j.History(), h, text, FirstOffset(j, t, []), MINMATCH);
      OverDiffers(dictionary, dictSize, j.source, j.inputSize, |j.mem|);
    }
  }

  lemma DoneValid(j: Job, t: seq<int>, block: seq<byte>, text: seq<byte>)
    requires Done(j, t, [], block, text) == true
    ensures j.Valid() && MINMATCH == 4
  {
  }

  lemma DoneBegins(j: Job, t: seq<int>, block: seq<byte>, text: seq<byte>)
    requires Done(j, t, [], block, text) == true && j.mode != UsingDictCtx && |t| == TABLE_SIZE && j.Valid() && FirstHit(j, t, []) && j.Distinct()
    ensures BeginsWith(block, j.History(), FirstOffset(j, t, []))
  {
    hide Represents, FirstHit, FirstOffset, BeginsWith, BeginsCounted, Job.Distinct;
  }

  lemma OverDiffers(dictionary: nat, dictSize: nat, source: nat, n: nat, size: nat)
    requires MINMATCH <= dictSize && source < dictionary + dictSize && MIN_LENGTH <= n && source + n <= size
    ensures var h, t := OverHistory(dictionary, dictSize, source), OverMemory(source, dictionary + dictSize - source, size)[source..source + n];
            (h + t)[dictSize + MINMATCH] != (h + t)[dictSize - 1]
  {
  }

  /**
   Every input of at least MIN_LENGTH bytes that runs over the end of the dictionary can get a block that
   decodes to something else: all it takes are bytes that make the stream copy from what was there
   before.
   */
  method OverrunFails(dictionary: nat, dictSize: nat, source: nat, n: nat, size: nat) returns (s: Stream, mem: seq<byte>)
    requires source + n <= size
    requires MINMATCH <= dictSize && source < dictionary + dictSize <= source + n && MIN_LENGTH <= n <= MAX_INPUT_SIZE && dictSize + n <= RENORM_LIMIT
    requires dictionary == source ==> n <= dictSize + LASTLITERALS + 1
    ensures s.Valid() == true && s.dictionary == dictionary && s.dictSize == dictSize && s.dictCtx == null && s.Overruns(source, n)
    ensures s.history == OverHistory(dictionary, dictSize, source) && mem == OverMemory(source, dictionary + dictSize - source, size)
    ensures Fails(s, mem, source, n) == true
  {
    hide *;
    mem := OverMemory(source, dictionary + dictSize - source, size);
    OverSizes(dictSize, n);
    var key := mem[source + 1..source + 9];
    s := OverStream(dictionary, dictSize, source, key);
    OverIntact(s, n, dictionary, dictSize, source, size);
    OverJob(s, mem, source, n, 1);
    ghost var j, t := s.CallJob(mem, source, n, 1), s.hashTable[..];
    ghost var text := mem[source..source + n];
    forall block | Done(j, t, [], block, text) == true ensures !Represents(block, s.history, text) {
      OverWrong(j, t, block, dictionary, dictSize, key, text);
    }
    WrongIs(j, t, [], s.history, text);
    FailsIs(s, mem, source, n, j, t, []);
  }

  lemma OverSizes(dictSize: nat, n: nat)
    requires MINMATCH <= dictSize && MIN_LENGTH <= n && dictSize + n <= RENORM_LIMIT
    ensures 13 <= n && dictSize <= RENORM_LIMIT && 4 <= dictSize
  {
  }

  /**
   A ring buffer that is smaller than twice the largest input: an input of that size can wrap around onto one of that size, and its
   block can decode to something else.
   */
  method RingTooSmall(size: nat, largest: nat) returns (s: Stream, before: seq<byte>, t: RoundTrip.Turn)
    requires MIN_LENGTH <= largest <= size < 2 * largest <= MAX_INPUT_SIZE
    ensures s.Valid() && s.dictionary == 0 && s.dictSize == largest && s.dictCtx == null
    ensures RoundTrip.Holds(RoundTrip.Window(0, largest, None), before, s.history) == true && RoundTrip.Ring([t], size, before, largest, largest) == true
    ensures t.size == largest && Fails(s, t.mem, t.source, t.size) == true
  {
    hide *;
    RingSizes(largest);
    var mem;
    s, mem := OverrunFails(0, largest, 0, largest, size);
    before := seq<byte>(size, a requires 0 <= a < |mem| => if a < largest then 0 else mem[a]);
    t := RoundTrip.Turn(mem, 0, largest, 0, 1, 0);
    RingIs(t, size, before, largest, s.history);
  }

  lemma RingSizes(largest: nat)
    requires MIN_LENGTH <= largest && 2 * largest <= MAX_INPUT_SIZE
    ensures MINMATCH <= largest && largest + largest <= RENORM_LIMIT && 0 <= LASTLITERALS
  {
  }

  lemma RingIs(t: RoundTrip.Turn, size: nat, before: seq<byte>, largest: nat, history: seq<byte>)
    requires MIN_LENGTH <= largest <= size < 2 * largest <= MAX_INPUT_SIZE && t.source == 0 && t.size == largest
    requires |t.mem| == |before| == size && history == OverHistory(0, largest, 0)
    requires forall a :: 0 <= a < size ==> before[a] == if a < largest then 0 else t.mem[a]
    ensures RoundTrip.Holds(RoundTrip.Window(0, largest, None), before, history) == true && RoundTrip.Ring([t], size, before, largest, largest) == true
  {
    assert [t][1..] == [];
  }

  lemma FailsIs(s: Stream, mem: seq<byte>, source: int, n: nat, j: Job, t: seq<int>, dictTable: seq<int>)
    requires s.Sound() == true && 0 <= source && source + n <= |mem| && s.Intact(mem, source, n) == true && 1 <= n <= MAX_INPUT_SIZE && s.currentOffset + n <= RENORM_LIMIT
    requires j == s.CallJob(mem, source, n, 1) && s.CallTables(source, n) == (t, dictTable)
    requires AlwaysWrong(j, t, dictTable, s.history, mem[source..source + n]) == true
    ensures Fails(s, mem, source, n) == true
  {
    hide AlwaysWrong;
  }

  lemma WrongIs(j: Job, t: seq<int>, dictTable: seq<int>, h: seq<byte>, text: seq<byte>)
    requires forall block :: Done(j, t, dictTable, block, text) ==> !Represents(block, h, text)
    ensures AlwaysWrong(j, t, dictTable, h, text) == true
  {
    hide Done, Represents;
  }

  // ----- And one that does so after LZ4_loadDict -----

  /** A hash that only looks at the first byte. */
  function FirstByte(w: seq<byte>): nat { if |w| > 0 && w[0] == 2 then 0 else 1 }

  /** The only entry of a table that was filled from eight bytes. */
  lemma OnlyEntry(hash: seq<byte> -> nat, t: seq<int>, mem: seq<byte>, dictEnd: int, k: nat)
    requires Filling(hash, t, mem, dictEnd - 8, dictEnd, k) && Third(dictEnd - 8, k) > dictEnd - 8 && 8 <= dictEnd
    ensures |t| == TABLE_SIZE && t[hash(EightAt(mem, dictEnd - 8)) % HASH_SIZE_U32] == 64 * KB - 8
    ensures forall h :: 0 <= h < HASH_SIZE_U32 && h != hash(EightAt(mem, dictEnd - 8)) % HASH_SIZE_U32 ==> t[h] == 0
  {
    assert Third(dictEnd - 8, 0) == dictEnd - 8;
    assert 64 * KB - (dictEnd - Third(dictEnd - 8, 0)) <= t[hash(EightAt(mem, Third(dictEnd - 8, 0))) % HASH_SIZE_U32];
  }

  /** Memory in which a dictionary of eight bytes ends at 16, before and after an input of 13 bytes comes to 10. */
  function RingMemory(written: bool): (mem: seq<byte>)
    ensures |mem| == 23 && forall a :: 0 <= a < 23 ==> mem[a] == RingByte(written, a)
  {
    seq<byte>(23, a => RingByte(written, a))
  }

  function RingByte(written: bool, a: int): (b: byte) { if written && a in {10, 13} then 2 else 1 }

  lemma RingHit(j: Job, t: seq<int>)
    requires j == Job(RingMemory(true), 10, 13, 64 * KB, 8, 8, 0, UsingExtDict, true, ByU32, FirstByte, 1) && j.Valid()
    requires AtOne(t, 64 * KB - 8) == true
    ensures |t| == TABLE_SIZE && FirstHit(j, t, []) && FirstOffset(j, t, []) == 9
  {
    hide RingMemory;
    assert j.mem[10..18][0] == 2 && j.mem[11..19][0] == 1;
    assert j.HashPosition(10) == 0 && j.HashPosition(11) == 1;
    assert j.mem[8..12] == [1, 1, 2, 1] == j.mem[11..15];
  }

  lemma RingWrong(j: Job, t: seq<int>, block: seq<byte>)
    requires j == Job(RingMemory(true), 10, 13, 64 * KB, 8, 8, 0, UsingExtDict, true, ByU32, FirstByte, 1)
    requires AtOne(t, 64 * KB - 8) == true && Done(j, t, [], block, RingMemory(true)[10..23]) == true
    ensures !Represents(block, RingMemory(false)[8..16], RingMemory(true)[10..23])
  {
    hide RingMemory, FirstHit, FirstOffset, BeginsWith, BeginsCounted, Represents;
    var history, text := RingMemory(false)[8..16], RingMemory(true)[10..23];
    RingHit(j, t);
    assert history[2] == 1 && text[3] == 2;
    if Represents(block, history, text) {
      BeginsRepeats(block, j.History(), history, text, 9, 3);
    }
  }

  lemma RingJob(s: Stream)
    requires s.Valid() == true && s.dictionary == 8 && s.dictSize == 8 && s.DictEnd() == 16 && s.dictCtx == null && s.currentOffset == 64 * KB
    requires s.history == RingMemory(false)[8..16] && s.hash == FirstByte
    ensures s.CallJob(RingMemory(true), 10, 13, 1) == Job(RingMemory(true), 10, 13, 64 * KB, 8, 8, 0, UsingExtDict, true, ByU32, FirstByte, 1)
    ensures s.CallTables(10, 13) == (s.hashTable[..], [])
    ensures s.Overruns(10, 13) && s.Sound() == true && s.Intact(RingMemory(true), 10, 13) == true && 64 * KB + 13 <= RENORM_LIMIT && 13 <= MAX_INPUT_SIZE
  {
    hide Reusable;
  }

  method LoadEight() returns (s: Stream)
    ensures fresh(s) && fresh(s.hashTable) && s.Valid() == true && s.dictionary == 8 && s.dictSize == 8 && s.DictEnd() == 16 && s.dictCtx == null
    ensures s.currentOffset == 64 * KB && s.history == RingMemory(false)[8..16] && s.hash == FirstByte && AtOne(s.hashTable[..], 64 * KB - 8) == true
  {
    hide Filling, RingMemory;
    s := new Stream(FirstByte);
    var loaded, k := s.LoadDict(RingMemory(false), 8, 8);
    OnlyEntry(FirstByte, s.hashTable[..], RingMemory(false), 16, k);
    assert EightAt(RingMemory(false), 8)[0] == 1;
  }

  /** A dictionary of eight bytes is loaded, and an input comes that runs over its end. */
  method LoadedDictionaryFails() returns (s: Stream)
    ensures s.Valid() == true && s.Overruns(10, 13) && Fails(s, RingMemory(true), 10, 13) == true && s.history == RingMemory(false)[8..16]
  {
    hide *;
    s := LoadEight();
    RingJob(s);
    ghost var t, j, text := s.hashTable[..], s.CallJob(RingMemory(true), 10, 13, 1), RingMemory(true)[10..10 + 13];
    forall block | Done(j, t, [], block, text) == true ensures !Represents(block, s.history, text) { RingWrong(j, t, block); }
    WrongIs(j, t, [], s.history, text);
    FailsIs(s, RingMemory(true), 10, 13, j, t, []);
  }

  // ----- A dictionary at the address of the input -----

  /** What a match of the block stands for does not depend on what follows it. */
  lemma FirstStays(block: seq<byte>, h: seq<byte>, q: Emitted, text: seq<byte>)
    requires 1 <= q.offset <= |h| + |q.literals| && q.offset <= DISTANCE_MAX && MINMATCH <= q.length < U32_SIZE && |q.literals| < U32_SIZE
    requires Encode(q) <= block && Decode(block, 0, h) == Output(h + text)
    ensures CopyMatch(h + q.literals, q.offset, q.length) <= h + text
  {
    hide ReadSequence, Encode, CopyMatch;
    assert block[0..0 + |Encode(q)|] == Encode(q);
    SequenceRead(block, 0, q);
    DecodeStep(block, 0, h);
    hide Decode;
    DecodeExtends(block, ReadSequence(block, 0).next, CopyMatch(h + q.literals, q.offset, q.length));
  }

  /** A hash that makes every position a candidate for the next one. */
  function Constant(w: seq<byte>): nat { 0 }

  /** A job whose two segments begin at the same address, for an input that goes on well behind the dictionary. */
  ghost predicate Confused(j: Job) {
    && j.Valid() && j.TwoSegments() && j.dictionary == j.source && 5 <= j.dictSize && j.dictSize + LASTLITERALS + 2 <= j.inputSize && MIN_LENGTH < j.inputSize
    && j.mem == Confusing(j.source, j.dictSize, j.inputSize) && j.hash == Constant && j.acceleration == 1 && j.tableType == ByU32
  }

  /** The second position that is tried finds the one before it. */
  lemma ConfusedHit(j: Job, t: seq<int>, dictTable: seq<int>)
    requires Confused(j) && |t| == TABLE_SIZE && (j.mode == UsingDictCtx ==> |dictTable| == TABLE_SIZE)
    ensures MIN_LENGTH <= j.inputSize && SecondHit(j, WithFirst(j, t), dictTable, j.source + 1)
    ensures var t' := WithPosition(j, WithFirst(j, t), j.source + 1);
            HitOffset(j, t', dictTable, j.source + 2) == 1 && HitAddress(j, t', dictTable, j.source + 2) == j.source + 1
  {
    hide Confusing;
    var s, mem := j.source, j.mem;
    assert mem[s..s + 4][0] == mem[s] == 2 && mem[s + 1..s + 5][0] == mem[s + 1] == 1;
    assert mem[s + 1..s + 5] == [1, 1, 1, 1] == mem[s + 2..s + 6];
  }

  /** It is counted past the end of the dictionary, so that no block of such a job stands for the input, whatever is in front. */
  lemma ConfusedFails(j: Job, t: seq<int>, dictTable: seq<int>, block: seq<byte>, h: seq<byte>)
    requires Confused(j) && |t| == TABLE_SIZE && (j.mode == UsingDictCtx ==> |dictTable| == TABLE_SIZE)
    requires Done(j, t, dictTable, block, j.mem[j.source..j.End()]) == true
    ensures !Represents(block, h, j.mem[j.source..j.End()])
  {
    ConfusedHit(j, t, dictTable);
    ConfusedParts(j);
    DoneCounted(j, t, dictTable, block, j.mem[j.source..j.End()]);
    hide *;
    ConfusedWrong(j, block, h, CountedLength(j.mem, j.source + 2, j.source + 1, j.dictionary + j.dictSize, j.source, j.End() - LASTLITERALS));
  }

  lemma ConfusedParts(j: Job)
    requires Confused(j)
    ensures j.source + 2 + MINMATCH <= j.End() - LASTLITERALS <= |j.mem| && j.dictionary + j.dictSize <= |j.mem|
    ensures j.dictSize <= CountedLength(j.mem, j.source + 2, j.source + 1, j.dictionary + j.dictSize, j.source, j.End() - LASTLITERALS)
  {
    hide CountedLength, Confusing;
    ConfusingCounted(j.source, j.dictSize, j.inputSize);
  }

  lemma DoneCounted(j: Job, t: seq<int>, dictTable: seq<int>, block: seq<byte>, text: seq<byte>)
    requires Done(j, t, dictTable, block, text) == true && j.Valid() && |t| == TABLE_SIZE && (j.mode == UsingDictCtx ==> |dictTable| == TABLE_SIZE)
    requires MIN_LENGTH <= j.inputSize && SecondHit(j, WithFirst(j, t), dictTable, j.source + 1)
    requires var t' := WithPosition(j, WithFirst(j, t), j.source + 1);
             HitOffset(j, t', dictTable, j.source + 2) == 1 && HitAddress(j, t', dictTable, j.source + 2) == j.source + 1
    requires j.source + 2 + MINMATCH <= j.End() - LASTLITERALS <= |j.mem| && j.dictionary + j.dictSize <= |j.mem|
    ensures var n := CountedLength(j.mem, j.source + 2, j.source + 1, j.dictionary + j.dictSize, j.source, j.End() - LASTLITERALS);
            Encode(Emitted(j.mem[j.source..j.source + 2], 1, n)) <= block
  {
    hide SecondHit, HitOffset, HitAddress, CountedLength, Represents, FirstHit, FirstOffset, BeginsWith, Encode, WithPosition, WithFirst, EncodeLiterals;
  }

  lemma ConfusedWrong(j: Job, block: seq<byte>, h: seq<byte>, n: nat)
    requires Confused(j) && j.dictSize <= n <= j.inputSize && Encode(Emitted(j.mem[j.source..j.source + 2], 1, n)) <= block
    ensures !Represents(block, h, j.mem[j.source..j.End()])
  {
    hide Encode, Decode, CopyMatch, EndConditions, Confusing;
    var text, q := j.mem[j.source..j.End()], Emitted(j.mem[j.source..j.source + 2], 1, n);
    var k := |h| + j.dictSize + 1;
    assert (h + text)[k] == text[j.dictSize + 1] == 2 && (h + text)[k - 1] == text[j.dictSize] == 1;
    if Represents(block, h, text) {
      FirstStays(block, h, q, text);
      CopyRepeats(h + q.literals, 1, n, k);
    }
  }

  /** A stream that has to fail because its job is confused. */
  lemma ConfusedStream(s: Stream, mem: seq<byte>, source: int, n: nat)
    requires s.Sound() == true && 0 <= source && source + n <= |mem| && s.Intact(mem, source, n) == true && 1 <= n <= MAX_INPUT_SIZE && s.currentOffset + n <= RENORM_LIMIT
    requires Confused(s.CallJob(mem, source, n, 1)) && |s.CallTables(source, n).0| == TABLE_SIZE
    requires s.CallJob(mem, source, n, 1).mode == UsingDictCtx ==> |s.CallTables(source, n).1| == TABLE_SIZE
    requires s.CallJob(mem, source, n, 1).mem == mem && s.CallJob(mem, source, n, 1).source == source && s.CallJob(mem, source, n, 1).inputSize == n
    ensures Fails(s, mem, source, n) == true
  {
    var j, t, text := s.CallJob(mem, source, n, 1), s.CallTables(source, n), mem[source..source + n];
    assert j.End() == source + n;
    hide *;
    forall block | Done(j, t.0, t.1, block, text) == true ensures !Represents(block, s.history, text) { ConfusedFails(j, t.0, t.1, block, s.history); }
    WrongIs(j, t.0, t.1, s.history, text);
    FailsIs(s, mem, source, n, j, t.0, t.1);
  }

  /** An attached dictionary, whatever its size, and an input at its address that goes on well behind it. */
  method AttachedConfusion(source: nat, dictSize: nat, n: nat) returns (s: Stream, mem: seq<byte>)
    requires 8 <= dictSize <= 64 * KB && dictSize + LASTLITERALS + 2 <= n <= MAX_INPUT_SIZE
    ensures s.Valid() && s.dictCtx != null && s.dictCtx.dictionary == source && s.dictCtx.dictSize == dictSize && s.Ambiguous(source, n)
    ensures |mem| == source + n && Fails(s, mem, source, n) == true
  {
    hide *;
    mem := Confusing(source, dictSize, n);
    Sizes(source, dictSize, n, mem);
    ghost var k;
    s, k := Attach(Constant, mem, source, dictSize);
    AttachedJob(s, mem, source, dictSize, n);
    ConfusedStream(s, mem, source, n);
  }

  lemma Sizes(source: nat, dictSize: nat, n: nat, mem: seq<byte>)
    requires 8 <= dictSize <= 64 * KB && dictSize + LASTLITERALS + 2 <= n <= MAX_INPUT_SIZE && mem == Confusing(source, dictSize, n)
    ensures 8 <= dictSize <= 64 * KB && source + dictSize <= |mem| == source + n
  {
  }

  /** A stream to which a dictionary is attached that has just been loaded. */
  method Attach(hash: seq<byte> -> nat, mem: seq<byte>, dictionary: nat, dictSize: nat) returns (s: Stream, ghost k: nat)
    requires 8 <= dictSize <= 64 * KB && dictionary + dictSize <= |mem|
    ensures fresh(s) && fresh(s.hashTable) && s.dictCtx != null && fresh(s.dictCtx) && fresh(s.dictCtx.hashTable)
    ensures s.Valid() == true && s.Intact(mem, 0, 0) == true && s.hash == hash && s.dictSize == 0 && s.dictionary == NULL && s.currentOffset == 64 * KB
    ensures s.dictCtx != s && s.dictCtx.hashTable != s.hashTable && s.dictCtx.history == s.history
    ensures s.dictCtx.dictionary == dictionary && s.dictCtx.dictSize == dictSize && s.dictCtx.currentOffset == 64 * KB
    ensures s.history == mem[dictionary..dictionary + dictSize] && Third(dictionary, k) > dictionary + dictSize - 8
    ensures Filling(hash, s.dictCtx.hashTable[..], mem, dictionary, dictionary + dictSize, k) == true
  {
    hide *;
    LoadSizes(dictSize);
    var d := new Stream(hash);
    StartsEmpty(d);
    var loaded;
    loaded, k := d.LoadDict(mem, dictionary, dictSize);
    s := new Stream(hash);
    StartsEmpty(s);
    IsLoaded(d);
    s.AttachDictionary(d);
    IsAttached(s, d, mem);
  }

  lemma LoadSizes(n: nat)
    requires 8 <= n <= 64 * KB
    ensures Min(n, 64 * KB) == n && Max(0, 64 * KB) == 64 * KB && 0 < KB
  {
  }

  lemma StartsEmpty(s: Stream)
    requires s.Usable() == true && s.Fresh() == true
    ensures s.Valid() == true && s.hashTable.Length == TABLE_SIZE && s.dictSize == 0 && s.history == [] && s.dictCtx == null
    ensures s.dictionary == NULL && s.currentOffset == 0
  {
  }

  lemma IsLoaded(d: Stream)
    requires d.Loaded() == true
    ensures d.dictSize >= 8 && |d.history| == d.dictSize && d.DictEnd() == d.dictionary + d.dictSize && d.hashTable.Length == TABLE_SIZE
  {
  }

  lemma IsAttached(s: Stream, d: Stream, mem: seq<byte>)
    requires s.Valid() == true && s.dictCtx == d && s.dictSize == 0 && s.dictionary == NULL && d.DictEnd() <= |mem| && mem[d.dictionary..d.DictEnd()] == d.history
    ensures s.Intact(mem, 0, 0) == true
  {
  }

  lemma TableSizes(s: Stream)
    requires s.Sound() == true
    ensures s.hashTable.Length == TABLE_SIZE && (s.dictCtx != null ==> s.dictCtx.hashTable.Length == TABLE_SIZE)
  {
  }

  lemma AttachedJob(s: Stream, mem: seq<byte>, source: nat, dictSize: nat, n: nat)
    requires s.Valid() == true && s.Intact(mem, 0, 0) == true && s.hash == Constant && s.dictSize == 0 && s.dictionary == NULL && s.currentOffset == 64 * KB
    requires s.dictCtx != null && s.dictCtx.dictionary == source && s.dictCtx.dictSize == dictSize && s.dictCtx.currentOffset == 64 * KB
    requires 8 <= dictSize <= 64 * KB && dictSize + LASTLITERALS + 2 <= n <= MAX_INPUT_SIZE && mem == Confusing(source, dictSize, n)
    ensures s.Sound() == true && s.Intact(mem, source, n) == true && s.Ambiguous(source, n) && s.currentOffset + n <= RENORM_LIMIT && 1 <= n
    ensures var j, t := s.CallJob(mem, source, n, 1), s.CallTables(source, n);
            Confused(j) && j.mem == mem && j.source == source && j.inputSize == n && |t.0| == TABLE_SIZE && (j.mode == UsingDictCtx ==> |t.1| == TABLE_SIZE)
  {
    hide Confusing, Reusable;
    TableSizes(s);
  }

  /** A first block of any bytes, and a longer input at its address. */
  method OwnConfusion(first: seq<byte>, source: nat, dictSize: nat, n: nat) returns (s: Stream, mem: seq<byte>)
    requires 5 <= dictSize <= MAX_INPUT_SIZE && MIN_LENGTH < n && dictSize + LASTLITERALS + 2 <= n <= MAX_INPUT_SIZE && 64 * KB + dictSize + n <= RENORM_LIMIT
    requires source + dictSize <= |first|
    ensures s.Valid() && s.dictCtx == null && s.dictionary == source && s.history == first[source..source + dictSize] && s.Ambiguous(source, n)
    ensures |mem| == source + n && Fails(s, mem, source, n) == true
  {
    hide *;
    mem := Confusing(source, dictSize, n);
    s := new Stream(Constant);
    StartsEmpty(s);
    FirstCall(s, first, source, dictSize, n);
    var dst := new byte[0];
    var result, lost := s.CompressFastContinue(first, source, dictSize, dst, 0, 0, 1);
    TakenParts(result, dictSize);
    OwnJob(s, mem, source, dictSize, n);
    ConfusedStream(s, mem, source, n);
  }

  lemma FirstCall(s: Stream, mem: seq<byte>, source: nat, dictSize: nat, n: nat)
    requires s.Valid() == true && s.dictSize == 0 && s.history == [] && s.dictCtx == null && s.dictionary == NULL && s.currentOffset == 0
    requires 1 <= dictSize <= MAX_INPUT_SIZE && source + dictSize <= |mem| && 64 * KB + dictSize + n <= RENORM_LIMIT
    ensures s.Sound() == true && s.Intact(mem, source, dictSize) == true && s.Faithful(mem, source, dictSize) == true && s.DictEnd() == NULL == -1
    ensures Max(0, 64 * KB) == 64 * KB && [] + mem[source..source + dictSize] == mem[source..source + dictSize]
  {
  }

  lemma OwnJob(s: Stream, mem: seq<byte>, source: nat, dictSize: nat, n: nat)
    requires s.Valid() == true && s.hash == Constant && s.dictCtx == null && s.dictionary == source && s.DictEnd() == source + dictSize
    requires s.currentOffset <= 64 * KB + dictSize && 64 * KB + dictSize + n <= RENORM_LIMIT
    requires 5 <= dictSize && MIN_LENGTH < n && dictSize + LASTLITERALS + 2 <= n <= MAX_INPUT_SIZE && mem == Confusing(source, dictSize, n)
    ensures s.Sound() == true && s.Intact(mem, source, n) == true && s.Ambiguous(source, n) && s.currentOffset + n <= RENORM_LIMIT && 1 <= n
    ensures |mem| == source + n
    ensures var j, t := s.CallJob(mem, source, n, 1), s.CallTables(source, n);
            Confused(j) && j.mem == mem && j.source == source && j.inputSize == n && |t.0| == TABLE_SIZE && j.mode != UsingDictCtx
  {
    hide Confusing, Reusable;
    TableSizes(s);
  }

  // ----- A dictionary that stays attached -----

  /** The last position of a dictionary that goes into the table. */
  function LastThird(dictSize: nat): (q: nat)
    requires 8 <= dictSize
    ensures dictSize - 10 <= q <= dictSize - 8
  {
    3 * ((dictSize - 8) / 3)
  }

  function StaleByte(ones: int, source: int, a: int): (b: byte) {
    if a == source then 3 else if a < ones || source < a < source + 5 then 1 else 2
  }

  /** Memory in which the bytes in front of `ones` are 1, and the input begins with 3, 1, 1, 1, 1; all else is 2. */
  function StaleMemory(ones: int, source: nat, n: nat): (mem: seq<byte>)
    ensures |mem| == source + n && forall a :: 0 <= a < |mem| ==> mem[a] == StaleByte(ones, source, a)
  {
    seq<byte>(source + n, a => StaleByte(ones, source, a))
  }

  /** A hash that tells the last of the ones from everything else. */
  function LastOnes(w: seq<byte>): nat { if w == [1, 1, 1, 1, 2, 2, 2, 2] then 1 else 0 }

  lemma StaleEight(mem: seq<byte>, ones: int, source: nat, n: nat, p: int)
    requires mem == StaleMemory(ones, source, n) && 0 <= p && p + 8 <= source
    ensures LastOnes(EightAt(mem, p)) == 1 <==> p + 4 == ones
  {
    hide StaleMemory;
    var w := EightAt(mem, p);
    assert w[3] == mem[p + 3] && w[4] == mem[p + 4];
    if p + 4 == ones { assert w == [1, 1, 1, 1, 2, 2, 2, 2]; }
  }

  /** A slot holds a position with its hash, and none in front of position `i` if that has this hash too. */
  lemma FillingAt(hash: seq<byte> -> nat, t: seq<int>, mem: seq<byte>, p0: int, dictEnd: int, k: nat, i: nat, h: nat)
    requires Filling(hash, t, mem, p0, dictEnd, k) && i < k && hash(EightAt(mem, Third(p0, i))) % HASH_SIZE_U32 == h && dictEnd - Third(p0, i) < 64 * KB
    ensures |t| == TABLE_SIZE && h < HASH_SIZE_U32 && 64 * KB - (dictEnd - Third(p0, i)) <= t[h] <= 64 * KB - 8
    ensures hash(EightAt(mem, dictEnd - 64 * KB + t[h])) % HASH_SIZE_U32 == h
  {
    hide EightAt;
  }

  /** Of the dictionary's table, slot 1 holds the last position. */
  lemma StaleFilled(t: seq<int>, mem: seq<byte>, dictionary: nat, dictSize: nat, source: nat, n: nat, k: nat)
    requires 8 <= dictSize <= 64 * KB && dictionary + dictSize <= source && mem == StaleMemory(dictionary + LastThird(dictSize) + 4, source, n)
    requires Filling(LastOnes, t, mem, dictionary, dictionary + dictSize, k) == true && Third(dictionary, k) > dictionary + dictSize - 8
    ensures AtOne(t, 64 * KB - (dictSize - LastThird(dictSize))) == true
  {
    hide *;
    var q, dictEnd := LastThird(dictSize), dictionary + dictSize;
    var i := LastIndex(dictionary, dictSize, k);
    StaleEight(mem, dictionary + q + 4, source, n, dictionary + q);
    OneOrNot(EightAt(mem, dictionary + q));
    FillingAt(LastOnes, t, mem, dictionary, dictEnd, k, i, 1);
    StaleEight(mem, dictionary + q + 4, source, n, dictEnd - 64 * KB + t[1]);
    OneOrNot(EightAt(mem, dictEnd - 64 * KB + t[1]));
    AtOneIs(t, 64 * KB - (dictSize - q));
  }

  lemma LastIndex(dictionary: nat, dictSize: nat, k: nat) returns (i: nat)
    requires 8 <= dictSize <= 64 * KB && Third(dictionary, k) > dictionary + dictSize - 8
    ensures i < k && Third(dictionary, i) == dictionary + LastThird(dictSize) && dictSize - LastThird(dictSize) < 64 * KB && 1 < TABLE_SIZE
  {
    i := (dictSize - 8) / 3;
  }

  lemma AtOneIs(t: seq<int>, e: int)
    requires |t| == TABLE_SIZE && t[1] == e
    ensures AtOne(t, e) == true
  {
  }

  lemma OneOrNot(w: seq<byte>)
    ensures LastOnes(w) % HASH_SIZE_U32 == LastOnes(w)
  {
  }

  /** A job that looks into a dictionary whose last position is that of the second byte of the input. */
  ghost predicate StaleFor(j: Job, t: seq<int>, dictTable: seq<int>) {
    var q := if 8 <= j.dictSize then LastThird(j.dictSize) else 0;
    && 8 <= j.dictSize <= 64 * KB && 0 <= j.dictionary && j.dictionary + j.dictSize <= j.source && MIN_LENGTH <= j.inputSize
    && j.mem == StaleMemory(j.dictionary + q + 4, j.source, j.inputSize) && j.hash == LastOnes && j.tableType == ByU32
    && if j.mode == UsingDictCtx then j.dictCtxOffset == 64 * KB && AtOne(dictTable, 64 * KB - (j.dictSize - q)) && BelowAtOne(t, j.startIndex)
       else j.mode == UsingExtDict && j.startIndex == 64 * KB && !j.small && AtOne(t, 64 * KB - (j.dictSize - q))
  }

  lemma StaleBytes(ones: int, source: nat, n: nat, m: int)
    requires MIN_LENGTH <= n && 0 <= m && m + 4 == ones <= source
    ensures var mem := StaleMemory(ones, source, n);
            mem[source..source + 8] != [1, 1, 1, 1, 2, 2, 2, 2] == mem[source + 1..source + 9] && Same(mem, m, source + 1, MINMATCH)
  {
    hide StaleMemory;
    var mem := StaleMemory(ones, source, n);
    assert mem[source..source + 8][0] == mem[source] == 3;
    assert mem[m..m + 4] == [1, 1, 1, 1] == mem[source + 1..source + 5];
  }

  lemma StaleHashes(j: Job)
    requires 0 <= j.source && j.source + 9 <= |j.mem| && j.tableType == ByU32 && j.hash == LastOnes
    requires j.mem[j.source..j.source + 8] != [1, 1, 1, 1, 2, 2, 2, 2] == j.mem[j.source + 1..j.source + 9]
    ensures j.HashPosition(j.source) == 0 && j.HashPosition(j.source + 1) == 1
  {
  }

  lemma StaleAlike(j: Job, t: seq<int>, dictTable: seq<int>)
    requires StaleFor(j, t, dictTable) && j.Valid()
    ensures 8 <= j.dictSize && 0 <= j.source && j.source + 9 <= |j.mem| && j.HashPosition(j.source) == 0 && j.HashPosition(j.source + 1) == 1
    ensures Same(j.mem, j.dictionary + LastThird(j.dictSize), j.source + 1, MINMATCH)
  {
    hide StaleMemory, LastThird, Same, LastOnes, Job.HashPosition;
    var m := j.dictionary + LastThird(j.dictSize);
    StaleBytes(m + 4, j.source, j.inputSize, m);
    StaleHashes(j);
  }

  lemma StaleHit(j: Job, t: seq<int>, dictTable: seq<int>)
    requires StaleFor(j, t, dictTable) && j.Valid()
    ensures |t| == TABLE_SIZE && (j.mode == UsingDictCtx ==> |dictTable| == TABLE_SIZE)
    ensures FirstHit(j, t, dictTable) && FirstOffset(j, t, dictTable) == 1 + j.dictSize - LastThird(j.dictSize)
  {
    hide StaleMemory, LastThird, Same, Job.HashPosition;
    StaleAlike(j, t, dictTable);
  }

  lemma StaleParts(j: Job, t: seq<int>, dictTable: seq<int>, block: seq<byte>, text: seq<byte>)
    requires StaleFor(j, t, dictTable) && Done(j, t, dictTable, block, text) == true
    ensures j.Valid() && j.Distinct() && 8 <= j.dictSize && MINMATCH == 4
    ensures FirstHit(j, t, dictTable) ==> BeginsWith(block, j.History(), FirstOffset(j, t, dictTable))
  {
    hide Represents, FirstHit, FirstOffset, BeginsWith, BeginsCounted, StaleMemory, LastThird;
  }

  /** The block copies from the dictionary, where a decoder has what was compressed since. */
  lemma StaleWrong(j: Job, t: seq<int>, dictTable: seq<int>, block: seq<byte>, behind: int, between: nat, h: seq<byte>, text: seq<byte>)
    requires StaleFor(j, t, dictTable) == true && Done(j, t, dictTable, block, text) == true && text == j.mem[j.source..j.source + j.inputSize]
    requires MINMATCH <= between && j.dictionary + j.dictSize <= behind && behind + between <= j.source
    requires h == j.mem[j.dictionary..j.dictionary + j.dictSize] + j.mem[behind..behind + between]
    ensures !Represents(block, h, text)
  {
    hide *;
    StaleParts(j, t, dictTable, block, text);
    StaleHit(j, t, dictTable);
    StaleDiffers(j, t, dictTable, behind, between, h, text);
    if Represents(block, h, text) {
      BeginsRepeats(block, j.History(), h, text, 1 + j.dictSize - LastThird(j.dictSize), 1);
    }
  }

  lemma StaleDiffers(j: Job, t: seq<int>, dictTable: seq<int>, behind: int, between: nat, h: seq<byte>, text: seq<byte>)
    requires StaleFor(j, t, dictTable) && j.Valid() && text == j.mem[j.source..j.source + j.inputSize]
    requires MINMATCH <= between && j.dictionary + j.dictSize <= behind && behind + between <= j.source
    requires h == j.mem[j.dictionary..j.dictionary + j.dictSize] + j.mem[behind..behind + between]
    ensures |j.History()| <= |h| && 8 <= j.dictSize
    ensures (h + text)[|h| + 1] == 1 && (h + text)[|h| + 1 - (1 + j.dictSize - LastThird(j.dictSize))] == 2
  {
    hide StaleMemory, LastThird;
    var q, d, size := LastThird(j.dictSize), j.dictionary, j.dictSize;
    assert (h + text)[|h| + 1] == text[1] == j.mem[j.source + 1];
    assert |h| == size + between;
    assert (h + text)[between + q] == h[between + q] == if between + q < size then j.mem[d + between + q] else j.mem[behind + between + q - size];
  }

  lemma StaleIs(s: Stream, mem: seq<byte>, dictionary: nat, dictSize: nat, behind: int, between: nat, source: nat, n: nat)
    requires s.Sound() == true && s.dictCtx != null && s.dictCtx.dictionary == dictionary && s.dictCtx.dictSize == dictSize && s.dictCtx.currentOffset == 64 * KB
    requires 8 <= dictSize <= 64 * KB && MINMATCH <= between && dictionary + dictSize <= behind && behind + between < source && MIN_LENGTH <= n
    requires s.dictionary == behind && s.dictSize == between && s.hash == LastOnes && mem == StaleMemory(dictionary + LastThird(dictSize) + 4, source, n)
    requires AtOne(s.dictCtx.hashTable[..], 64 * KB - (dictSize - LastThird(dictSize))) == true
    ensures StaleFor(s.CallJob(mem, source, n, 1), s.CallTables(source, n).0, s.CallTables(source, n).1) == true
    ensures var j := s.CallJob(mem, source, n, 1);
            j.dictionary == dictionary && j.dictSize == dictSize && j.source == source && j.inputSize == n && j.mem == mem
  {
    hide StaleMemory, LastThird;
  }

  /**
   A dictionary is attached; then come an empty call, a block at the same place, and an input at another one. Its block copies
   from the dictionary, although the block in between is what a decoder has in front, and that is so for every dictionary, every
   place, and every block of at least four bytes.
   */
  method StaleDictionaryFails(dictionary: nat, dictSize: nat, behind: int, between: nat, source: nat, n: nat)
    returns (s: Stream, mem: seq<byte>, ghost left: bool)
    requires 8 <= dictSize <= 64 * KB && MINMATCH <= between <= MAX_INPUT_SIZE && MIN_LENGTH <= n <= MAX_INPUT_SIZE
    requires dictionary + dictSize <= behind && behind + between < source && 64 * KB + between + n <= RENORM_LIMIT
    ensures |mem| == source + n && left && s.dictCtx != null && s.dictCtx.dictSize == dictSize && !s.Valid()
    ensures s.history == mem[dictionary..dictionary + dictSize] + mem[behind..behind + between]
    ensures s.Sound() == true && s.Intact(mem, 0, 0) == true && !s.Overruns(source, n) && !s.LeavesBehind(source, n) && !s.Ambiguous(source, n)
    ensures Fails(s, mem, source, n) == true
  {
    hide *;
    StaleSizes(dictSize, n, between);
    mem := StaleMemory(dictionary + LastThird(dictSize) + 4, source, n);
    ghost var k;
    s, k := Attach(LastOnes, mem, dictionary, dictSize);
    StaleFilled(s.dictCtx.hashTable[..], mem, dictionary, dictSize, source, n, k);
    StaleStart(s, mem, behind);
    var dst := new byte[16];
    var result, lost := s.CompressFastContinue(mem, behind, 0, dst, 0, 16, 1);
    TakenParts(result, 0);
    assert mem[behind..behind + 0] == [];
    StaleSecond(s, mem, behind, between);
    left := s.LeavesBehind(behind, between);
    result, lost := s.CompressFastContinue(mem, behind, between, dst, 0, 16, 1);
    TakenParts(result, between);
    StaleThird(s, mem, dictionary, dictSize, behind, between, source, n);
    StaleIs(s, mem, dictionary, dictSize, behind, between, source, n);
    ghost var j, t, h, text := s.CallJob(mem, source, n, 1), s.CallTables(source, n), s.history, mem[source..source + n];
    forall block | Done(j, t.0, t.1, block, text) == true ensures !Represents(block, h, text) {
      StaleWrong(j, t.0, t.1, block, behind, between, h, text);
    }
    WrongIs(j, t.0, t.1, h, text);
    FailsIs(s, mem, source, n, j, t.0, t.1);
  }

  lemma StaleSizes(dictSize: nat, n: nat, between: nat)
    requires 8 <= dictSize <= 64 * KB && MINMATCH <= between <= MAX_INPUT_SIZE && MIN_LENGTH <= n <= MAX_INPUT_SIZE && 64 * KB + between + n <= RENORM_LIMIT
    ensures CompressBound(0) <= 16
    ensures 4 <= between && 13 <= n && 1 <= MAX_INPUT_SIZE && 0 <= MAX_INPUT_SIZE && 64 * KB + 0 <= RENORM_LIMIT && Max(64 * KB, 64 * KB) == 64 * KB
    ensures forall a :: Max(a, 64 * KB) == if a > 64 * KB then a else 64 * KB
  {
  }

  lemma StaleStart(s: Stream, mem: seq<byte>, behind: nat)
    requires s.Valid() == true && s.Intact(mem, 0, 0) == true && s.dictSize == 0 && s.dictionary == NULL
    ensures s.Sound() == true && s.Faithful(mem, behind, 0) == true && s.Intact(mem, behind, 0) == true && s.DictEnd() != behind && !s.Ambiguous(behind, 0)
  {
    hide Reusable;
  }

  lemma StaleSecond(s: Stream, mem: seq<byte>, behind: nat, between: nat)
    requires s.Valid() == true && s.Intact(mem, 0, 0) == true && s.DictEnd() == behind && s.dictCtx != null && between > 0
    ensures s.LeavesBehind(behind, between) && s.Sound() == true && s.Intact(mem, behind, between) == true && s.DictEnd() == s.dictionary + s.dictSize
  {
    hide Reusable;
  }

  lemma StaleThird(s: Stream, mem: seq<byte>, dictionary: nat, dictSize: nat, behind: nat, between: nat, source: nat, n: nat)
    requires s.Sound() == true && s.dictionary == behind && s.DictEnd() == behind + between && s.dictCtx != null
    requires dictionary + dictSize <= behind && behind + between < source && source + n <= |mem| && between > 0 && n > 0
    requires s.dictCtx.dictionary == dictionary && s.dictCtx.dictSize == dictSize && s.dictCtx.history == mem[dictionary..dictionary + dictSize]
    requires s.history == mem[dictionary..dictionary + dictSize] + mem[behind..behind + between]
    ensures s.dictSize == between && s.Intact(mem, 0, 0) == true && s.Intact(mem, source, n) == true && !s.Valid()
    ensures !s.Overruns(source, n) && !s.LeavesBehind(source, n) && !s.Ambiguous(source, n)
    ensures BelowAtOne(s.hashTable[..], s.currentOffset) == true
  {
    forall i | behind <= i < behind + between ensures mem[i] == s.history[|s.history| - (behind + between - i)] {
      assert mem[i] == mem[behind..behind + between][i - behind];
    }
  }
}
