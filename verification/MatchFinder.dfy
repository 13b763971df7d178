/**
 The match finder of LZ4_compress_generic_validated: a table of positions by hash, in any of the
 dictionary modes. Whatever the table holds from earlier calls, and whatever the hash function is,
 a match that is found is a genuine one.
 */
module MatchFinder {
  import opened Bytes
  import opened BlockFormat

  const MAX_INPUT_SIZE := 0x7E00_0000
  const LIMIT_64K := 64 * KB + (MFLIMIT - 1)
  const MIN_LENGTH := MFLIMIT + 1
  const TABLE_SIZE := 8192
  const HASH_SIZE_U32 := 4096

  datatype TableType = ClearedTable | ByU32 | ByU16
  datatype DictMode = NoDict | WithPrefix64k | UsingExtDict | UsingDictCtx

  /**
   What stays the same during one call. `source`, `dictionary` index the memory that is read;
   `startIndex` is the table index of `source`; `dictCtxOffset` is the `currentOffset` of an
   attached dictionary; `small` stands for `dictSmall`.
   */
  datatype Job = Job(mem: seq<byte>, source: int, inputSize: int, startIndex: int,
                     dictionary: int, dictSize: int, dictCtxOffset: int,
                     mode: DictMode, small: bool, tableType: TableType, hash: seq<byte> -> nat, acceleration: int)
  {
    ghost predicate Valid() {
      && 0 <= source && 1 <= inputSize <= MAX_INPUT_SIZE && source + inputSize <= |mem|
      && 0 <= startIndex && startIndex + inputSize < U32_SIZE && 1 <= acceleration
      && 0 <= dictSize && (small ==> dictSize <= startIndex)
      && tableType != ClearedTable
      && (tableType == ByU16 ==> mode == NoDict && startIndex + inputSize < LIMIT_64K)
      && (match mode
          case NoDict => dictSize == 0
          case WithPrefix64k => 0 <= dictionary && dictionary + dictSize == source
          case _ => dictSize > 0 ==> 0 <= dictionary && dictionary + dictSize <= |mem|)
      && (mode == UsingDictCtx ==> 64 * KB <= dictCtxOffset <= startIndex && dictSize <= dictCtxOffset)
    }

    function End(): int { source + inputSize }

    predicate TwoSegments() { mode == UsingExtDict || mode == UsingDictCtx }

    /** A dictionary in a segment of its own can be told from the input, or the input is too short for that to matter. */
    predicate Distinct() { TwoSegments() ==> dictionary != source || inputSize <= dictSize + LASTLITERALS + 1 }

    /** History and input as one text. */
    ghost function Text(): (t: seq<byte>)
      requires Valid()
      ensures |t| == dictSize + inputSize
    {
      History() + mem[source..End()]
    }

    ghost function History(): (h: seq<byte>)
      requires Valid()
      ensures |h| == dictSize
    {
      if dictSize == 0 then [] else mem[dictionary..dictionary + dictSize]
    }

    /** The place of an input position in the text. */
    function At(p: int): int { dictSize + (p - source) }

    /** The address of a place in the text. */
    function Address(t: int): int { if t < dictSize then dictionary + t else source + (t - dictSize) }

    /** LZ4_hashPosition, for an arbitrary hash function. */
    function HashPosition(p: int): (h: nat)
      requires 0 <= p && p + 8 <= |mem|
      ensures h < Slots(tableType) <= TABLE_SIZE
    {
      hash(mem[p..p + 8]) % Slots(tableType)
    }
  }

  /** How many entries the table has: the memory of one 32-bit entry holds two 16-bit ones. */
  function Slots(t: TableType): (n: nat)
    ensures HASH_SIZE_U32 <= n <= TABLE_SIZE
  {
    if t == ByU16 then TABLE_SIZE else HASH_SIZE_U32
  }

  lemma SliceOfHistory(j: Job, t: nat, n: nat)
    requires j.Valid() && t + n <= j.dictSize && n > 0
    ensures 0 <= j.dictionary && j.dictionary + t + n <= |j.mem|
    ensures j.Text()[t..t + n] == j.mem[j.dictionary + t..j.dictionary + t + n]
  {
    SliceOfLeft(j.History(), j.mem[j.source..j.End()], t, t + n);
    SliceOfSlice(j.mem, j.dictionary, j.dictionary + j.dictSize, t, t + n);
  }

  lemma SliceOfInput(j: Job, t: nat, n: nat)
    requires j.Valid() && j.dictSize <= t && t + n <= j.dictSize + j.inputSize
    ensures j.Text()[t..t + n] == j.mem[j.source + (t - j.dictSize)..j.source + (t - j.dictSize) + n]
  {
    SliceOfRight(j.History(), j.mem[j.source..j.End()], t, t + n);
    SliceOfSlice(j.mem, j.source, j.End(), t - j.dictSize, t - j.dictSize + n);
  }

  /** A stretch of the text that does not straddle two segments is a stretch of memory. */
  lemma TextSlice(j: Job, t: int, n: nat)
    requires j.Valid() && 0 <= t && t + n <= j.dictSize + j.inputSize
    requires j.TwoSegments() ==> j.dictSize <= t || t + n <= j.dictSize
    ensures 0 <= j.Address(t) && j.Address(t) + n <= |j.mem|
    ensures j.Text()[t..t + n] == j.mem[j.Address(t)..j.Address(t) + n]
  {
    hide Job.Text, Job.History;
    if n > 0 {
      if t + n <= j.dictSize {
        SliceOfHistory(j, t, n);
      } else if j.dictSize <= t {
        SliceOfInput(j, t, n);
      } else {
        SliceOfHistory(j, t, j.dictSize - t);
        SliceOfInput(j, j.dictSize, t + n - j.dictSize);
        SplitSlice(j.Text(), t, j.dictSize, t + n);
        SplitSlice(j.mem, j.dictionary + t, j.source, j.dictionary + t + n);
      }
    }
  }

  // ----- The table -----

  /** An entry left by an earlier call lies in the history, or will be rejected. */
  ghost predicate EntryOk(j: Job, e: int) {
    || j.mode == UsingDictCtx
    || e >= j.startIndex
    || (e >= j.startIndex - j.dictSize && (j.TwoSegments() ==> e + MINMATCH <= j.startIndex))
    || (j.small && e < j.startIndex - j.dictSize)
    || (j.tableType == ByU32 && e + DISTANCE_MAX < j.startIndex)
  }

  /** Entries lie below the index `b`, and those of this call sit in the slot of their position. */
  ghost predicate TableOk(j: Job, t: seq<int>, b: int)
    requires j.Valid()
  {
    && |t| == TABLE_SIZE
    && forall h :: 0 <= h < Slots(j.tableType) ==>
         && 0 <= t[h] && (t[h] == 0 || t[h] < b) && EntryOk(j, t[h])
         && (t[h] > j.startIndex && t[h] - j.startIndex + 8 <= j.inputSize ==>
               j.HashPosition(j.source + (t[h] - j.startIndex)) == h)
  }

  /** The table of an attached dictionary: entries are in it, or too far away from everything. */
  ghost predicate DictTableOk(j: Job, t: seq<int>) {
    && |t| == TABLE_SIZE
    && forall h :: 0 <= h < HASH_SIZE_U32 ==>
         && 0 <= t[h]
         && (t[h] + DISTANCE_MAX < j.dictCtxOffset
             || j.dictCtxOffset - j.dictSize <= t[h] <= j.dictCtxOffset - MINMATCH)
  }

  /** LZ4_putIndexOnHash: the cast to the width of an entry loses nothing. */
  method PutIndex(j: Job, table: array<int>, idx: int, h: nat, ghost b: int)
    requires j.Valid() && TableOk(j, table[..], b) && h < Slots(j.tableType)
    requires j.startIndex <= idx <= j.startIndex + j.inputSize - MFLIMIT
    requires j.HashPosition(j.source + (idx - j.startIndex)) == h
    modifies table
    ensures TableOk(j, table[..], Max(b, idx + 1)) && table[..] == old(table[..])[h := idx]
  {
    IndexFits(j, idx);
    TablePut(j, table[..], idx, h, b);
    TableSize(j, table[..], b);
    hide *;
    ghost var t := table[..];
    table[h] := if j.tableType == ByU16 then idx % U16_SIZE else idx % U32_SIZE;
    assert table[..] == t[h := idx];
  }

  lemma IndexFits(j: Job, idx: int)
    requires j.Valid() && j.startIndex <= idx <= j.startIndex + j.inputSize - MFLIMIT
    ensures 0 <= idx && (if j.tableType == ByU16 then idx % U16_SIZE else idx % U32_SIZE) == idx && 0 < U16_SIZE < U32_SIZE
    ensures Slots(j.tableType) <= TABLE_SIZE
  {
  }

  lemma TablePut(j: Job, t: seq<int>, idx: int, h: nat, b: int)
    requires j.Valid() && TableOk(j, t, b) && h < Slots(j.tableType)
    requires j.startIndex <= idx <= j.startIndex + j.inputSize - MFLIMIT
    requires j.HashPosition(j.source + (idx - j.startIndex)) == h
    ensures |t| == TABLE_SIZE && TableOk(j, t[h := idx], Max(b, idx + 1))
  {
    hide Job.HashPosition;
  }

  /** LZ4_putPosition. */
  method PutPosition(j: Job, table: array<int>, p: int, ghost b: int)
    requires j.Valid() && TableOk(j, table[..], b)
    requires j.source <= p <= j.End() - MFLIMIT
    modifies table
    ensures TableOk(j, table[..], Max(b, j.startIndex + (p - j.source) + 1))
    ensures table[..] == old(table[..])[j.HashPosition(p) := j.startIndex + (p - j.source)]
  {
    PutIndex(j, table, p - j.source + j.startIndex, j.HashPosition(p), b);
  }

  // ----- Candidates -----

  /** `m` is the address of the text `offset` bytes before `ip`, and `lowLimit` tells its segment. */
  ghost predicate Located(j: Job, ip: int, m: int, lowLimit: int, offset: int) {
    var t := j.At(ip) - offset;
    && 1 <= offset <= DISTANCE_MAX && 0 <= t
    && m == j.Address(t)
    && lowLimit == (if !j.TwoSegments() then j.source - j.dictSize else if t < j.dictSize then j.dictionary else j.source)
    && (j.TwoSegments() && t < j.dictSize ==> t + MINMATCH <= j.dictSize)
  }

  /** The same `n` bytes stand at `a` and at `b`. */
  ghost predicate Same(s: seq<byte>, a: int, b: int, n: int) {
    0 <= a && 0 <= b && 0 <= n && a + n <= |s| && b + n <= |s| && s[a..a + n] == s[b..b + n]
  }

  /** A genuine match of `n` bytes at `ip`, `offset` bytes back. */
  ghost predicate Genuine(j: Job, ip: int, m: int, lowLimit: int, offset: int, n: nat)
    requires j.Valid()
  {
    Located(j, ip, m, lowLimit, offset) && Same(j.Text(), j.At(ip) - offset, j.At(ip), n)
  }

  /** Where the entry `e` leads: its index seen from this call, its address, and the segment it is in. */
  ghost predicate LeadsTo(j: Job, e: int, matchIndex: int, m: int, lowLimit: int) {
    && (j.mode != UsingDictCtx || e >= j.startIndex ==> matchIndex == e)
    && (j.mode == UsingDictCtx && e < j.startIndex ==>
          matchIndex + DISTANCE_MAX < j.startIndex || j.startIndex - j.dictSize <= matchIndex <= j.startIndex - MINMATCH)
    && (if !j.TwoSegments() then
          lowLimit == j.source - j.dictSize && m == j.source + (matchIndex - j.startIndex)
        else if matchIndex < j.startIndex then
          lowLimit == j.dictionary && m == j.dictionary + j.dictSize + (matchIndex - j.startIndex)
        else
          lowLimit == j.source && m == j.source + (matchIndex - j.startIndex))
  }

  /** The index and the address of the candidate that the entry `e`, in slot `h`, stands for. */
  function Lead(j: Job, e: int, h: nat, dictTable: seq<int>): (int, int)
    requires h < TABLE_SIZE && (j.mode == UsingDictCtx ==> |dictTable| == TABLE_SIZE)
  {
    if j.mode == UsingDictCtx && e < j.startIndex then
      (dictTable[h] + (j.startIndex - j.dictCtxOffset), j.dictionary + j.dictSize - j.dictCtxOffset + dictTable[h])
    else if j.mode == UsingExtDict && e < j.startIndex then
      (e, j.dictionary + j.dictSize - j.startIndex + e)
    else
      (e, j.source - j.startIndex + e)
  }

  /** The tests that a candidate has to pass: inside the valid area, near enough, and four equal bytes. */
  ghost predicate Acceptable(j: Job, ip: int, matchIndex: int, m: int) {
    && !(j.small && matchIndex < j.startIndex - j.dictSize)
    && (j.tableType != ByU16 ==> matchIndex + DISTANCE_MAX >= j.startIndex + (ip - j.source))
    && Same(j.mem, m, ip, MINMATCH)
  }

  /** The entry that `ip` hashes to is an acceptable candidate. */
  ghost predicate Hit(j: Job, t: seq<int>, dictTable: seq<int>, ip: int)
    requires 0 <= ip && ip + 8 <= |j.mem| && |t| == TABLE_SIZE && (j.mode == UsingDictCtx ==> |dictTable| == TABLE_SIZE)
  {
    var lead := Lead(j, t[j.HashPosition(ip)], j.HashPosition(ip), dictTable);
    Acceptable(j, ip, lead.0, lead.1)
  }

  /** How far back that candidate is. */
  function HitOffset(j: Job, t: seq<int>, dictTable: seq<int>, ip: int): int
    requires 0 <= ip && ip + 8 <= |j.mem| && |t| == TABLE_SIZE && (j.mode == UsingDictCtx ==> |dictTable| == TABLE_SIZE)
  {
    j.startIndex + (ip - j.source) - Lead(j, t[j.HashPosition(ip)], j.HashPosition(ip), dictTable).0
  }

  /** Where it is. */
  function HitAddress(j: Job, t: seq<int>, dictTable: seq<int>, ip: int): int
    requires 0 <= ip && ip + 8 <= |j.mem| && |t| == TABLE_SIZE && (j.mode == UsingDictCtx ==> |dictTable| == TABLE_SIZE)
  {
    Lead(j, t[j.HashPosition(ip)], j.HashPosition(ip), dictTable).1
  }

  /** The table with the position `ip`. */
  function WithPosition(j: Job, t: seq<int>, ip: int): (r: seq<int>)
    requires 0 <= ip && ip + 8 <= |j.mem| && |t| == TABLE_SIZE
    ensures |r| == TABLE_SIZE
  {
    t[j.HashPosition(ip) := j.startIndex + (ip - j.source)]
  }

  /** The tables of a call, its own and that of an attached dictionary. */
  datatype Tables = Tables(own: seq<int>, dict: seq<int>)
  {
    predicate Fit(j: Job) { |own| == TABLE_SIZE && (j.mode == UsingDictCtx ==> |dict| == TABLE_SIZE) }
  }

  /** How a search ends: with an acceptable candidate, at a position and so far back, or without; and the table behind it. */
  datatype SearchEnd = SearchEnd(found: bool, at: int, offset: int, table: seq<int>)

  /**
   The search that the tables lead to from `ip` on. The positions that are tried are `step` apart; after `nb` tries
   the steps are a sixty-fourth of that.
   */
  ghost function Find(j: Job, t: Tables, ip: int, step: nat, nb: nat): (r: SearchEnd)
    requires j.Valid() && t.Fit(j) && j.source <= ip && 1 <= step && 64 <= nb
    ensures |r.table| == TABLE_SIZE && (r.found ==> ip <= r.at <= j.End() - MFLIMIT)
    decreases j.End() - ip
  {
    if ip + step > j.End() - MFLIMIT + 1 then SearchEnd(false, ip, 0, t.own)
    else if Hit(j, t.own, t.dict, ip) then SearchEnd(true, ip, HitOffset(j, t.own, t.dict, ip), WithPosition(j, t.own, ip))
    else Find(j, Tables(WithPosition(j, t.own, ip), t.dict), ip + step, nb / 64, nb + 1)
  }

  /** A whole search. */
  ghost function SearchFrom(j: Job, t: Tables, ip: int): (r: SearchEnd)
    requires j.Valid() && t.Fit(j) && j.source <= ip
    ensures |r.table| == TABLE_SIZE && (r.found ==> ip <= r.at <= j.End() - MFLIMIT)
  {
    Find(j, t, ip, 1, j.acceleration * 64)
  }

  method Candidate(j: Job, e: int, h: nat, dictTable: seq<int>) returns (matchIndex: int, m: int, lowLimit: int)
    requires j.Valid() && 0 <= e && h < Slots(j.tableType)
    requires j.mode == UsingDictCtx ==> DictTableOk(j, dictTable)
    ensures LeadsTo(j, e, matchIndex, m, lowLimit) && (matchIndex, m) == Lead(j, e, h, dictTable)
  {
    matchIndex := e;
    if j.mode == UsingDictCtx {
      if matchIndex < j.startIndex {
        matchIndex := dictTable[h];
        m := j.dictionary + j.dictSize - j.dictCtxOffset + matchIndex;
        matchIndex := matchIndex + (j.startIndex - j.dictCtxOffset);
        lowLimit := j.dictionary;
      } else {
        m := j.source - j.startIndex + matchIndex;
        lowLimit := j.source;
      }
    } else if j.mode == UsingExtDict {
      if matchIndex < j.startIndex {
        m := j.dictionary + j.dictSize - j.startIndex + matchIndex;
        lowLimit := j.dictionary;
      } else {
        m := j.source - j.startIndex + matchIndex;
        lowLimit := j.source;
      }
    } else {
      m := j.source - j.startIndex + matchIndex;
      lowLimit := j.source - j.dictSize;
    }
  }

  /** A candidate that is inside the valid area and near enough stands where its index says. */
  lemma CandidateLocated(j: Job, ip: int, e: int, matchIndex: int, m: int, lowLimit: int)
    requires j.Valid() && j.source < ip <= j.End() - MFLIMIT
    requires 0 <= e && (e == 0 || e < j.startIndex + (ip - j.source)) && EntryOk(j, e)
    requires LeadsTo(j, e, matchIndex, m, lowLimit)
    requires !(j.small && matchIndex < j.startIndex - j.dictSize)
    requires j.tableType != ByU16 ==> matchIndex + DISTANCE_MAX >= j.startIndex + (ip - j.source)
    ensures Located(j, ip, m, lowLimit, j.startIndex + (ip - j.source) - matchIndex)
  {
  }

  /** The tests. What passes them is a genuine match. */
  method Passes(j: Job, ip: int, matchIndex: int, m: int, lowLimit: int, ghost e: int) returns (ok: bool)
    requires j.Valid() && j.source < ip <= j.End() - MFLIMIT
    requires 0 <= e && (e == 0 || e < j.startIndex + (ip - j.source)) && EntryOk(j, e)
    requires LeadsTo(j, e, matchIndex, m, lowLimit)
    ensures ok ==> Genuine(j, ip, m, lowLimit, j.startIndex + (ip - j.source) - matchIndex, MINMATCH)
    ensures ok == Acceptable(j, ip, matchIndex, m)
  {
    hide Job.Text, Job.History, EntryOk, LeadsTo, Genuine, Job.Valid, Located;
    var current := ip - j.source + j.startIndex;
    if j.small && matchIndex < j.startIndex - j.dictSize { return false; }
    if j.tableType != ByU16 && matchIndex + DISTANCE_MAX < current { return false; }
    Readable(j, ip, matchIndex, m, lowLimit, e);
    ok := j.mem[m..m + 4] == j.mem[ip..ip + 4];
    if ok { PassedIsGenuine(j, ip, matchIndex, m, lowLimit, e); }
  }

  /** A candidate that is near enough can be read. */
  lemma Readable(j: Job, ip: int, matchIndex: int, m: int, lowLimit: int, e: int)
    requires j.Valid() && j.source < ip <= j.End() - MFLIMIT
    requires 0 <= e && (e == 0 || e < j.startIndex + (ip - j.source)) && EntryOk(j, e) && LeadsTo(j, e, matchIndex, m, lowLimit)
    requires !(j.small && matchIndex < j.startIndex - j.dictSize)
    requires j.tableType != ByU16 ==> matchIndex + DISTANCE_MAX >= j.startIndex + (ip - j.source)
    ensures 0 <= m && m + MINMATCH <= |j.mem| && 0 <= ip && ip + MINMATCH <= |j.mem|
  {
    hide Job.Text, Job.History, EntryOk, LeadsTo;
    CandidateLocated(j, ip, e, matchIndex, m, lowLimit);
    TextSlice(j, j.At(ip) - (j.startIndex + (ip - j.source) - matchIndex), MINMATCH);
  }

  lemma PassedIsGenuine(j: Job, ip: int, matchIndex: int, m: int, lowLimit: int, e: int)
    requires j.Valid() && j.source < ip <= j.End() - MFLIMIT
    requires 0 <= e && (e == 0 || e < j.startIndex + (ip - j.source)) && EntryOk(j, e) && LeadsTo(j, e, matchIndex, m, lowLimit)
    requires Acceptable(j, ip, matchIndex, m)
    ensures Genuine(j, ip, m, lowLimit, j.startIndex + (ip - j.source) - matchIndex, MINMATCH)
  {
    hide Job.Text, Job.History, EntryOk, LeadsTo;
    CandidateLocated(j, ip, e, matchIndex, m, lowLimit);
    TextSlice(j, j.At(ip) - (j.startIndex + (ip - j.source) - matchIndex), MINMATCH);
    TextSlice(j, j.At(ip), MINMATCH);
  }

  lemma EntryAt(j: Job, t: seq<int>, b: int, h: nat)
    requires j.Valid() && TableOk(j, t, b) && h < Slots(j.tableType)
    ensures |t| == TABLE_SIZE && 0 <= t[h] && (t[h] == 0 || t[h] < b) && EntryOk(j, t[h])
  {
  }

  /** Tries the entry that `ip` hashes to, and puts `ip` in its place. */
  method TryPosition(j: Job, table: array<int>, dictTable: seq<int>, ip: int, ghost b: int)
    returns (found: bool, m: int, lowLimit: int, offset: int)
    requires j.Valid() && TableOk(j, table[..], b) && (j.mode == UsingDictCtx ==> DictTableOk(j, dictTable))
    requires j.source < ip <= j.End() - MFLIMIT && b <= j.startIndex + (ip - j.source)
    modifies table
    ensures TableOk(j, table[..], j.startIndex + (ip - j.source) + 1)
    ensures found ==> Genuine(j, ip, m, lowLimit, offset, MINMATCH)
    ensures table.Length == TABLE_SIZE && found == Hit(j, old(table[..]), dictTable, ip)
    ensures offset == HitOffset(j, old(table[..]), dictTable, ip) && m == HitAddress(j, old(table[..]), dictTable, ip)
    ensures table[..] == WithPosition(j, old(table[..]), ip)
  {
    hide TableOk, EntryOk, LeadsTo, Genuine, Acceptable;
    var h := j.HashPosition(ip);
    var current := ip - j.source + j.startIndex;
    EntryAt(j, table[..], b, h);
    var e := table[h];
    var matchIndex;
    matchIndex, m, lowLimit := Candidate(j, e, h, dictTable);
    PutIndex(j, table, current, h, b);
    found := Passes(j, ip, matchIndex, m, lowLimit, e);
    offset := current - matchIndex;
  }

  lemma TableSize(j: Job, t: seq<int>, b: int)
    requires j.Valid() && TableOk(j, t, b)
    ensures |t| == TABLE_SIZE
  {
  }

  lemma DictSize(j: Job, t: seq<int>)
    requires DictTableOk(j, t)
    ensures |t| == TABLE_SIZE
  {
  }

  /** The search loop: steps grow as long as nothing is found. */
  method FindMatch(j: Job, table: array<int>, dictTable: seq<int>, ip0: int, ghost b0: int)
    returns (found: bool, ip: int, m: int, lowLimit: int, offset: int)
    requires j.Valid() && TableOk(j, table[..], b0) && (j.mode == UsingDictCtx ==> DictTableOk(j, dictTable))
    requires j.source < ip0 <= j.End() - MFLIMIT + 1 && b0 <= j.startIndex + (ip0 - j.source)
    modifies table
    ensures found ==> ip0 <= ip <= j.End() - MFLIMIT && Genuine(j, ip, m, lowLimit, offset, MINMATCH)
    ensures found ==> TableOk(j, table[..], j.startIndex + (ip - j.source) + 1)
    ensures !found ==> exists b :: TableOk(j, table[..], b) && b <= j.startIndex + j.inputSize - MFLIMIT + 1
    ensures table.Length == TABLE_SIZE && Tables(old(table[..]), dictTable).Fit(j)
    ensures var r := SearchFrom(j, Tables(old(table[..]), dictTable), ip0); if found then r == SearchEnd(true, ip, offset, table[..]) else !r.found
    ensures ip0 <= j.End() - MFLIMIT && Hit(j, old(table[..]), dictTable, ip0) ==>
      found && ip == ip0 && offset == HitOffset(j, old(table[..]), dictTable, ip0)
    ensures ip0 + j.acceleration <= j.End() - MFLIMIT && !Hit(j, old(table[..]), dictTable, ip0) && Hit(j, WithPosition(j, old(table[..]), ip0), dictTable, ip0 + 1) ==>
      && found && ip == ip0 + 1 && offset == HitOffset(j, WithPosition(j, old(table[..]), ip0), dictTable, ip0 + 1)
      && m == HitAddress(j, WithPosition(j, old(table[..]), ip0), dictTable, ip0 + 1)
  {
    hide TableOk, Genuine, Hit, HitOffset, HitAddress, WithPosition, DictTableOk;
    if j.mode == UsingDictCtx { DictSize(j, dictTable); }
    TableSize(j, table[..], b0);
    var mflimitPlusOne := j.End() - MFLIMIT + 1;
    m, lowLimit, offset := 0, 0, 0;
    var forwardIp := ip0;
    var step := 1;
    var searchMatchNb := j.acceleration * 64;
    ghost var b := b0;
    while true
      invariant TableOk(j, table[..], b) && b <= j.startIndex + (forwardIp - j.source)
      invariant b <= j.startIndex + j.inputSize - MFLIMIT + 1
      invariant ip0 <= forwardIp && 1 <= step && 64 <= searchMatchNb
      invariant Find(j, Tables(table[..], dictTable), forwardIp, step, searchMatchNb) == SearchFrom(j, Tables(old(table[..]), dictTable), ip0)
      invariant forwardIp == ip0 ==> step == 1 && searchMatchNb == j.acceleration * 64 && table[..] == old(table[..])
      invariant forwardIp == ip0 + 1 && ip0 <= j.End() - MFLIMIT ==> table[..] == WithPosition(j, old(table[..]), ip0)
      invariant forwardIp == ip0 + 1 ==> step == j.acceleration
      invariant forwardIp > ip0 + 1 && ip0 + j.acceleration <= j.End() - MFLIMIT ==> !Hit(j, WithPosition(j, old(table[..]), ip0), dictTable, ip0 + 1)
      invariant forwardIp > ip0 && ip0 <= j.End() - MFLIMIT ==> !Hit(j, old(table[..]), dictTable, ip0)
      decreases mflimitPlusOne - forwardIp
    {
      ip := forwardIp;
      forwardIp := forwardIp + step;
      step := searchMatchNb / 64;
      searchMatchNb := searchMatchNb + 1;
      if forwardIp > mflimitPlusOne {
        found := false;
        return;
      }
      found, m, lowLimit, offset := TryPosition(j, table, dictTable, ip, b);
      b := j.startIndex + (ip - j.source) + 1;
      if found { return; }
    }
  }
}
