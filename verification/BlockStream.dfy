/**
 LZ4_stream_t and the compression functions of lz4.c. The state outlives its calls: whatever earlier
 calls have left in the table, every block stands for its input behind the history of the stream.
 A pointer is an index into the caller's memory, whose contents each call is given.
 */
module BlockStream {
  import opened Bytes
  import opened BlockFormat
  import opened BlockEncoding
  import opened MatchFinder
  import opened SequenceWriter
  import opened BlockCompressor

  const ACCELERATION_DEFAULT := 1
  const ACCELERATION_MAX := 65537
  const NULL := -1
  const RENORM_LIMIT := 0x8000_0000

  function Clamp(acceleration: int): (a: int)
    ensures 1 <= a <= ACCELERATION_MAX
  {
    if acceleration < 1 then ACCELERATION_DEFAULT else Min(acceleration, ACCELERATION_MAX)
  }

  /** The input of a call has become part of the history, whether or not the output had room for the block. */
  predicate Taken(result: nat, n: nat) { result > 0 || 1 <= n <= MAX_INPUT_SIZE }

  lemma TakenParts(result: nat, n: nat)
    ensures Taken(result, n) <==> result > 0 || 1 <= n <= MAX_INPUT_SIZE
  {
  }

  lemma Limits(n: int)
    ensures MINMATCH <= 8 && 64 * KB + MAX_INPUT_SIZE <= RENORM_LIMIT && 4 * KB <= MAX_INPUT_SIZE && 0 < KB
    ensures n <= Max(n, 64 * KB) && 64 * KB <= Max(n, 64 * KB)
  {
  }

  lemma MinIs(n: int)
    ensures Min(n, 64 * KB) == if n < 64 * KB then n else 64 * KB
  {
  }

  lemma FourKB(n: nat)
    requires n <= 4 * KB
    ensures n <= MAX_INPUT_SIZE
  {
  }

  /** LZ4_compressBound. */
  function BoundOf(srcSize: int): int {
    if 0 <= srcSize <= MAX_INPUT_SIZE then CompressBound(srcSize) else 0
  }

  // ----- What a block stands for -----

  /** A block is as good behind a longer history. */
  lemma RepresentsMore(block: seq<byte>, older: seq<byte>, h: seq<byte>, text: seq<byte>)
    requires Represents(block, h, text)
    ensures Represents(block, older + h, text)
  {
    DecodeIgnoresOlderHistory(block, 0, older, h);
    hide Decode, EndConditions;
    assert older + (h + text) == older + h + text;
  }

  /** Behind a full window, what is older does not matter. */
  lemma RepresentsWindow(block: seq<byte>, older: seq<byte>, h: seq<byte>, text: seq<byte>)
    requires Represents(block, older + h, text) && DISTANCE_MAX <= |h|
    ensures Represents(block, h, text)
  {
    DecodeWindow(block, 0, older, h);
    hide Decode, EndConditions;
    match Decode(block, 0, h)
    case Output(r) => assert r == (older + r)[|older|..] == (older + h + text)[|older|..] == h + text;
  }

  lemma RepresentsNothing(h: seq<byte>)
    ensures Represents([0], h, [])
  {
    BlockRoundTrip(h, [], []);
    EmptyBlock(h, [], []);
    hide Decode, EndConditions;
  }

  // ----- The table between calls -----

  /** Entries that later calls can live with: none, or at least a minimal match before the next index. */
  ghost predicate Reusable(t: seq<int>, tableType: TableType, currentOffset: int) {
    && |t| == TABLE_SIZE && 0 <= currentOffset <= RENORM_LIMIT
    && (tableType == ClearedTable ==> currentOffset <= GB && forall h :: 0 <= h < TABLE_SIZE ==> t[h] == 0)
    && forall h :: 0 <= h < Slots(tableType) ==> t[h] == 0 || 0 < t[h] <= currentOffset - MINMATCH
  }

  /** The entries are harmless to a call that has the history `j`. */
  lemma TableFits(j: Job, t: seq<int>, tableType: TableType)
    requires j.Valid() && Reusable(t, tableType, j.startIndex) && tableType in {ClearedTable, j.tableType}
    requires j.small || j.mode == UsingDictCtx || 64 * KB <= j.dictSize || j.startIndex <= j.dictSize
    requires j.mode == UsingExtDict ==> j.dictSize == 0 || MINMATCH <= j.dictSize <= j.startIndex
    ensures TableOk(j, t, j.startIndex)
  {
  }

  /** After a reset with a gap, the entries are harmless to a call without history. */
  lemma TableFitsGap(j: Job, t: seq<int>, tableType: TableType, currentOffset: int)
    requires j.Valid() && Reusable(t, tableType, currentOffset) && tableType in {ClearedTable, j.tableType}
    requires j.tableType == ByU32 && j.startIndex == currentOffset + 64 * KB
    ensures TableOk(j, t, j.startIndex)
  {
  }

  lemma TableStays(j: Job, t0: seq<int>, t: seq<int>, tableType: TableType)
    requires j.Valid() && Reusable(t0, tableType, j.startIndex) && tableType in {ClearedTable, j.tableType}
    requires j.startIndex + j.inputSize <= RENORM_LIMIT
    requires if j.inputSize < MIN_LENGTH then t == t0 else TableKept(j, t)
    ensures Reusable(t, j.tableType, j.startIndex + j.inputSize)
  {
  }

  /** What a call for a job does: the block stands for the input behind the bytes that the job sees, if its two segments can be told apart. */
  ghost predicate Done(j: Job, t: seq<int>, dictTable: seq<int>, block: seq<byte>, text: seq<byte>) {
    && j.Valid() && (j.Distinct() ==> Represents(block, j.History(), text))
    && (|text| < MIN_LENGTH ==> block == EncodeLiterals(text, 0))
    && (|t| == TABLE_SIZE && (j.mode == UsingDictCtx ==> |dictTable| == TABLE_SIZE) ==>
          && (j.Distinct() && FirstHit(j, t, dictTable) ==> BeginsWith(block, j.History(), FirstOffset(j, t, dictTable)))
          && BeginsCounted(j, t, dictTable, block))
  }

  /**
   `answer` is what a search of the input arrives at: the block for its parse, or nothing, exactly as there is room
   for that block.
   */
  ghost predicate Searched(mem: seq<byte>, source: int, n: nat, hash: seq<byte> -> nat, acceleration: int, room: int, answer: seq<byte>) {
    exists j: Job, t: seq<int>, dictTable: seq<int> ::
      SearchedBy(j, t, dictTable, room, answer)
      && j.mem == mem && j.source == source && j.inputSize == n && j.hash == hash && j.acceleration == acceleration
  }

  ghost predicate SearchedBy(j: Job, t: seq<int>, dictTable: seq<int>, room: int, answer: seq<byte>) {
    && j.Valid() && j.Distinct() && |t| == TABLE_SIZE && (j.mode == UsingDictCtx ==> |dictTable| == TABLE_SIZE)
    && Greedy(j, t, dictTable, room, answer)
  }

  /**
   How an output is filled from an input without history: sequences for its front, and then literals. If not the whole input
   has been consumed, they leave at most one byte free.
   */
  ghost predicate FilledUp(input: seq<byte>, room: int, answer: seq<byte>, consumed: int) {
    exists qs: seq<Emitted> :: FilledWith(input, room, answer, consumed, qs)
  }

  ghost predicate FilledWith(input: seq<byte>, room: int, answer: seq<byte>, consumed: int, qs: seq<Emitted>) {
    && Encodable(qs) && Applicable([], qs) && Expand([], qs) <= input && |Expand([], qs)| <= consumed <= |input|
    && answer == EncodeBlock(qs, input[|Expand([], qs)|..consumed])
    && (consumed < |input| ==> |answer| == |EncodeAll(qs)| + UsedOf(room - |EncodeAll(qs)|))
  }

  lemma IsFilledUp(j: Job, room: int, answer: seq<byte>, consumed: nat)
    requires j.Valid() && j.mode == NoDict && Fills(j, room, answer, consumed) == true
    ensures FilledUp(j.mem[j.source..j.End()], room, answer, consumed) == true
  {
    hide EncodeAll, EncodeLiterals, Expand, Applicable, Encodable, Small;
    var qs: seq<Emitted>, anchor: int :| FillsBy(j, room, answer, consumed, qs, anchor);
    var input := j.mem[j.source..j.End()];
    assert j.Text() == input;
    assert j.Text()[..j.At(anchor)] == input[..anchor - j.source];
    SliceOfSlice(j.mem, j.source, j.End(), anchor - j.source, consumed);
    assert FilledWith(input, room, answer, consumed, qs);
  }

  lemma LeavesOne(input: seq<byte>, room: int, answer: seq<byte>, consumed: int)
    requires FilledUp(input, room, answer, consumed) && consumed < |input|
    ensures room - 1 <= |answer| <= room
  {
    hide EncodeAll, EncodeLiterals, Expand, Applicable, Encodable;
  }

  lemma DictTableSize(j: Job, t: seq<int>)
    requires DictTableOk(j, t)
    ensures |t| == TABLE_SIZE
  {
  }

  lemma IsSearched(j: Job, t: seq<int>, dictTable: seq<int>, room: int, answer: seq<byte>, ended: bool)
    requires j.Valid() && |t| == TABLE_SIZE && (j.mode == UsingDictCtx ==> |dictTable| == TABLE_SIZE)
    requires ended && j.Distinct() ==> Greedy(j, t, dictTable, room, answer) == true
    ensures ended && j.Distinct() ==> Searched(j.mem, j.source, j.inputSize, j.hash, j.acceleration, room, answer) == true
  {
    hide Greedy, Job.Distinct;
    if ended && j.Distinct() { assert SearchedBy(j, t, dictTable, room, answer); }
  }

  datatype Option<T> = None | Some(value: T)

  /** What a call works on: the dictionary `[d, d + size)`, or the one that is attached if there is another one. */
  ghost function JobFrom(mem: seq<byte>, source: int, n: nat, acceleration: int, d: int, size: int, offset: int, hash: seq<byte> -> nat,
                         attached: Option<(int, int, int)>): Job
  {
    var small, a := size < 64 * KB && size < offset, Clamp(acceleration);
    if d + size == source then
      Job(mem, source, n, offset, d, size, 0, WithPrefix64k, small, ByU32, hash, a)
    else if attached == None then
      Job(mem, source, n, offset, d, size, 0, UsingExtDict, small, ByU32, hash, a)
    else if n > 4 * KB then
      Job(mem, source, n, attached.value.2, attached.value.0, attached.value.1, 0, UsingExtDict, false, ByU32, hash, a)
    else
      Job(mem, source, n, offset, attached.value.0, attached.value.1, attached.value.2, UsingDictCtx, false, ByU32, hash, a)
  }

  ghost function TablesFrom(source: int, n: nat, d: int, size: int, t: seq<int>, attached: Option<seq<int>>): (seq<int>, seq<int>) {
    if d + size == source || attached == None then (t, [])
    else if n > 4 * KB then (attached.value, [])
    else (t, attached.value)
  }

  class Stream {
    const hash: seq<byte> -> nat
    const hashTable: array<int>
    var currentOffset: int
    var tableType: TableType
    var dictionary: int
    var dictSize: int
    var dictCtx: Stream?
    /** The text in front of the next block, as a decoder knows it. */
    ghost var history: seq<byte>

    ghost predicate Usable()
      reads this`currentOffset, this`tableType, hashTable
    {
      Reusable(hashTable[..], tableType, currentOffset)
    }

    /** LZ4_initStream. */
    constructor (hash: seq<byte> -> nat)
      ensures Usable() && Fresh() && fresh(hashTable) && this.hash == hash
    {
      this.hash := hash;
      hashTable := new int[TABLE_SIZE](_ => 0);
      currentOffset, tableType, dictionary, dictSize, dictCtx, history := 0, ClearedTable, NULL, 0, null, [];
    }

    /** As LZ4_initStream leaves it. */
    ghost predicate Fresh()
      reads this
    {
      currentOffset == 0 && tableType == ClearedTable && dictionary == NULL && dictSize == 0 && dictCtx == null && history == []
    }

    /** MEM_INIT of the table. */
    method ClearTable()
      modifies hashTable
      ensures forall h :: 0 <= h < hashTable.Length ==> hashTable[h] == 0
    {
      forall h | 0 <= h < hashTable.Length { hashTable[h] := 0; }
    }

    /** LZ4_resetStream: everything back to zero. */
    method ResetStream()
      requires hashTable.Length == TABLE_SIZE
      modifies this, hashTable
      ensures Usable() && Fresh()
    {
      ClearTable();
      currentOffset, tableType, dictionary, dictSize, dictCtx, history := 0, ClearedTable, NULL, 0, null, [];
    }

    /** What a call of LZ4_compress_generic works on. */
    function JobOf(mem: seq<byte>, source: int, srcSize: int, mode: DictMode, small: bool, tableType: TableType, acceleration: int): Job
      reads this, dictCtx
    {
      if mode == UsingDictCtx && dictCtx != null then
        Job(mem, source, srcSize, currentOffset, dictCtx.dictionary, dictCtx.dictSize, dictCtx.currentOffset, mode, small, tableType, hash, acceleration)
      else
        Job(mem, source, srcSize, currentOffset, dictionary, dictSize, 0, mode, small, tableType, hash, acceleration)
    }

    /** The table of the attached dictionary, if the call looks into it. */
    ghost function DictTable(mode: DictMode): seq<int>
      reads this`dictCtx, if dictCtx != null then {dictCtx, dictCtx.hashTable} else {}
    {
      if mode == UsingDictCtx && dictCtx != null then dictCtx.hashTable[..] else []
    }

    /**
     LZ4_compress_generic. Unsupported sizes give 0, and no input gives a block of one byte. If the two
     segments cannot be told apart, the search can get lost.
     */
    method CompressGeneric(mem: seq<byte>, source: int, srcSize: int, dst: array<byte>, dest: int, dstCapacity: int,
                           output: OutputMode, tableType: TableType, mode: DictMode, small: bool, acceleration: int)
      returns (result: nat, consumed: int, lost: bool)
      requires 0 <= source && 0 <= srcSize && source + srcSize <= |mem|
      requires 0 <= dest && 0 <= dstCapacity && dest + dstCapacity <= dst.Length
      requires output == NotLimited && srcSize <= MAX_INPUT_SIZE ==> CompressBound(srcSize) <= dstCapacity
      requires this.tableType in {ClearedTable, tableType} && Usable()
      requires mode == UsingDictCtx ==> dictCtx != null && dictCtx != this && dictCtx.hashTable != hashTable
      requires 1 <= srcSize <= MAX_INPUT_SIZE ==>
        var j := JobOf(mem, source, srcSize, mode, small, tableType, acceleration);
        && j.Valid() && TableOk(j, hashTable[..], currentOffset) && currentOffset + srcSize <= RENORM_LIMIT
        && (output == FillOutput ==> EntryOk(j, 0))
        && (mode == UsingDictCtx ==> DictTableOk(j, dictCtx.hashTable[..]))
      modifies this`currentOffset, this`tableType, this`dictSize, this`dictCtx, hashTable, dst
      ensures forall i :: 0 <= i < dst.Length && !(dest <= i < dest + dstCapacity) ==> dst[i] == old(dst[i])
      ensures lost ==> result == 0 && 1 <= srcSize <= MAX_INPUT_SIZE && !old(JobOf(mem, source, srcSize, mode, small, tableType, acceleration)).Distinct()
      ensures result == 0 && !lost ==> srcSize > MAX_INPUT_SIZE || (output != NotLimited && dstCapacity < CompressBound(srcSize))
      ensures result > 0 ==> srcSize <= MAX_INPUT_SIZE
      ensures result == 0 && !lost && output == FillOutput ==> srcSize > MAX_INPUT_SIZE || dstCapacity < 1
      ensures result > 0 ==> 0 <= consumed <= srcSize && (output != FillOutput ==> consumed == srcSize) && result <= dstCapacity
      ensures result > 0 && srcSize > 0 ==> old(JobOf(mem, source, srcSize, mode, small, tableType, acceleration)).Valid()
      ensures result > 0 && srcSize > 0 && old(JobOf(mem, source, srcSize, mode, small, tableType, acceleration)).Distinct() ==>
        Represents(dst[dest..dest + result], old(JobOf(mem, source, srcSize, mode, small, tableType, acceleration)).History(), mem[source..source + consumed])
      ensures result > 0 && srcSize > 0 && output != FillOutput ==>
        var j := old(JobOf(mem, source, srcSize, mode, small, tableType, acceleration));
        && (j.Distinct() && FirstHit(j, old(hashTable[..]), old(DictTable(mode))) ==>
              BeginsWith(dst[dest..dest + result], j.History(), FirstOffset(j, old(hashTable[..]), old(DictTable(mode)))))
        && BeginsCounted(j, old(hashTable[..]), old(DictTable(mode)), dst[dest..dest + result])
      ensures 1 <= srcSize <= MAX_INPUT_SIZE && !lost && output != FillOutput && old(JobOf(mem, source, srcSize, mode, small, tableType, acceleration)).Distinct() ==>
        Searched(mem, source, srcSize, hash, acceleration, dstCapacity, dst[dest..dest + result]) == true
      ensures result > 0 && srcSize > 0 ==> Fills(old(JobOf(mem, source, srcSize, mode, small, tableType, acceleration)), dstCapacity, dst[dest..dest + result], consumed) == true
      ensures 0 < result && 0 < srcSize < MIN_LENGTH && output != FillOutput ==>
        dst[dest..dest + result] == EncodeLiterals(mem[source..source + srcSize], 0)
      ensures result > 0 && srcSize == 0 ==> dst[dest..dest + result] == [0]
      ensures dictionary == old(dictionary) && history == old(history) && Usable()
      ensures if 1 <= srcSize <= MAX_INPUT_SIZE && (output == FillOutput ==> dstCapacity >= 1) then
          && currentOffset == old(currentOffset) + srcSize && this.tableType == tableType
          && dictSize == srcSize + (if mode == UsingDictCtx then 0 else old(dictSize))
          && dictCtx == (if mode == UsingDictCtx then null else old(dictCtx))
        else
          && currentOffset == old(currentOffset) && this.tableType == old(this.tableType) && dictSize == old(dictSize) && dictCtx == old(dictCtx)
    {
      hide TableOk, Represents, Reusable, TableKept, DictTableOk, FirstHit, FirstOffset, BeginsWith, BeginsCounted, Job.Distinct, EncodeLiterals, Job.Text, Job.History, EntryOk, Greedy, Searched, Fills;
      consumed, lost := srcSize, false;
      if srcSize > MAX_INPUT_SIZE { return 0, consumed, false; }
      if srcSize == 0 {
        if output != NotLimited && dstCapacity <= 0 { return 0, consumed, false; }
        dst[dest] := 0;
        assert dst[dest..dest + 1] == [0];
        return 1, 0, false;
      }
      if output == FillOutput && dstCapacity < 1 { return 0, consumed, false; }
      var j := JobOf(mem, source, srcSize, mode, small, tableType, acceleration);
      if tableType == ByU16 && srcSize >= LIMIT_64K {
        assert false;
      }
      result, consumed, lost := CompressInput(j, dst, dest, dstCapacity, output);
    }

    /** The same for an input of a supported size, as the job for it says. */
    method CompressInput(j: Job, dst: array<byte>, dest: int, dstCapacity: int, output: OutputMode) returns (result: nat, consumed: int, lost: bool)
      requires j.Valid() && j == JobOf(j.mem, j.source, j.inputSize, j.mode, j.small, j.tableType, j.acceleration)
      requires 0 <= dest && 0 <= dstCapacity && dest + dstCapacity <= dst.Length && (output == FillOutput ==> dstCapacity >= 1)
      requires output == NotLimited ==> CompressBound(j.inputSize) <= dstCapacity
      requires tableType in {ClearedTable, j.tableType} && Usable()
      requires j.mode == UsingDictCtx ==> dictCtx != null && dictCtx != this && dictCtx.hashTable != hashTable && DictTableOk(j, dictCtx.hashTable[..]) == true
      requires TableOk(j, hashTable[..], currentOffset) == true && currentOffset + j.inputSize <= RENORM_LIMIT && (output == FillOutput ==> EntryOk(j, 0) == true)
      modifies this`currentOffset, this`tableType, this`dictSize, this`dictCtx, hashTable, dst
      ensures forall i :: 0 <= i < dst.Length && !(dest <= i < dest + dstCapacity) ==> dst[i] == old(dst[i])
      ensures lost ==> result == 0 && !j.Distinct()
      ensures result == 0 && !lost ==> output != NotLimited && dstCapacity < CompressBound(j.inputSize) && output != FillOutput
      ensures 0 <= consumed <= j.inputSize && (output != FillOutput ==> consumed == j.inputSize) && result <= dstCapacity
      ensures result > 0 && j.Distinct() ==> Represents(dst[dest..dest + result], j.History(), j.mem[j.source..j.source + consumed]) == true
      ensures |old(hashTable[..])| == TABLE_SIZE && (j.mode == UsingDictCtx ==> |old(DictTable(j.mode))| == TABLE_SIZE)
      ensures result > 0 && output != FillOutput ==>
        && (j.Distinct() && FirstHit(j, old(hashTable[..]), old(DictTable(j.mode))) ==>
              BeginsWith(dst[dest..dest + result], j.History(), FirstOffset(j, old(hashTable[..]), old(DictTable(j.mode)))) == true)
        && BeginsCounted(j, old(hashTable[..]), old(DictTable(j.mode)), dst[dest..dest + result]) == true
      ensures !lost && output != FillOutput && j.Distinct() ==>
        Searched(j.mem, j.source, j.inputSize, hash, j.acceleration, dstCapacity, dst[dest..dest + result]) == true
      ensures result > 0 ==> Fills(j, dstCapacity, dst[dest..dest + result], consumed) == true
      ensures 0 < result && j.inputSize < MIN_LENGTH && output != FillOutput ==>
        dst[dest..dest + result] == EncodeLiterals(j.mem[j.source..j.source + j.inputSize], 0)
      ensures dictionary == old(dictionary) && history == old(history) && Usable()
      ensures currentOffset == old(currentOffset) + j.inputSize && tableType == j.tableType
      ensures dictSize == j.inputSize + (if j.mode == UsingDictCtx then 0 else old(dictSize))
      ensures dictCtx == (if j.mode == UsingDictCtx then null else old(dictCtx))
    {
      hide TableOk, Represents, Reusable, TableKept, DictTableOk, FirstHit, FirstOffset, BeginsWith, BeginsCounted, Job.Distinct, EncodeLiterals, Job.Text, Job.History, EntryOk, Greedy, Searched, Fills;
      var dictTable := if j.mode == UsingDictCtx then dictCtx.hashTable[..] else [];
      ghost var t0, type0 := hashTable[..], tableType;
      if j.mode == UsingDictCtx {
        dictCtx := null;
        dictSize := j.inputSize;
      } else {
        dictSize := dictSize + j.inputSize;
      }
      currentOffset := currentOffset + j.inputSize;
      tableType := j.tableType;
      if j.mode == UsingDictCtx { DictTableSize(j, dictTable); }
      result, consumed, lost := Compress(j, Room(output, dest, dest + dstCapacity, j.inputSize), dst, hashTable, dictTable);
      TableStays(j, t0, hashTable[..], type0);
      IsSearched(j, t0, dictTable, dstCapacity, dst[dest..dest + result], !lost && output != FillOutput);
    }

    // ----- Independent blocks -----

    /** A table that was never used goes with an index that was never advanced. */
    ghost predicate Initialised()
      reads this, hashTable
    {
      Usable() && (tableType == ClearedTable ==> currentOffset == 0)
    }

    /** LZ4_prepareTable: clears the table if it cannot be used again, and otherwise leaves a gap. */
    method PrepareTable(inputSize: nat, tableType: TableType) returns (ghost offset: int)
      requires Usable() && tableType != ClearedTable
      requires this.tableType == ClearedTable ==> currentOffset <= GB - 64 * KB
      modifies this, hashTable
      ensures Usable() && this.tableType in {ClearedTable, tableType}
      ensures Reusable(hashTable[..], this.tableType, offset) && offset in {0, old(currentOffset)}
      ensures currentOffset == if offset != 0 && tableType == ByU32 then offset + 64 * KB else offset
      ensures this.tableType == ByU16 ==> currentOffset + inputSize < 0xFFFF
      ensures this.tableType == ByU32 ==> offset <= GB && inputSize < 4 * KB
      ensures this.tableType == ClearedTable ==> offset == 0 || old(this.tableType) == ClearedTable
      ensures dictCtx == null && dictionary == NULL && dictSize == 0 && history == []
    {
      if this.tableType != ClearedTable {
        if || this.tableType != tableType
           || (tableType == ByU16 && currentOffset + inputSize >= 0xFFFF)
           || (tableType == ByU32 && currentOffset > GB)
           || inputSize >= 4 * KB
        {
          ClearTable();
          currentOffset := 0;
          this.tableType := ClearedTable;
        }
      }
      offset := currentOffset;
      if currentOffset != 0 && tableType == ByU32 {
        currentOffset := currentOffset + 64 * KB;
      }
      dictCtx, dictionary, dictSize, history := null, NULL, 0, [];
    }

    /** A call without history, on a table that has been prepared for it. */
    method CompressPrepared(mem: seq<byte>, source: int, srcSize: int, dst: array<byte>, dest: int, dstCapacity: int,
                            output: OutputMode, tableType: TableType, small: bool, acceleration: int, ghost offset: int)
      returns (result: nat, consumed: int)
      requires 0 <= source && 0 <= srcSize && source + srcSize <= |mem|
      requires 0 <= dest && 0 <= dstCapacity && dest + dstCapacity <= dst.Length
      requires output == NotLimited && srcSize <= MAX_INPUT_SIZE ==> CompressBound(srcSize) <= dstCapacity
      requires dictSize == 0 && dictCtx == null && tableType != ClearedTable && 1 <= acceleration
      requires Initialised() && this.tableType in {ClearedTable, tableType}
      requires Reusable(hashTable[..], this.tableType, offset)
      requires currentOffset == offset || (tableType == ByU32 && currentOffset == offset + 64 * KB)
      requires small || currentOffset == 0 || currentOffset == offset + 64 * KB
      requires small ==> tableType == ByU16
      requires tableType == ByU16 ==> currentOffset + srcSize < LIMIT_64K
      requires srcSize <= MAX_INPUT_SIZE ==> currentOffset + srcSize <= RENORM_LIMIT
      requires output == FillOutput ==> currentOffset == 0
      modifies this, hashTable, dst
      ensures forall i :: 0 <= i < dst.Length && !(dest <= i < dest + dstCapacity) ==> dst[i] == old(dst[i])
      ensures result == 0 ==> srcSize > MAX_INPUT_SIZE || (output != NotLimited && dstCapacity < CompressBound(srcSize))
      ensures result > 0 ==> srcSize <= MAX_INPUT_SIZE
      ensures result == 0 && output == FillOutput ==> srcSize > MAX_INPUT_SIZE || dstCapacity < 1
      ensures result > 0 ==> 0 <= consumed <= srcSize && (output != FillOutput ==> consumed == srcSize) && result <= dstCapacity
      ensures result > 0 ==> Represents(dst[dest..dest + result], [], mem[source..source + consumed])
      ensures 1 <= srcSize <= MAX_INPUT_SIZE && output != FillOutput ==> Searched(mem, source, srcSize, hash, acceleration, dstCapacity, dst[dest..dest + result]) == true
      ensures result > 0 && srcSize > 0 ==> FilledUp(mem[source..source + srcSize], dstCapacity, dst[dest..dest + result], consumed) == true
      ensures Initialised()
    {
      hide TableOk, Represents, EntryOk, FirstHit, FirstOffset, BeginsWith, BeginsCounted, Searched, FilledUp, Fills;
      ghost var j := JobOf(mem, source, srcSize, NoDict, small, tableType, acceleration);
      if 1 <= srcSize <= MAX_INPUT_SIZE {
        assert j.Valid();
        if currentOffset == offset {
          TableFits(j, hashTable[..], this.tableType);
        } else {
          TableFitsGap(j, hashTable[..], this.tableType, offset);
        }
        if currentOffset == 0 { ZeroIsOk(j); }
      }
      var lost;
      result, consumed, lost := CompressGeneric(mem, source, srcSize, dst, dest, dstCapacity, output, tableType, NoDict, small, acceleration);
      RepresentsNothing([]);
      assert mem[source..source] == [];
      if result > 0 && srcSize > 0 { IsFilledUp(j, dstCapacity, dst[dest..dest + result], consumed); }
    }

    /** LZ4_compress_fast_extState: on a state that is wiped first. */
    method CompressFastExtState(mem: seq<byte>, source: int, srcSize: int, dst: array<byte>, dest: int, dstCapacity: int, acceleration: int)
      returns (result: nat)
      requires 0 <= source && 0 <= srcSize && source + srcSize <= |mem|
      requires 0 <= dest && 0 <= dstCapacity && dest + dstCapacity <= dst.Length && hashTable.Length == TABLE_SIZE
      modifies this, hashTable, dst
      ensures forall i :: 0 <= i < dst.Length && !(dest <= i < dest + dstCapacity) ==> dst[i] == old(dst[i])
      ensures result == 0 ==> srcSize > MAX_INPUT_SIZE || dstCapacity < CompressBound(srcSize)
      ensures result > 0 ==> srcSize <= MAX_INPUT_SIZE
      ensures result > 0 ==> result <= dstCapacity && Represents(dst[dest..dest + result], [], mem[source..source + srcSize])
      ensures 1 <= srcSize <= MAX_INPUT_SIZE ==> Searched(mem, source, srcSize, hash, Clamp(acceleration), dstCapacity, dst[dest..dest + result]) == true
      ensures Initialised()
    {
      hide Represents, Reusable, Searched;
      ResetStream();
      var output := if dstCapacity >= BoundOf(srcSize) then NotLimited else LimitedOutput;
      var tableType := if srcSize < LIMIT_64K then ByU16 else ByU32;
      var consumed;
      result, consumed := CompressPrepared(mem, source, srcSize, dst, dest, dstCapacity, output, tableType, false, Clamp(acceleration), 0);
    }

    /** LZ4_compress_fast_extState_fastReset: on the state as earlier calls have left it. */
    method CompressFastExtStateFastReset(mem: seq<byte>, source: int, srcSize: int, dst: array<byte>, dest: int, dstCapacity: int, acceleration: int)
      returns (result: nat)
      requires 0 <= source && 0 <= srcSize && source + srcSize <= |mem|
      requires 0 <= dest && 0 <= dstCapacity && dest + dstCapacity <= dst.Length && Initialised()
      modifies this, hashTable, dst
      ensures forall i :: 0 <= i < dst.Length && !(dest <= i < dest + dstCapacity) ==> dst[i] == old(dst[i])
      ensures result == 0 ==> srcSize > MAX_INPUT_SIZE || dstCapacity < CompressBound(srcSize)
      ensures result > 0 ==> srcSize <= MAX_INPUT_SIZE
      ensures result > 0 ==> result <= dstCapacity && Represents(dst[dest..dest + result], [], mem[source..source + srcSize])
      ensures 1 <= srcSize <= MAX_INPUT_SIZE ==> Searched(mem, source, srcSize, hash, Clamp(acceleration), dstCapacity, dst[dest..dest + result]) == true
      ensures Initialised()
    {
      hide Represents, Reusable, Searched;
      var output := if dstCapacity >= BoundOf(srcSize) then NotLimited else LimitedOutput;
      var tableType := if srcSize < LIMIT_64K then ByU16 else ByU32;
      ghost var offset := PrepareTable(srcSize, tableType);
      var small := tableType == ByU16 && currentOffset != 0;
      var consumed;
      result, consumed := CompressPrepared(mem, source, srcSize, dst, dest, dstCapacity, output, tableType, small, Clamp(acceleration), offset);
    }

    /** LZ4_compress_destSize_extState. */
    method CompressDestSizeExtState(mem: seq<byte>, source: int, srcSize: int, dst: array<byte>, dest: int, targetDstSize: int)
      returns (result: nat, consumed: int)
      requires 0 <= source && 0 <= srcSize && source + srcSize <= |mem|
      requires 0 <= dest && 0 <= targetDstSize && dest + targetDstSize <= dst.Length && hashTable.Length == TABLE_SIZE
      modifies this, hashTable, dst
      ensures forall i :: 0 <= i < dst.Length && !(dest <= i < dest + targetDstSize) ==> dst[i] == old(dst[i])
      ensures result == 0 ==> srcSize > MAX_INPUT_SIZE || targetDstSize < 1
      ensures result > 0 ==> srcSize <= MAX_INPUT_SIZE
      ensures result > 0 ==> result <= targetDstSize && 0 <= consumed <= srcSize
      ensures result > 0 && targetDstSize >= BoundOf(srcSize) ==> consumed == srcSize
      ensures result > 0 && 0 < srcSize && targetDstSize < BoundOf(srcSize) ==> FilledUp(mem[source..source + srcSize], targetDstSize, dst[dest..dest + result], consumed) == true
      ensures result > 0 && consumed < srcSize ==> targetDstSize - 1 <= result
      ensures result > 0 ==> Represents(dst[dest..dest + result], [], mem[source..source + consumed])
    {
      hide Represents, Reusable, FilledUp, Searched;
      ResetStream();
      if targetDstSize >= BoundOf(srcSize) {
        consumed := srcSize;
        result := CompressFastExtState(mem, source, srcSize, dst, dest, targetDstSize, 1);
      } else {
        var tableType := if srcSize < LIMIT_64K then ByU16 else ByU32;
        result, consumed := CompressPrepared(mem, source, srcSize, dst, dest, targetDstSize, FillOutput, tableType, false, 1, 0);
        if result > 0 && consumed < srcSize { LeavesOne(mem[source..source + srcSize], targetDstSize, dst[dest..dest + result], consumed); }
      }
    }

    // ----- Dependent blocks -----

    /** All entries of the table lie inside the dictionary. */
    ghost predicate Filled()
      reads this, hashTable
    {
      && hashTable.Length == TABLE_SIZE && tableType == ByU32 && currentOffset == 64 * KB && dictCtx == null
      && 0 <= dictionary && 8 <= dictSize <= 64 * KB
      && forall h :: 0 <= h < HASH_SIZE_U32 ==>
           hashTable[h] == 0 || currentOffset - dictSize <= hashTable[h] <= currentOffset - MINMATCH
    }

    /** As LZ4_loadDict leaves it. */
    ghost predicate Loaded()
      reads this, hashTable
    {
      Filled() && |history| == dictSize
    }

    /** Fit for LZ4_compress_fast_continue, even if a dictionary is still attached behind later blocks. */
    ghost predicate Sound()
      reads this, hashTable, dictCtx, if dictCtx != null then {dictCtx.hashTable} else {}
    {
      && Usable() && tableType != ByU16
      && 0 <= dictSize <= currentOffset && dictSize <= |history| && NULL <= dictionary && (dictSize > 0 ==> 0 <= dictionary)
      && (dictCtx != null ==>
            dictCtx != this && dictCtx.hashTable != hashTable && dictCtx.Loaded() && 64 * KB <= currentOffset && dictCtx.dictSize <= |history|)
    }

    /** And what is attached is all of the history. */
    ghost predicate Valid()
      reads this, hashTable, dictCtx, if dictCtx != null then {dictCtx.hashTable} else {}
    {
      Sound() && (dictCtx != null ==> dictSize == 0 && history == dictCtx.history)
    }

    function DictEnd(): int
      reads this
    {
      dictionary + dictSize
    }

    /** The last 64 KB of the history are where they were, except for what the input `[source, source + n)` has replaced. */
    ghost predicate Intact(mem: seq<byte>, source: int, n: int)
      requires Sound() == true
      reads this, hashTable, dictCtx, if dictCtx != null then {dictCtx.hashTable} else {}
    {
      && DictEnd() <= |mem|
      && (forall i :: DictEnd() - Min(dictSize, 64 * KB) <= i < DictEnd() && !(source <= i < source + n) ==>
            mem[i] == history[|history| - (DictEnd() - i)])
      && (dictCtx != null ==>
            dictCtx.DictEnd() <= |mem| && mem[dictCtx.dictionary..dictCtx.DictEnd()] == dictCtx.history)
    }

    lemma IntactTail(mem: seq<byte>)
      requires Sound() == true && Intact(mem, 0, 0) == true
      ensures dictSize > 0 ==> EndsIn(mem, DictEnd(), Min(dictSize, 64 * KB), history)
      ensures dictCtx != null && Valid() ==> EndsIn(mem, dictCtx.DictEnd(), dictCtx.dictSize, history)
    {
    }

    lemma IntactAgain(mem: seq<byte>)
      requires Valid() == true && DictEnd() <= |mem|
      requires dictSize > 0 ==> EndsIn(mem, DictEnd(), Min(dictSize, 64 * KB), history)
      requires dictCtx != null ==> EndsIn(mem, dictCtx.DictEnd(), dictCtx.dictSize, history)
      ensures Intact(mem, 0, 0) == true
    {
      if dictSize > 0 {
        var k := Min(dictSize, 64 * KB);
        forall i | DictEnd() - k <= i < DictEnd() ensures mem[i] == history[|history| - (DictEnd() - i)] {
          assert mem[i] == mem[DictEnd() - k..DictEnd()][i - (DictEnd() - k)] == history[|history| - k..][i - (DictEnd() - k)];
        }
      }
    }

    /** The input runs over the end of the dictionary, which the overlap check does not notice. */
    predicate Overruns(source: int, n: int)
      reads this
    {
      MINMATCH <= dictSize && source < DictEnd() <= source + n
    }

    /** An attached dictionary is left behind, but stays attached: the input follows blocks of its own. */
    predicate LeavesBehind(source: int, n: int)
      reads this
    {
      dictCtx != null && n > 0 && DictEnd() == source
    }

    /** The dictionary, in a segment of its own, begins where the input does, and the input goes on well behind it. */
    predicate Ambiguous(source: int, n: int)
      reads this, dictCtx
    {
      && n > 0 && DictEnd() != source
      && if dictCtx != null then
           dictCtx.dictionary == source && dictCtx.dictSize + LASTLITERALS + 1 < n
         else
           && Overruns(source, n) && DictEnd() + LASTLITERALS + 1 < source + n
           && source == if currentOffset + n > RENORM_LIMIT then Max(dictionary, DictEnd() - 64 * KB) else dictionary
    }

    /** The conditions that a caller of LZ4_compress_fast_continue has to keep. */
    ghost predicate Faithful(mem: seq<byte>, source: int, n: int)
      requires Sound() == true
      reads this, hashTable, dictCtx, if dictCtx != null then {dictCtx.hashTable} else {}
    {
      (Overruns(source, n) && MIN_LENGTH <= n ==> Intact(mem, 0, 0)) && !LeavesBehind(source, n) && !Ambiguous(source, n)
    }

    /** The two segments of a call can be told apart, or it does not matter. */
    predicate Apart(source: int, n: int)
      reads this, dictCtx
    {
      n > 0 && DictEnd() != source ==>
        if dictCtx == null then dictionary != source || n <= dictSize + LASTLITERALS + 1
        else dictCtx.dictionary != source || n <= dictCtx.dictSize + LASTLITERALS + 1
    }

    /** LZ4_resetStream_fast. */
    method ResetStreamFast()
      requires Usable() && (tableType == ClearedTable ==> currentOffset <= GB - 64 * KB)
      modifies this, hashTable
      ensures Valid() == true && history == [] && dictCtx == null && dictionary == NULL && dictSize == 0
      ensures currentOffset == 0 || currentOffset >= 64 * KB
    {
      ghost var offset := PrepareTable(0, ByU32);
    }

    /** LZ4_renormDictT: indices start again at 64 KB; distances within the window stay what they are. */
    method RenormDict(nextSize: nat)
      requires Sound() == true
      modifies this, hashTable
      ensures Sound() == true && (old(Valid()) ==> Valid() == true) && history == old(history) && dictCtx == old(dictCtx)
      ensures DictEnd() == old(DictEnd()) && old(dictionary) <= dictionary
      ensures tableType == old(tableType)
      ensures if old(currentOffset) + nextSize <= RENORM_LIMIT then
          currentOffset == old(currentOffset) && dictSize == old(dictSize) && hashTable[..] == old(hashTable[..])
        else
          currentOffset == 64 * KB && dictSize == Min(old(dictSize), 64 * KB)
      ensures old(currentOffset) + nextSize > RENORM_LIMIT && nextSize <= MAX_INPUT_SIZE ==>
        forall h :: 0 <= h < HASH_SIZE_U32 ==>
          if old(currentOffset - hashTable[h]) < 64 * KB then
            currentOffset - hashTable[h] == old(currentOffset - hashTable[h])
          else
            hashTable[h] == 0
    {
      if currentOffset + nextSize > RENORM_LIMIT {
        var delta := (currentOffset - 64 * KB) % U32_SIZE;
        var dictEnd := dictionary + dictSize;
        var i := 0;
        while i < HASH_SIZE_U32
          modifies hashTable
          invariant 0 <= i <= HASH_SIZE_U32
          invariant forall h :: 0 <= h < i ==>
            hashTable[h] == if old(hashTable[h]) < delta then 0 else old(hashTable[h]) - delta
          invariant forall h :: i <= h < TABLE_SIZE ==> hashTable[h] == old(hashTable[h])
          invariant old(tableType) == ClearedTable ==> forall h :: 0 <= h < TABLE_SIZE ==> hashTable[h] == 0
        {
          hashTable[i] := if hashTable[i] < delta then 0 else hashTable[i] - delta;
          i := i + 1;
        }
        currentOffset := 64 * KB;
        if dictSize > 64 * KB { dictSize := 64 * KB; }
        dictionary := dictEnd - dictSize;
      }
    }

    /** The first lines of LZ4_compress_fast_continue: tiny dictionaries go, and so does what the input overlaps. */
    method TrimDict(mem: seq<byte>, source: int, n: nat)
      requires Sound() == true && 0 <= source && source + n <= |mem| && Intact(mem, source, n) == true
      modifies this`dictionary, this`dictSize
      ensures Sound() == true && (old(Valid()) ==> Valid() == true) && history == old(history) && dictCtx == old(dictCtx) && dictSize <= old(dictSize)
      ensures currentOffset == old(currentOffset) && tableType == old(tableType)
      ensures DictEnd() == source || dictSize == 0 || MINMATCH <= dictSize
      ensures old(Overruns(source, n) ==> Intact(mem, 0, 0) == true) ==> Intact(mem, 0, 0) == true
      ensures old(!Ambiguous(source, n)) && currentOffset + n <= RENORM_LIMIT ==> Apart(source, n) == true
      ensures dictSize > 0 ==> DictEnd() == old(DictEnd())
      ensures (dictionary, dictSize) == Trimmed(old(dictionary), old(dictSize), source, n)
      ensures DictEnd() == source ==> dictionary == source || (old(DictEnd()) == source && old(dictionary) <= dictionary)
      ensures old(Valid()) && dictCtx != null ==> old(LeavesBehind(source, n)) == LeavesBehind(source, n)
      ensures (dictCtx == null ==> !LeavesBehind(source, n)) && (old(Overruns(source, n)) ==> DictEnd() != source)
      ensures DictEnd() in {old(DictEnd()), source} && dictionary <= DictEnd()
    {
      hide *;
      TrimParts(mem, source, n);
      ghost var d, size, ctx, valid := dictionary, dictSize, dictCtx, Valid();
      ghost var overruns, ambiguous, leaves, whole := Overruns(source, n), Ambiguous(source, n), LeavesBehind(source, n), Intact(mem, 0, 0);
      Trim(source, n);
      TrimmedIs(d, size, source, n);
      TrimmedSound(mem, source, n, d, size, valid);
      TrimmedIntact(mem, source, n, d, size, overruns ==> whole);
      TrimmedApart(source, n, d, size, ambiguous, leaves, overruns, valid);
    }

    /** A dictionary that is too small goes, and so does what the input overwrites. */
    method Trim(source: int, n: nat)
      modifies this`dictionary, this`dictSize
      ensures (dictionary, dictSize) == Trimmed(old(dictionary), old(dictSize), source, n)
    {
      var dictEnd := dictionary + dictSize;
      if 1 <= dictSize < 4 && dictEnd != source {
        dictSize := 0;
        dictionary := source;
        dictEnd := source;
      }
      var sourceEnd := source + n;
      if sourceEnd > dictionary && sourceEnd < dictEnd {
        dictSize := dictEnd - sourceEnd;
        if dictSize > 64 * KB { dictSize := 64 * KB; }
        if dictSize < 4 { dictSize := 0; }
        dictionary := dictEnd - dictSize;
      }
    }

    lemma TrimParts(mem: seq<byte>, source: int, n: nat)
      requires Sound() == true && Intact(mem, source, n) == true
      ensures Usable() == true && tableType != ByU16 && 0 <= dictSize <= currentOffset && dictSize <= |history| && Attached() == true
      ensures DictEnd() == dictionary + dictSize && NULL <= dictionary && (dictSize > 0 ==> 0 <= dictionary) && NULL == -1 && 0 < KB && MINMATCH == 4
      ensures dictionary + dictSize <= |mem| && AttachedIn(mem) == true
      ensures KeptAt(mem, dictionary, dictSize, history, source, n) == true
      ensures Intact(mem, 0, 0) ==> KeptAt(mem, dictionary, dictSize, history, 0, 0) == true
      ensures dictCtx != null ==>
        dictCtx != this && dictCtx.hashTable != hashTable && dictCtx.Loaded() == true && 64 * KB <= currentOffset && dictCtx.dictSize <= |history|
      ensures Valid() && dictCtx != null ==> dictSize == 0 && history == dictCtx.history
      ensures Overruns(source, n) <==> MINMATCH <= dictSize && source < dictionary + dictSize <= source + n
      ensures LeavesBehind(source, n) <==> dictCtx != null && n > 0 && dictionary + dictSize == source
      ensures Ambiguous(source, n) <==> AmbiguousAt(source, n, dictionary, dictSize)
      ensures currentOffset + n <= RENORM_LIMIT ==> !AmbiguousAt(source, n, dictionary, dictSize) || dictCtx != null || source == dictionary
    {
      KeptParts(mem, source, n);
      if Intact(mem, 0, 0) { KeptParts(mem, 0, 0); }
      hide Reusable;
    }

    lemma KeptParts(mem: seq<byte>, source: int, n: int)
      requires Sound() == true && Intact(mem, source, n) == true
      ensures dictSize <= |history| && dictionary + dictSize <= |mem| && KeptAt(mem, dictionary, dictSize, history, source, n) == true
    {
      hide Reusable, Filled;
      var d, size := dictionary, dictSize;
      forall i | d + size - Min(size, 64 * KB) <= i < d + size && !(source <= i < source + n)
        ensures 0 <= i && mem[i] == history[|history| - (d + size - i)]
      {
        assert DictEnd() - Min(dictSize, 64 * KB) <= i < DictEnd();
      }
    }

    /** What is attached is where it was. */
    ghost predicate AttachedIn(mem: seq<byte>)
      reads this`dictCtx, dictCtx
    {
      dictCtx != null ==> dictCtx.DictEnd() <= |mem| && 0 <= dictCtx.dictionary && 0 <= dictCtx.dictSize && mem[dictCtx.dictionary..dictCtx.DictEnd()] == dictCtx.history
    }

    predicate AmbiguousAt(source: int, n: int, d: int, size: int)
      reads this`dictCtx, this`currentOffset, dictCtx
    {
      && n > 0 && d + size != source
      && if dictCtx != null then
           dictCtx.dictionary == source && dictCtx.dictSize + LASTLITERALS + 1 < n
         else
           && MINMATCH <= size && source < d + size <= source + n && d + size + LASTLITERALS + 1 < source + n
           && source == if currentOffset + n > RENORM_LIMIT then Max(d, d + size - 64 * KB) else d
    }

    lemma TrimmedSound(mem: seq<byte>, source: int, n: nat, d: int, size: int, valid: bool)
      requires Usable() == true && tableType != ByU16 && 0 <= dictSize <= size <= currentOffset && size <= |history| && NULL <= dictionary && (dictSize > 0 ==> 0 <= dictionary)
      requires dictCtx != null ==>
        dictCtx != this && dictCtx.hashTable != hashTable && dictCtx.Loaded() == true && 64 * KB <= currentOffset && dictCtx.dictSize <= |history|
      requires valid && dictCtx != null ==> size == 0 && history == dictCtx.history
      ensures Sound() == true && (valid ==> Valid() == true)
    {
      hide Reusable, Filled;
    }

    lemma TrimmedIntact(mem: seq<byte>, source: int, n: nat, d: int, size: int, whole: bool)
      requires 0 <= size <= |history| && 0 <= dictSize && Sound() == true && d + size <= |mem| && 0 <= source && source + n <= |mem|
      requires (dictionary, dictSize) == Trimmed(d, size, source, n) && AttachedIn(mem) == true
      requires KeptAt(mem, d, size, history, source, n) == true
      requires whole ==> !(MINMATCH <= size && source < d + size <= source + n) || KeptAt(mem, d, size, history, 0, 0) == true
      ensures whole ==> Intact(mem, 0, 0) == true
    {
      hide Sound;
    }

    lemma TrimmedApart(source: int, n: nat, d: int, size: int, ambiguous: bool, leaves: bool, overruns: bool, valid: bool)
      requires 0 <= size && (dictionary, dictSize) == Trimmed(d, size, source, n)
      requires ambiguous <==> AmbiguousAt(source, n, d, size)
      requires leaves <==> dictCtx != null && n > 0 && d + size == source
      requires overruns <==> MINMATCH <= size && source < d + size <= source + n
      requires valid && dictCtx != null ==> size == 0
      ensures !ambiguous && currentOffset + n <= RENORM_LIMIT ==> Apart(source, n) == true
      ensures valid && dictCtx != null ==> leaves == LeavesBehind(source, n)
      ensures (dictCtx == null ==> !LeavesBehind(source, n)) && (overruns ==> DictEnd() != source)
      ensures DictEnd() == dictionary + dictSize && DictEnd() in {d + size, source}
    {
    }

    /** The input `[source, source + n)`, at the end of the dictionary, becomes part of the history. */
    ghost method Absorb(mem: seq<byte>, source: int, n: nat)
      requires 0 <= source && source + n <= |mem|
      requires Usable() && tableType != ByU16 && 0 <= dictionary && DictEnd() == source + n
      requires n <= dictSize <= currentOffset && dictSize <= |history| + n
      requires dictSize > n ==> EndsIn(mem, source, Min(dictSize - n, 64 * KB), history)
      requires dictCtx != null ==>
        && dictCtx != this && dictCtx.hashTable != hashTable && dictCtx.Loaded() && EndsIn(mem, dictCtx.DictEnd(), dictCtx.dictSize, history)
        && n == 0 && dictSize == 0 && 64 * KB <= currentOffset && history == dictCtx.history
      modifies this`history
      ensures Valid() == true && Intact(mem, 0, 0) == true && history == old(history) + mem[source..source + n]
    {
      hide EndsIn, Reusable, Intact;
      EndsInMore(mem, source, Min(dictSize - n, 64 * KB), history, n, Min(dictSize, 64 * KB));
      history := history + mem[source..source + n];
      IntactAgain(mem);
    }

    /** The state is fit for a call of LZ4_compress_generic. */
    ghost predicate Ready(mem: seq<byte>, source: int, n: nat, mode: DictMode, small: bool, acceleration: int)
      reads this, hashTable, dictCtx, if dictCtx != null then {dictCtx.hashTable} else {}
    {
      && Usable() && tableType != ByU16 && (mode == UsingDictCtx ==> dictCtx != null && dictCtx != this && dictCtx.hashTable != hashTable)
      && (1 <= n <= MAX_INPUT_SIZE ==>
            var j := JobOf(mem, source, n, mode, small, ByU32, acceleration);
            && j.Valid() && TableOk(j, hashTable[..], currentOffset) && currentOffset + n <= RENORM_LIMIT
            && (mode == UsingDictCtx ==> DictTableOk(j, dictCtx.hashTable[..])))
    }

    /** A call of LZ4_compress_generic for a dependent block. */
    method RunJob(mem: seq<byte>, source: int, n: nat, dst: array<byte>, dest: int, dstCapacity: int, mode: DictMode, small: bool, acceleration: int)
      returns (result: nat, lost: bool)
      requires 0 <= source && source + n <= |mem| && 0 <= dest && 0 <= dstCapacity && dest + dstCapacity <= dst.Length
      requires Ready(mem, source, n, mode, small, acceleration) == true
      modifies this`currentOffset, this`tableType, this`dictSize, this`dictCtx, hashTable, dst
      ensures forall i :: 0 <= i < dst.Length && !(dest <= i < dest + dstCapacity) ==> dst[i] == old(dst[i])
      ensures lost ==> result == 0 && 1 <= n <= MAX_INPUT_SIZE && !old(JobOf(mem, source, n, mode, small, ByU32, acceleration)).Distinct()
      ensures result == 0 && !lost ==> n > MAX_INPUT_SIZE || dstCapacity < CompressBound(n)
      ensures result > 0 ==> n <= MAX_INPUT_SIZE && result <= dstCapacity
      ensures result > 0 && n > 0 ==>
        Done(old(JobOf(mem, source, n, mode, small, ByU32, acceleration)), old(hashTable[..]), old(DictTable(mode)), dst[dest..dest + result], mem[source..source + n]) == true
      ensures 1 <= n <= MAX_INPUT_SIZE && old(JobOf(mem, source, n, mode, small, ByU32, acceleration)).Distinct() ==>
        Searched(mem, source, n, hash, acceleration, dstCapacity, dst[dest..dest + result]) == true
      ensures result > 0 && n == 0 ==> dst[dest..dest + result] == [0]
      ensures Usable() == true && tableType != ByU16 && (1 <= n <= MAX_INPUT_SIZE ==> tableType == ByU32)
      ensures if 1 <= n <= MAX_INPUT_SIZE then
          && currentOffset == old(currentOffset) + n && dictSize == n + (if mode == UsingDictCtx then 0 else old(dictSize))
          && dictCtx == (if mode == UsingDictCtx then null else old(dictCtx))
        else
          currentOffset == old(currentOffset) && tableType == old(tableType) && dictSize == old(dictSize) && dictCtx == old(dictCtx)
    {
      hide TableOk, DictTableOk, Represents, Job.Text, Job.History, Reusable, FirstHit, FirstOffset, BeginsWith, BeginsCounted, Job.Distinct, EncodeLiterals, Searched;
      var consumed;
      result, consumed, lost := CompressGeneric(mem, source, n, dst, dest, dstCapacity, LimitedOutput, ByU32, mode, small, acceleration);
    }

    /** A short input is always stored as literals, which stand for it behind any history. */
    lemma DoneShort(j: Job, t: seq<int>, dictTable: seq<int>, block: seq<byte>, text: seq<byte>, h: seq<byte>)
      requires |text| < MIN_LENGTH && (if text == [] then block == [0] else Done(j, t, dictTable, block, text) == true)
      ensures Represents(block, h, text) == true
    {
      hide FirstHit, BeginsWith, BeginsCounted, Job.Distinct, Decode, EndConditions, EncodeLiterals;
      if text == [] {
        RepresentsNothing(h);
      } else {
        BlockRoundTrip(h, [], text);
        BlockSizeBound(h, [], text);
        assert EncodeBlock([], text) == EncodeLiterals(text, 0);
      }
    }

    /** What a block that stands for the input behind the bytes of its job says about the history. */
    lemma DoneBehind(j: Job, t: seq<int>, dictTable: seq<int>, block: seq<byte>, text: seq<byte>, h: seq<byte>)
      requires 0 <= j.dictSize <= |h|
      requires text == [] ==> block == [0]
      requires text != [] ==> j.Distinct() && Done(j, t, dictTable, block, text) == true
      requires j.dictSize > 0 ==> EndsIn(j.mem, j.dictionary + j.dictSize, Min(j.dictSize, 64 * KB), h) == true
      ensures Represents(block, h, text) == true
    {
      hide Represents, EndsIn, FirstHit, BeginsWith, BeginsCounted, Job.Distinct;
      BehindHistory(j, block, h, text);
    }

    /** What stays attached is fit for a call. */
    ghost predicate Attached()
      reads this, hashTable, dictCtx, if dictCtx != null then {dictCtx.hashTable} else {}
    {
      dictCtx != null ==>
        dictCtx != this && dictCtx.hashTable != hashTable && dictCtx.Loaded() && 64 * KB <= currentOffset && dictCtx.dictSize <= |history|
    }

    /** What is in front of the `n` bytes of input that were added to the dictionary is the end of the history, and so is what is attached. */
    ghost predicate Behind(mem: seq<byte>, source: int, n: nat, dictSize: nat)
      reads this`history, this`dictCtx, dictCtx
    {
      && (dictSize > 0 ==> EndsIn(mem, source, Min(dictSize, 64 * KB), history))
      && (dictCtx != null ==>
            0 <= dictCtx.dictSize && EndsIn(mem, dictCtx.DictEnd(), dictCtx.dictSize, history) && n == 0 && dictSize == 0 && history == dictCtx.history)
    }

    /** The input becomes history. If all is well before, it is after. */
    ghost method Learn(mem: seq<byte>, source: int, n: nat, good: bool)
      requires 0 <= source && source + n <= |mem|
      requires Usable() == true && tableType != ByU16 && 0 <= dictionary && dictionary + dictSize == source + n
      requires n <= dictSize <= currentOffset && dictSize <= |history| + n && Attached() == true
      requires good ==> Behind(mem, source, n, dictSize - n) == true
      modifies this`history
      ensures Sound() == true && history == old(history) + mem[source..source + n] && DictEnd() == source + n
      ensures good ==> Valid() == true && Intact(mem, 0, 0) == true
    {
      hide EndsIn, Intact, Reusable;
      if good { Absorb(mem, source, n); } else { history := history + mem[source..source + n]; }
    }

    lemma SoundParts(mem: seq<byte>, source: int, n: nat, mode: DictMode, small: bool, acceleration: int)
      requires Sound() == true
      ensures Usable() == true && tableType != ByU16 && 0 <= dictSize <= currentOffset && dictSize <= |history| && Attached() == true
      ensures DictEnd() == dictionary + dictSize && hashTable.Length == TABLE_SIZE && (dictSize > 0 ==> 0 <= dictionary)
      ensures var j := JobOf(mem, source, n, mode, small, ByU32, acceleration);
              && j.mem == mem
              && if mode == UsingDictCtx && dictCtx != null then
                   && j.dictionary == dictCtx.dictionary && j.dictSize == dictCtx.dictSize && 0 <= j.dictSize <= |history|
                   && j.dictionary + j.dictSize == dictCtx.DictEnd() && DictTable(mode) == dictCtx.hashTable[..]
                 else
                   j.dictionary == dictionary && j.dictSize == dictSize && DictTable(mode) == []
    {
    }

    lemma AttachedParts()
      requires Attached() == true && dictCtx != null
      ensures dictCtx != this && dictCtx.hashTable != hashTable && dictCtx.Loaded() == true && 64 * KB <= currentOffset && dictCtx.dictSize <= |history|
    {
    }

    lemma AttachedStays()
      requires dictCtx != null ==>
        dictCtx != this && dictCtx.hashTable != hashTable && dictCtx.Loaded() == true && 64 * KB <= currentOffset && dictCtx.dictSize <= |history|
      ensures Attached() == true
    {
    }

    lemma BehindNothing(mem: seq<byte>, source: int, n: nat)
      requires dictCtx == null
      ensures Behind(mem, source, n, 0) == true
    {
    }

    /** A call in prefix mode: the input follows the dictionary in memory. */
    method ContinuePrefix(mem: seq<byte>, source: int, n: nat, dst: array<byte>, dest: int, dstCapacity: int, acceleration: int)
      returns (result: nat)
      requires Sound() == true && 0 <= source && source + n <= |mem| && 1 <= acceleration && DictEnd() == source
      requires 0 <= dest && 0 <= dstCapacity && dest + dstCapacity <= dst.Length
      requires n <= MAX_INPUT_SIZE ==> currentOffset + n <= RENORM_LIMIT
      modifies this, hashTable, dst
      ensures forall i :: 0 <= i < dst.Length && !(dest <= i < dest + dstCapacity) ==> dst[i] == old(dst[i])
      ensures result == 0 ==> n > MAX_INPUT_SIZE || dstCapacity < CompressBound(n)
      ensures result > 0 ==> n <= MAX_INPUT_SIZE && result <= dstCapacity
      ensures result > 0 && n > 0 ==>
        Done(old(JobOf(mem, source, n, WithPrefix64k, Tight(), ByU32, acceleration)), old(hashTable[..]), [], dst[dest..dest + result], mem[source..source + n]) == true
      ensures 1 <= n <= MAX_INPUT_SIZE ==> Searched(mem, source, n, hash, acceleration, dstCapacity, dst[dest..dest + result]) == true
      ensures Taken(result, n) ==> Sound() == true && history == old(history) + mem[source..source + n]
      ensures Taken(result, n) ==> DictEnd() == source + n && dictCtx == old(dictCtx) && dictionary == old(dictionary)
      ensures Usable() == true && (1 <= n <= MAX_INPUT_SIZE ==> tableType == ByU32) && currentOffset <= old(currentOffset) + n
      ensures old(Valid() && Intact(mem, 0, 0) == true && !LeavesBehind(source, n)) ==>
        && (result > 0 ==> Represents(dst[dest..dest + result], old(history), mem[source..source + n]) == true)
        && (Taken(result, n) ==> Valid() == true && Intact(mem, 0, 0) == true)
    {
      hide *;
      var small := Tight();
      ghost var good := Valid() && Intact(mem, 0, 0) == true && !LeavesBehind(source, n);
      SoundParts(mem, source, n, WithPrefix64k, small, acceleration);
      PrefixReady(mem, source, n, acceleration);
      if good { PrefixGood(mem, source, n); }
      PrefixDistinct(mem, source, n, small, acceleration);
      if dictCtx != null { AttachedParts(); }
      ghost var j, t, k := JobOf(mem, source, n, WithPrefix64k, small, ByU32, acceleration), hashTable[..], dictSize;
      var lost;
      result, lost := RunJob(mem, source, n, dst, dest, dstCapacity, WithPrefix64k, small, acceleration);
      if good && result > 0 { DoneBehind(j, t, [], dst[dest..dest + result], mem[source..source + n], history); }
      TakenParts(result, n);
      if Taken(result, n) {
        assert dictSize - n == k;
        AttachedStays();
        Learn(mem, source, n, good);
      }
    }

    lemma PrefixDistinct(mem: seq<byte>, source: int, n: nat, small: bool, acceleration: int)
      ensures JobOf(mem, source, n, WithPrefix64k, small, ByU32, acceleration).Distinct()
    {
    }

    lemma PrefixReady(mem: seq<byte>, source: int, n: nat, acceleration: int)
      requires Sound() == true && 0 <= source && source + n <= |mem| && 1 <= acceleration && DictEnd() == source
      requires n <= MAX_INPUT_SIZE ==> currentOffset + n <= RENORM_LIMIT
      ensures Ready(mem, source, n, WithPrefix64k, Tight(), acceleration) == true && 0 <= dictionary
    {
      hide TableOk;
      if 1 <= n <= MAX_INPUT_SIZE {
        var j := JobOf(mem, source, n, WithPrefix64k, Tight(), ByU32, acceleration);
        assert j.Valid();
        TableFits(j, hashTable[..], tableType);
      }
    }

    lemma PrefixGood(mem: seq<byte>, source: int, n: nat)
      requires Valid() == true && Intact(mem, 0, 0) == true && !LeavesBehind(source, n) && DictEnd() == source
      ensures Behind(mem, source, n, dictSize) == true
      ensures dictSize > 0 ==> EndsIn(mem, dictionary + dictSize, Min(dictSize, 64 * KB), history) == true
    {
      hide EndsIn, Filled, Reusable;
      IntactTail(mem);
    }

    /** The window is not full, and entries of the table may lie in front of it. */
    predicate Tight()
      reads this
    {
      dictSize < 64 * KB && dictSize < currentOffset
    }

    /** A call in external dictionary mode: the dictionary is somewhere else. */
    method ContinueExternal(mem: seq<byte>, source: int, n: nat, dst: array<byte>, dest: int, dstCapacity: int, small: bool, acceleration: int)
      returns (result: nat, lost: bool)
      requires Sound() == true && 0 <= source && source + n <= |mem| && DictEnd() <= |mem| && 1 <= acceleration
      requires 0 <= dest && 0 <= dstCapacity && dest + dstCapacity <= dst.Length
      requires dictCtx == null
      requires dictSize == 0 || MINMATCH <= dictSize
      requires (small == Tight()) || (!small && Filled() == true)
      requires n <= MAX_INPUT_SIZE ==> currentOffset + n <= RENORM_LIMIT
      modifies this, hashTable, dst
      ensures forall i :: 0 <= i < dst.Length && !(dest <= i < dest + dstCapacity) ==> dst[i] == old(dst[i])
      ensures lost ==> result == 0 && 1 <= n <= MAX_INPUT_SIZE && old(dictionary == source && dictSize + LASTLITERALS + 1 < n)
      ensures result == 0 && !lost ==> n > MAX_INPUT_SIZE || dstCapacity < CompressBound(n)
      ensures result > 0 ==> n <= MAX_INPUT_SIZE && result <= dstCapacity
      ensures result > 0 && n > 0 ==>
        Done(old(JobOf(mem, source, n, UsingExtDict, small, ByU32, acceleration)), old(hashTable[..]), [], dst[dest..dest + result], mem[source..source + n]) == true
      ensures 1 <= n <= MAX_INPUT_SIZE && old(dictionary != source || n <= dictSize + LASTLITERALS + 1) ==> Searched(mem, source, n, hash, acceleration, dstCapacity, dst[dest..dest + result]) == true
      ensures Taken(result, n) ==> Sound() == true && Valid() == true && Intact(mem, 0, 0) == true && history == old(history) + mem[source..source + n]
      ensures Taken(result, n) ==> DictEnd() == source + n && dictCtx == null && dictionary == source
      ensures Usable() == true && (1 <= n <= MAX_INPUT_SIZE ==> tableType == ByU32) && currentOffset <= old(currentOffset) + n
      ensures old(Intact(mem, 0, 0) == true && (n == 0 || dictionary != source || n <= dictSize + LASTLITERALS + 1)) || n < MIN_LENGTH ==>
        (result > 0 ==> Represents(dst[dest..dest + result], old(history), mem[source..source + n]) == true)
    {
      hide *;
      ghost var good := Intact(mem, 0, 0) == true && (n == 0 || dictionary != source || n <= dictSize + LASTLITERALS + 1);
      SoundParts(mem, source, n, UsingExtDict, small, acceleration);
      ExternalReady(mem, source, n, small, acceleration);
      ExternalDistinct(mem, source, n, small, acceleration);
      if good { ExternalGood(mem); }
      ghost var j, t := JobOf(mem, source, n, UsingExtDict, small, ByU32, acceleration), hashTable[..];
      result, lost := RunJob(mem, source, n, dst, dest, dstCapacity, UsingExtDict, small, acceleration);
      if good && result > 0 { DoneBehind(j, t, [], dst[dest..dest + result], mem[source..source + n], history); }
      if n < MIN_LENGTH && result > 0 { DoneShort(j, t, [], dst[dest..dest + result], mem[source..source + n], history); }
      dictionary, dictSize := source, n;
      TakenParts(result, n);
      if Taken(result, n) {
        AttachedStays();
        BehindNothing(mem, source, n);
        Learn(mem, source, n, true);
      }
    }

    lemma ExternalDistinct(mem: seq<byte>, source: int, n: nat, small: bool, acceleration: int)
      ensures JobOf(mem, source, n, UsingExtDict, small, ByU32, acceleration).Distinct() <==> dictionary != source || n <= dictSize + LASTLITERALS + 1
    {
    }

    lemma ExternalReady(mem: seq<byte>, source: int, n: nat, small: bool, acceleration: int)
      requires Sound() == true && 0 <= source && source + n <= |mem| && DictEnd() <= |mem| && 1 <= acceleration
      requires dictCtx == null
      requires dictSize == 0 || MINMATCH <= dictSize
      requires (small == Tight()) || (!small && Filled() == true)
      requires n <= MAX_INPUT_SIZE ==> currentOffset + n <= RENORM_LIMIT
      ensures Ready(mem, source, n, UsingExtDict, small, acceleration) == true
    {
      hide TableOk;
      if 1 <= n <= MAX_INPUT_SIZE {
        var j := JobOf(mem, source, n, UsingExtDict, small, ByU32, acceleration);
        assert j.Valid();
        if small != Tight() {
          TableFitsLoaded(j, hashTable[..]);
        } else {
          TableFits(j, hashTable[..], tableType);
        }
      }
    }

    lemma ExternalGood(mem: seq<byte>)
      requires Sound() == true && Intact(mem, 0, 0) == true && dictCtx == null
      ensures dictSize > 0 ==> EndsIn(mem, dictionary + dictSize, Min(dictSize, 64 * KB), history) == true
    {
      hide EndsIn, Filled, Reusable;
      IntactTail(mem);
    }

    /** The attached stream is copied as a whole: its dictionary takes the place of the history. */
    method CopyDictCtx(ghost mem: seq<byte>)
      requires Sound() == true && dictCtx != null && dictCtx.DictEnd() <= |mem|
      modifies this, hashTable
      ensures Sound() == true && Filled() == true && DictEnd() <= |mem| && 8 <= dictSize && currentOffset == 64 * KB
      ensures dictCtx == null && history == old(history) && dictionary == old(dictCtx.dictionary) && dictSize == old(dictCtx.dictSize)
      ensures currentOffset == old(dictCtx.currentOffset) && hashTable[..] == old(dictCtx.hashTable[..])
      ensures old(Valid() && Intact(mem, 0, 0) == true) ==> Intact(mem, 0, 0) == true
    {
      hide *;
      ghost var good := Valid() && Intact(mem, 0, 0) == true;
      var other: Stream := dictCtx;
      ToCopy(other, mem, good);
      CopyTable(hashTable, other.hashTable);
      currentOffset, tableType, dictionary, dictSize, dictCtx :=
        other.currentOffset, other.tableType, other.dictionary, other.dictSize, other.dictCtx;
      Copied(other, mem, good);
    }

    lemma ToCopy(other: Stream, mem: seq<byte>, good: bool)
      requires Sound() == true && dictCtx == other && other.DictEnd() <= |mem| && (good ==> Valid() == true && Intact(mem, 0, 0) == true)
      ensures other != this && other.hashTable != hashTable && hashTable.Length == other.hashTable.Length == TABLE_SIZE
      ensures other.Loaded() == true && other.dictSize <= |history| && other.currentOffset == 64 * KB && other.dictCtx == null
      ensures good ==> EndsIn(mem, other.DictEnd(), other.dictSize, history) == true
    {
      if good { IntactTail(mem); }
      hide EndsIn;
    }

    lemma Copied(other: Stream, mem: seq<byte>, good: bool)
      requires other.Loaded() == true && other.dictSize <= |history| && other.DictEnd() <= |mem| && hashTable[..] == other.hashTable[..]
      requires currentOffset == other.currentOffset && tableType == other.tableType && dictionary == other.dictionary && dictSize == other.dictSize
      requires dictCtx == other.dictCtx && (good ==> EndsIn(mem, other.DictEnd(), other.dictSize, history) == true)
      ensures Sound() == true && Filled() == true && DictEnd() <= |mem| && 8 <= dictSize && (good ==> Intact(mem, 0, 0) == true)
    {
      assert hashTable[..] == other.hashTable[..];
      assert forall h :: 0 <= h < hashTable.Length ==> hashTable[h] == hashTable[..][h] == other.hashTable[h];
      hide EndsIn, Intact;
      if good { IntactAgain(mem); }
    }

    /** A call that looks into the table of the attached dictionary. */
    method ContinueDictCtx(mem: seq<byte>, source: int, n: nat, dst: array<byte>, dest: int, dstCapacity: int, acceleration: int)
      returns (result: nat, lost: bool)
      requires Sound() == true && 0 <= source && source + n <= |mem| && 1 <= acceleration
      requires 0 <= dest && 0 <= dstCapacity && dest + dstCapacity <= dst.Length
      requires dictCtx != null && DictEnd() != source && dictCtx.DictEnd() <= |mem|
      requires n <= 4 * KB && currentOffset + n <= RENORM_LIMIT
      modifies this, hashTable, dst
      ensures forall i :: 0 <= i < dst.Length && !(dest <= i < dest + dstCapacity) ==> dst[i] == old(dst[i])
      ensures lost ==> result == 0 && 1 <= n <= MAX_INPUT_SIZE && old(dictCtx.dictionary == source && dictCtx.dictSize + LASTLITERALS + 1 < n)
      ensures result == 0 && !lost ==> n > MAX_INPUT_SIZE || dstCapacity < CompressBound(n)
      ensures result > 0 ==> n <= MAX_INPUT_SIZE && result <= dstCapacity
      ensures result > 0 && n > 0 ==>
        Done(old(JobOf(mem, source, n, UsingDictCtx, false, ByU32, acceleration)), old(hashTable[..]), old(dictCtx.hashTable[..]), dst[dest..dest + result], mem[source..source + n]) == true
      ensures 1 <= n && old(dictCtx.dictionary != source || n <= dictCtx.dictSize + LASTLITERALS + 1) ==> Searched(mem, source, n, hash, acceleration, dstCapacity, dst[dest..dest + result]) == true
      ensures Taken(result, n) ==> Sound() == true && history == old(history) + mem[source..source + n]
      ensures Taken(result, n) ==> DictEnd() == source + n && dictCtx == (if n > 0 then null else old(dictCtx)) && dictionary == source
      ensures Usable() == true && (1 <= n <= MAX_INPUT_SIZE ==> tableType == ByU32) && currentOffset <= old(currentOffset) + n
      ensures Taken(result, n) && n > 0 ==> Valid() == true && Intact(mem, 0, 0) == true
      ensures old(Valid() && Intact(mem, 0, 0) == true) ==>
        && (result > 0 && old(n == 0 || dictCtx.dictionary != source || n <= dictCtx.dictSize + LASTLITERALS + 1) ==>
              Represents(dst[dest..dest + result], old(history), mem[source..source + n]) == true)
        && (Taken(result, n) ==> Valid() == true && Intact(mem, 0, 0) == true)
    {
      hide *;
      ghost var good := Valid() && Intact(mem, 0, 0) == true;
      SoundParts(mem, source, n, UsingDictCtx, false, acceleration);
      DictCtxReady(mem, source, n, acceleration);
      DictCtxDistinct(mem, source, n, acceleration);
      ghost var apart := n == 0 || dictCtx.dictionary != source || n <= dictCtx.dictSize + LASTLITERALS + 1;
      if good { DictCtxGood(mem, source, n); }
      AttachedParts();
      ghost var j, t, dictTable := JobOf(mem, source, n, UsingDictCtx, false, ByU32, acceleration), hashTable[..], dictCtx.hashTable[..];
      ghost var ctx := dictCtx;
      result, lost := RunJob(mem, source, n, dst, dest, dstCapacity, UsingDictCtx, false, acceleration);
      if good && result > 0 && apart { DoneBehind(j, t, dictTable, dst[dest..dest + result], mem[source..source + n], history); }
      dictionary, dictSize := source, n;
      TakenParts(result, n);
      FourKB(n);
      if Taken(result, n) {
        AttachedStays();
        if n > 0 { BehindNothing(mem, source, n); }
        Learn(mem, source, n, good || n > 0);
      }
    }

    lemma DictCtxDistinct(mem: seq<byte>, source: int, n: nat, acceleration: int)
      requires dictCtx != null
      ensures JobOf(mem, source, n, UsingDictCtx, false, ByU32, acceleration).Distinct() <==> dictCtx.dictionary != source || n <= dictCtx.dictSize + LASTLITERALS + 1
    {
    }

    lemma DictCtxReady(mem: seq<byte>, source: int, n: nat, acceleration: int)
      requires Sound() == true && 0 <= source && source + n <= |mem| && 1 <= acceleration
      requires n <= 4 * KB && currentOffset + n <= RENORM_LIMIT && dictCtx != null && DictEnd() != source && dictCtx.DictEnd() <= |mem|
      ensures Ready(mem, source, n, UsingDictCtx, false, acceleration) == true
    {
      hide TableOk;
      if 1 <= n {
        var j := JobOf(mem, source, n, UsingDictCtx, false, ByU32, acceleration);
        assert j.Valid();
        TableFits(j, hashTable[..], tableType);
      }
    }

    lemma DictCtxGood(mem: seq<byte>, source: int, n: nat)
      requires Valid() == true && Intact(mem, 0, 0) == true && dictCtx != null
      ensures n == 0 ==> Behind(mem, source, n, 0) == true
      ensures dictCtx.dictSize > 0 ==> EndsIn(mem, dictCtx.DictEnd(), Min(dictCtx.dictSize, 64 * KB), history) == true
    {
      hide EndsIn, Reusable;
      IntactTail(mem);
    }

    /** Where the attached dictionary is, and the index of its end. */
    function AttachedWindow(): Option<(int, int, int)>
      reads this`dictCtx, dictCtx
    {
      if dictCtx == null then None else Some((dictCtx.dictionary, dictCtx.dictSize, dictCtx.currentOffset))
    }

    ghost function AttachedTable(): Option<seq<int>>
      reads this`dictCtx, dictCtx, if dictCtx != null then {dictCtx.hashTable} else {}
    {
      if dictCtx == null then None else Some(dictCtx.hashTable[..])
    }

    /** What a call works on, if its dictionary is `[d, d + size)`. */
    ghost function JobFor(mem: seq<byte>, source: int, n: nat, acceleration: int, d: int, size: int): Job
      reads this, dictCtx
    {
      JobFrom(mem, source, n, acceleration, d, size, currentOffset, hash, AttachedWindow())
    }

    /** The tables that it looks into. */
    ghost function TablesFor(source: int, n: nat, d: int, size: int): (seq<int>, seq<int>)
      reads this, hashTable, this`dictCtx, if dictCtx != null then {dictCtx, dictCtx.hashTable} else {}
    {
      TablesFrom(source, n, d, size, hashTable[..], AttachedTable())
    }

    /** What a call works on, and the tables, if the indices need not be renormalised. */
    ghost function CallJob(mem: seq<byte>, source: int, n: nat, acceleration: int): Job
      reads this, dictCtx
    {
      var left := Trimmed(dictionary, dictSize, source, n);
      JobFor(mem, source, n, acceleration, left.0, left.1)
    }

    ghost function CallTables(source: int, n: nat): (seq<int>, seq<int>)
      reads this, hashTable, this`dictCtx, if dictCtx != null then {dictCtx, dictCtx.hashTable} else {}
    {
      var left := Trimmed(dictionary, dictSize, source, n);
      TablesFor(source, n, left.0, left.1)
    }

    /** What the mode of a call makes of it. */
    lemma CallParts(mem: seq<byte>, source: int, n: nat, acceleration: int)
      ensures var j, tables, a := JobFor(mem, source, n, acceleration, dictionary, dictSize), TablesFor(source, n, dictionary, dictSize), Clamp(acceleration);
              if dictionary + dictSize == source then
                j == JobOf(mem, source, n, WithPrefix64k, Tight(), ByU32, a) && tables == (hashTable[..], [])
              else if dictCtx == null then
                j == JobOf(mem, source, n, UsingExtDict, Tight(), ByU32, a) && tables == (hashTable[..], [])
              else if n > 4 * KB then
                && j == Job(mem, source, n, dictCtx.currentOffset, dictCtx.dictionary, dictCtx.dictSize, 0, UsingExtDict, false, ByU32, hash, a)
                && tables == (dictCtx.hashTable[..], [])
              else
                j == JobOf(mem, source, n, UsingDictCtx, false, ByU32, a) && tables == (hashTable[..], dictCtx.hashTable[..])
      ensures DictEnd() == dictionary + dictSize && (LeavesBehind(source, n) <==> dictCtx != null && n > 0 && dictionary + dictSize == source)
    {
    }

    lemma ExternalJob(mem: seq<byte>, source: int, n: nat, small: bool, a: int)
      ensures JobOf(mem, source, n, UsingExtDict, small, ByU32, a) ==
        Job(mem, source, n, currentOffset, dictionary, dictSize, 0, UsingExtDict, small, ByU32, hash, a)
    {
    }

    /** The mode of a call, once the dictionary has been trimmed. */
    method Dispatch(mem: seq<byte>, source: int, n: nat, dst: array<byte>, dest: int, dstCapacity: int, acceleration: int)
      returns (result: nat, lost: bool)
      requires Sound() == true && 0 <= source && source + n <= |mem| && DictEnd() <= |mem|
      requires 0 <= dest && 0 <= dstCapacity && dest + dstCapacity <= dst.Length
      requires n <= MAX_INPUT_SIZE ==> currentOffset + n <= RENORM_LIMIT
      requires DictEnd() == source || dictSize == 0 || MINMATCH <= dictSize
      requires dictCtx != null ==> dictCtx.DictEnd() <= |mem|
      modifies this, hashTable, dst
      ensures forall i :: 0 <= i < dst.Length && !(dest <= i < dest + dstCapacity) ==> dst[i] == old(dst[i])
      ensures lost ==> result == 0 && n <= MAX_INPUT_SIZE && old(!Apart(source, n))
      ensures result == 0 && !lost ==> n > MAX_INPUT_SIZE || dstCapacity < CompressBound(n)
      ensures result > 0 ==> n <= MAX_INPUT_SIZE && result <= dstCapacity
      ensures result > 0 && n > 0 ==>
        Done(old(JobFor(mem, source, n, acceleration, dictionary, dictSize)), old(TablesFor(source, n, dictionary, dictSize)).0,
             old(TablesFor(source, n, dictionary, dictSize)).1, dst[dest..dest + result], mem[source..source + n]) == true
      ensures 1 <= n <= MAX_INPUT_SIZE && old(Apart(source, n)) ==> Searched(mem, source, n, hash, Clamp(acceleration), dstCapacity, dst[dest..dest + result]) == true
      ensures Taken(result, n) ==> Sound() == true && history == old(history) + mem[source..source + n] && DictEnd() == source + n
      ensures Taken(result, n) ==>
        if old(DictEnd()) == source then
          dictionary == old(dictionary) && dictCtx == old(dictCtx)
        else
          dictionary == source && dictCtx == (if n > 0 then null else old(dictCtx))
      ensures Usable() == true && (1 <= n <= MAX_INPUT_SIZE ==> tableType == ByU32) && currentOffset <= Max(old(currentOffset), 64 * KB) + n
      ensures 1 <= n <= MAX_INPUT_SIZE && old(DictEnd()) != source ==> Valid() == true && Intact(mem, 0, 0) == true
      ensures old(Valid() && Intact(mem, 0, 0) == true && !LeavesBehind(source, n)) ==>
        && (result > 0 && old(Apart(source, n)) ==> Represents(dst[dest..dest + result], old(history), mem[source..source + n]) == true)
        && (Taken(result, n) ==> Valid() == true && Intact(mem, 0, 0) == true)
      ensures result > 0 && n < MIN_LENGTH && old(DictEnd()) != source && old(dictCtx) == null ==>
        Represents(dst[dest..dest + result], old(history), mem[source..source + n]) == true
    {
      hide *;
      ApartParts(source, n);
      CallParts(mem, source, n, acceleration);
      Limits(currentOffset);
      var a := Clamp(acceleration);
      lost := false;
      if DictEnd() == source {
        result := ContinuePrefix(mem, source, n, dst, dest, dstCapacity, a);
      } else if dictCtx == null {
        result, lost := ContinueExternal(mem, source, n, dst, dest, dstCapacity, Tight(), a);
      } else if n > 4 * KB {
        CopyDictCtx(mem);
        ExternalJob(mem, source, n, false, a);
        result, lost := ContinueExternal(mem, source, n, dst, dest, dstCapacity, false, a);
      } else {
        result, lost := ContinueDictCtx(mem, source, n, dst, dest, dstCapacity, a);
      }
      TakenParts(result, n);
    }

    /**
     LZ4_compress_fast_continue. The block stands for the input behind the bytes that the call sees. If its
     caller has kept the conditions, that is behind the history; and the input becomes part of the
     history, even if the block did not fit. In an ambiguous call the search can get `lost`.
     */
    method CompressFastContinue(mem: seq<byte>, source: int, n: nat, dst: array<byte>, dest: int, dstCapacity: int, acceleration: int)
      returns (result: nat, lost: bool)
      requires Sound() == true && 0 <= source && source + n <= |mem| && Intact(mem, source, n) == true
      requires 0 <= dest && 0 <= dstCapacity && dest + dstCapacity <= dst.Length
      modifies this, hashTable, dst
      ensures forall i :: 0 <= i < dst.Length && !(dest <= i < dest + dstCapacity) ==> dst[i] == old(dst[i])
      ensures lost ==> result == 0 && old(Ambiguous(source, n))
      ensures result == 0 && !lost ==> n > MAX_INPUT_SIZE || dstCapacity < CompressBound(n)
      ensures result > 0 ==> n <= MAX_INPUT_SIZE && result <= dstCapacity
      ensures result > 0 && n > 0 && old(currentOffset) + n <= RENORM_LIMIT ==>
        Done(old(CallJob(mem, source, n, acceleration)), old(CallTables(source, n)).0, old(CallTables(source, n)).1,
             dst[dest..dest + result], mem[source..source + n]) == true
      ensures 1 <= n <= MAX_INPUT_SIZE && !old(Ambiguous(source, n)) ==> Searched(mem, source, n, hash, Clamp(acceleration), dstCapacity, dst[dest..dest + result]) == true
      ensures Taken(result, n) ==> Sound() == true && history == old(history) + mem[source..source + n] && DictEnd() == source + n
      ensures Taken(result, n) ==> dictionary == source || (old(DictEnd()) == source && old(dictionary) <= dictionary <= source)
      ensures Taken(result, n) ==> dictCtx in {null, old(dictCtx)} && (n == 0 || old(DictEnd()) == source ==> dictCtx == old(dictCtx))
      ensures old(Valid()) && 1 <= n <= MAX_INPUT_SIZE && dictCtx != null ==> old(LeavesBehind(source, n))
      ensures Usable() == true && (1 <= n <= MAX_INPUT_SIZE ==> tableType == ByU32) && currentOffset <= Max(old(currentOffset), 64 * KB) + n
      ensures old(Valid() && Faithful(mem, source, n) == true) ==>
        && (result > 0 ==> Represents(dst[dest..dest + result], old(history), mem[source..source + n]) == true)
        && (Taken(result, n) ==> Valid() == true && Intact(mem, 0, 0) == true && (n > 0 ==> dictCtx == null))
    {
      hide Represents, Reusable, Done;
      ghost var good := Valid() && Faithful(mem, source, n);
      Prepare(mem, source, n, acceleration);
      hide *;
      result, lost := Dispatch(mem, source, n, dst, dest, dstCapacity, acceleration);
    }

    /** Renormalising changes nothing that the caller's conditions are about. */
    method Renormalise(mem: seq<byte>, source: int, n: nat)
      requires Sound() == true && 0 <= source && source + n <= |mem| && Intact(mem, source, n) == true
      modifies this, hashTable
      ensures Sound() == true && Intact(mem, source, n) == true && Ambiguous(source, n) == old(Ambiguous(source, n)) && (n <= MAX_INPUT_SIZE ==> currentOffset + n <= RENORM_LIMIT)
      ensures history == old(history) && dictCtx == old(dictCtx) && DictEnd() == old(DictEnd()) && old(dictionary) <= dictionary
      ensures (old(Valid()) ==> Valid() == true) && LeavesBehind(source, n) == old(LeavesBehind(source, n))
      ensures currentOffset <= Max(old(currentOffset), 64 * KB)
      ensures old(Valid() && Faithful(mem, source, n) == true) ==> Valid() == true && Faithful(mem, source, n) == true
      ensures old(currentOffset) + n <= RENORM_LIMIT ==>
        && currentOffset == old(currentOffset) && dictionary == old(dictionary) && dictSize == old(dictSize) && hashTable[..] == old(hashTable[..])
    {
      hide Reusable, Filled;
      RenormDict(n);
    }

    lemma InRange(mem: seq<byte>, source: int, n: nat)
      requires Sound() == true && Intact(mem, source, n) == true
      ensures DictEnd() <= |mem| && 0 <= dictSize && (dictCtx != null ==> dictCtx != this && dictCtx.hashTable != hashTable && dictCtx.DictEnd() <= |mem|)
    {
      hide Reusable, Filled;
    }

    lemma FaithfulParts(mem: seq<byte>, source: int, n: int)
      requires Sound() == true && Faithful(mem, source, n) == true
      ensures (Overruns(source, n) && MIN_LENGTH <= n ==> Intact(mem, 0, 0) == true) && !LeavesBehind(source, n)
      ensures Valid() && Overruns(source, n) ==> dictCtx == null
    {
      hide Intact;
    }

    lemma ApartParts(source: int, n: int)
      ensures Apart(source, n) <==> (n > 0 && DictEnd() != source ==>
        if dictCtx == null then dictionary != source || n <= dictSize + LASTLITERALS + 1
        else dictCtx.dictionary != source || n <= dictCtx.dictSize + LASTLITERALS + 1)
    {
    }

    /** What a call works on depends on no more than this. */
    lemma CallFrom(mem: seq<byte>, source: int, n: nat, acceleration: int, d: int, size: int)
      ensures JobFor(mem, source, n, acceleration, d, size) == JobFrom(mem, source, n, acceleration, d, size, currentOffset, hash, AttachedWindow())
      ensures TablesFor(source, n, d, size) == TablesFrom(source, n, d, size, hashTable[..], AttachedTable())
    {
    }

    lemma CallTrimmed(mem: seq<byte>, source: int, n: nat, acceleration: int)
      ensures CallJob(mem, source, n, acceleration) ==
        JobFor(mem, source, n, acceleration, Trimmed(dictionary, dictSize, source, n).0, Trimmed(dictionary, dictSize, source, n).1)
      ensures CallTables(source, n) == TablesFor(source, n, Trimmed(dictionary, dictSize, source, n).0, Trimmed(dictionary, dictSize, source, n).1)
    {
    }

    /** Renormalising and trimming. */
    method Prepare(mem: seq<byte>, source: int, n: nat, ghost acceleration: int)
      requires Sound() == true && 0 <= source && source + n <= |mem| && Intact(mem, source, n) == true
      modifies this, hashTable
      ensures Sound() == true && history == old(history) && dictCtx == old(dictCtx) && DictEnd() <= |mem| && (n <= MAX_INPUT_SIZE ==> currentOffset + n <= RENORM_LIMIT)
      ensures DictEnd() == source || dictSize == 0 || MINMATCH <= dictSize
      ensures old(!Ambiguous(source, n)) && n <= MAX_INPUT_SIZE ==> Apart(source, n) == true
      ensures dictCtx != null ==> dictCtx.DictEnd() <= |mem|
      ensures old(Valid() && Faithful(mem, source, n) == true) ==> Valid() == true && !LeavesBehind(source, n)
      ensures old(Valid() && Faithful(mem, source, n) == true) ==> Intact(mem, 0, 0) == true || (n < MIN_LENGTH && DictEnd() != source && dictCtx == null)
      ensures old(currentOffset) + n <= RENORM_LIMIT ==>
        && JobFor(mem, source, n, acceleration, dictionary, dictSize) == old(CallJob(mem, source, n, acceleration))
        && TablesFor(source, n, dictionary, dictSize) == old(CallTables(source, n))
      ensures DictEnd() == source ==> dictionary == source || (old(DictEnd()) == source && old(dictionary) <= dictionary <= source)
      ensures old(DictEnd()) == source ==> DictEnd() == source
      ensures old(Valid()) && dictCtx != null ==> old(LeavesBehind(source, n)) == LeavesBehind(source, n)
      ensures currentOffset <= Max(old(currentOffset), 64 * KB)
    {
      hide *;
      InRange(mem, source, n);
      ghost var good := Valid() && Faithful(mem, source, n) == true;
      CallTrimmed(mem, source, n, acceleration);
      ghost var (d, size) := Trimmed(dictionary, dictSize, source, n);
      CallFrom(mem, source, n, acceleration, d, size);
      Renormalise(mem, source, n);
      InRange(mem, source, n);
      if good { FaithfulParts(mem, source, n); }
      TrimDict(mem, source, n);
      CallFrom(mem, source, n, acceleration, dictionary, dictSize);
    }

    /** Every third position of the dictionary `[p0, dictEnd)` goes into the table, and stays unless a later one has its slot. */
    method FillTable(mem: seq<byte>, p0: int, dictEnd: int) returns (ghost k: nat)
      requires hashTable.Length == TABLE_SIZE && currentOffset == 64 * KB && forall h :: 0 <= h < HASH_SIZE_U32 ==> hashTable[h] == 0
      requires 0 <= p0 && dictEnd <= |mem| && 8 <= dictEnd - p0 <= 64 * KB
      modifies hashTable
      ensures Filling(hash, hashTable[..], mem, p0, dictEnd, k) == true && Third(p0, k) > dictEnd - 8
    {
      hide Filling;
      var p := p0;
      k := 0;
      FillingStarts(hash, hashTable[..], mem, p0, dictEnd);
      while p <= dictEnd - 8
        invariant p0 <= p == Third(p0, k) && Filling(hash, hashTable[..], mem, p0, dictEnd, k) == true
      {
        ghost var t := hashTable[..];
        var h := hash(mem[p..p + 8]) % HASH_SIZE_U32;
        hashTable[h] := (p - (dictEnd - currentOffset)) % U32_SIZE;
        FillingMore(hash, t, mem, p0, dictEnd, k);
        assert hashTable[..] == t[h := p - (dictEnd - 64 * KB)];
        p := p + 3;
        k := k + 1;
      }
    }

    lemma TableFilled(mem: seq<byte>, k: nat)
      requires Filling(hash, hashTable[..], mem, dictionary, DictEnd(), k) == true && Third(dictionary, k) > DictEnd() - 8
      requires tableType == ByU32 && currentOffset == 64 * KB && dictCtx == null && 0 <= dictionary && 8 <= dictSize <= 64 * KB
      ensures Filled()
    {
    }

    /** LZ4_loadDict: the last 64 KB of the dictionary, every third position of it in the table. */
    method LoadDict(mem: seq<byte>, dictionary: int, dictSize: int) returns (result: nat, ghost k: nat)
      requires hashTable.Length == TABLE_SIZE
      requires 0 <= dictionary && (dictSize > 0 ==> dictionary + dictSize <= |mem|)
      modifies this, hashTable
      ensures Valid() == true && Intact(mem, 0, 0) == true && dictCtx == null && this.dictSize == result
      ensures result == if dictSize < 8 then 0 else Min(dictSize, 64 * KB)
      ensures if result == 0 then history == [] else Loaded() == true && history == mem[dictionary + dictSize - result..dictionary + dictSize]
      ensures result > 0 ==> DictEnd() == dictionary + dictSize && currentOffset == 64 * KB
      ensures result > 0 ==> Filling(hash, hashTable[..], mem, this.dictionary, DictEnd(), k) == true && Third(this.dictionary, k) > DictEnd() - 8
    {
      hide *;
      ResetStream();
      JustReset();
      k := 0;
      currentOffset := 64 * KB;
      if dictSize < 8 {
        EmptyLoaded(mem);
        return 0, k;
      }
      var dictEnd := dictionary + dictSize;
      var p := if dictEnd - dictionary > 64 * KB then dictEnd - 64 * KB else dictionary;
      this.dictionary, this.dictSize, tableType := p, dictEnd - p, ByU32;
      history := mem[p..dictEnd];
      MinIs(dictSize);
      k := FillTable(mem, p, dictEnd);
      DictLoaded(mem, k);
      result := this.dictSize;
    }

    lemma JustReset()
      requires Usable() == true && Fresh() == true
      ensures hashTable.Length == TABLE_SIZE && dictCtx == null && history == [] && dictSize == 0 && currentOffset == 0 && currentOffset + 64 * KB == 64 * KB
      ensures tableType == ClearedTable && dictionary == NULL && 0 < 64 * KB && 8 <= 64 * KB
      ensures HASH_SIZE_U32 <= TABLE_SIZE && forall h :: 0 <= h < hashTable.Length ==> hashTable[h] == 0
    {
    }

    lemma EmptyLoaded(mem: seq<byte>)
      requires hashTable.Length == TABLE_SIZE && forall h :: 0 <= h < hashTable.Length ==> hashTable[h] == 0
      requires tableType == ClearedTable && currentOffset == 64 * KB && dictionary == NULL && dictSize == 0 && dictCtx == null && history == []
      ensures Valid() == true && Intact(mem, 0, 0) == true
    {
    }

    lemma DictLoaded(mem: seq<byte>, k: nat)
      requires 0 <= dictionary && 8 <= dictSize <= 64 * KB && dictionary + dictSize <= |mem| && history == mem[dictionary..dictionary + dictSize]
      requires Filling(hash, hashTable[..], mem, dictionary, dictionary + dictSize, k) == true && Third(dictionary, k) > dictionary + dictSize - 8
      requires tableType == ByU32 && currentOffset == 64 * KB && dictCtx == null
      ensures Valid() == true && Loaded() == true && Intact(mem, 0, 0) == true && DictEnd() == dictionary + dictSize
    {
      hide Filling;
      TableFilled(mem, k);
    }

    /** LZ4_attach_dictionary. A dictionary is attached to a stream that has just been reset. */
    method AttachDictionary(dictionaryStream: Stream?)
      requires dictionaryStream != null ==>
        && Valid() == true && dictSize == 0 && history == [] && (currentOffset == 0 || 64 * KB <= currentOffset)
        && dictionaryStream != this && dictionaryStream.hashTable != hashTable
        && (dictionaryStream.Loaded() || dictionaryStream.dictSize == 0)
      modifies this`currentOffset, this`dictCtx, this`history
      ensures dictCtx == if dictionaryStream != null && dictionaryStream.dictSize == 0 then null else dictionaryStream
      ensures dictionaryStream == null ==> currentOffset == old(currentOffset) && history == old(history)
      ensures dictionaryStream != null ==> currentOffset == Max(old(currentOffset), 64 * KB)
      ensures dictionaryStream != null ==> Valid() == true && history == (if dictCtx == null then [] else dictCtx.history)
    {
      var ctx := dictionaryStream;
      if ctx != null {
        if currentOffset == 0 { currentOffset := 64 * KB; }
        if ctx.dictSize == 0 { ctx := null; }
        history := if ctx == null then [] else ctx.history;
      }
      dictCtx := ctx;
    }

    /** The last `n` bytes of the history, at another place, become the dictionary. */
    method Relocate(ghost mem: seq<byte>, start: int, n: nat)
      requires Valid() == true && NULL <= start && n <= dictSize && start + n <= |mem|
      requires n > 0 ==> 0 <= start && n <= 64 * KB && EndsIn(mem, start + n, n, history)
      requires dictCtx != null ==> EndsIn(mem, dictCtx.DictEnd(), dictCtx.dictSize, history)
      modifies this`dictionary, this`dictSize
      ensures Valid() == true && Intact(mem, 0, 0) == true && dictionary == start && dictSize == n
    {
      hide EndsIn, Intact, Reusable;
      dictionary, dictSize := start, n;
      IntactAgain(mem);
    }

    /** LZ4_saveDict: the end of the window is moved to a place of the caller's choice. */
    method SaveDict(mem: array<byte>, safeBuffer: int, maxDictSize: int) returns (result: nat)
      requires Valid() == true && Intact(mem[..], 0, 0) == true && NULL <= safeBuffer
      requires var k := Min(if maxDictSize < 0 then 64 * KB else maxDictSize, Min(64 * KB, dictSize));
               safeBuffer + k <= mem.Length && (safeBuffer == NULL ==> k == 0)
      modifies this`dictionary, this`dictSize, mem
      ensures result == Min(if maxDictSize < 0 then 64 * KB else maxDictSize, Min(64 * KB, old(dictSize))) == dictSize
      ensures forall i :: 0 <= i < mem.Length && !(safeBuffer <= i < safeBuffer + result) ==> mem[i] == old(mem[i])
      ensures Valid() == true && Intact(mem[..], 0, 0) == true && history == old(history) && dictionary == safeBuffer && dictCtx == old(dictCtx)
      ensures result > 0 ==> mem[safeBuffer..safeBuffer + result] == history[|history| - result..]
    {
      hide EndsIn, Intact, Reusable, Filled, Searched, Done, KeptAt;
      IntactTail(mem[..]);
      var previousDictEnd := dictionary + dictSize;
      result := if maxDictSize < 0 || maxDictSize > 64 * KB then 64 * KB else maxDictSize;
      if result > dictSize { result := dictSize; }
      if result > 0 {
        MoveTail(mem, safeBuffer, previousDictEnd, result, Min(dictSize, 64 * KB), history);
      }
      Relocate(mem[..], safeBuffer, result);
    }
  }

  /** The eight bytes that the hash of a position is made from. */
  function EightAt(mem: seq<byte>, p: int): seq<byte> { if 0 <= p && p + 8 <= |mem| then mem[p..p + 8] else [] }

  method CopyTable(t: array<int>, from: array<int>)
    requires t != from && t.Length == from.Length
    modifies t
    ensures t[..] == from[..]
  {
    forall h | 0 <= h < t.Length { t[h] := from[h]; }
  }

  /** Every third position, from `p` on. */
  function Third(p: int, i: nat): int { p + 3 * i }

  /** The table holds the first `k` of every third position of the dictionary `[p0, dictEnd)`, and nothing else. */
  ghost predicate Filling(hash: seq<byte> -> nat, t: seq<int>, mem: seq<byte>, p0: int, dictEnd: int, k: nat) {
    && |t| == TABLE_SIZE
    && (forall h :: 0 <= h < HASH_SIZE_U32 ==>
          || t[h] == 0
          || (&& 64 * KB - (dictEnd - p0) <= t[h] < 64 * KB - (dictEnd - Third(p0, k)) && t[h] <= 64 * KB - 8
              && hash(EightAt(mem, dictEnd - 64 * KB + t[h])) % HASH_SIZE_U32 == h))
    && forall i :: 0 <= i < k ==> 64 * KB - (dictEnd - Third(p0, i)) <= t[hash(EightAt(mem, Third(p0, i))) % HASH_SIZE_U32]
  }

  lemma FillingStarts(hash: seq<byte> -> nat, t: seq<int>, mem: seq<byte>, p0: int, dictEnd: int)
    requires |t| == TABLE_SIZE && forall h :: 0 <= h < HASH_SIZE_U32 ==> t[h] == 0
    ensures Filling(hash, t, mem, p0, dictEnd, 0) == true
  {
  }

  lemma FillingMore(hash: seq<byte> -> nat, t: seq<int>, mem: seq<byte>, p0: int, dictEnd: int, k: nat)
    requires 0 <= p0 && Filling(hash, t, mem, p0, dictEnd, k) == true && Third(p0, k) <= dictEnd - 8 && dictEnd <= |mem|
    ensures EightAt(mem, Third(p0, k)) == mem[Third(p0, k)..Third(p0, k) + 8]
    ensures |t| == TABLE_SIZE && Filling(hash, t[hash(EightAt(mem, Third(p0, k))) % HASH_SIZE_U32 := Third(p0, k) - (dictEnd - 64 * KB)], mem, p0, dictEnd, k + 1) == true
  {
  }

  /** The last 64 KB of the dictionary `[d, d + size)` are the end of the history, except for what the input `[source, source + n)` has replaced. */
  ghost predicate KeptAt(mem: seq<byte>, d: int, size: int, history: seq<byte>, source: int, n: int)
    requires size <= |history| && d + size <= |mem|
  {
    forall i :: d + size - Min(size, 64 * KB) <= i < d + size && !(source <= i < source + n) ==> 0 <= i && mem[i] == history[|history| - (d + size - i)]
  }

  lemma TrimmedIs(dictionary: int, dictSize: int, source: int, n: int)
    requires 0 <= dictSize && 0 <= n
    ensures 64 * KB == 0x1_0000
    ensures Trimmed(dictionary, dictSize, source, n) ==
      if 1 <= dictSize < 4 then (if dictionary + dictSize == source then (dictionary, dictSize) else (source, 0))
      else if dictionary < source + n < dictionary + dictSize then
        var left := if dictionary + dictSize - (source + n) < 0x1_0000 then dictionary + dictSize - (source + n) else 0x1_0000;
        if left < 4 then (dictionary + dictSize, 0) else (dictionary + dictSize - left, left)
      else (dictionary, dictSize)
  {
  }

  /** The dictionary that a call for the input `[source, source + n)` is left with. */
  function Trimmed(dictionary: int, dictSize: int, source: int, n: int): (int, int) {
    var dictEnd := dictionary + dictSize;
    if 1 <= dictSize < MINMATCH then (if dictEnd == source then (dictionary, dictSize) else (source, 0))
    else if dictionary < source + n < dictEnd then
      var left := Min(dictEnd - (source + n), 64 * KB);
      if left < MINMATCH then (dictEnd, 0) else (dictEnd - left, left)
    else (dictionary, dictSize)
  }

  /** The entries of a loaded dictionary are harmless where the dictionary is in front. */
  lemma TableFitsLoaded(j: Job, t: seq<int>)
    requires j.Valid() && |t| == TABLE_SIZE && j.tableType == ByU32 && j.mode == UsingExtDict && j.startIndex == 64 * KB
    requires forall h :: 0 <= h < HASH_SIZE_U32 ==> t[h] == 0 || (0 < t[h] && 64 * KB - j.dictSize <= t[h] <= 64 * KB - MINMATCH)
    ensures TableOk(j, t, j.startIndex)
  {
  }

  /** The last `k` bytes of `history` end at `end` in memory. */
  ghost predicate EndsIn(mem: seq<byte>, end: int, k: nat, history: seq<byte>) {
    k <= |history| && k <= end <= |mem| && mem[end - k..end] == history[|history| - k..]
  }

  lemma EndsInLess(mem: seq<byte>, end: int, k: nat, history: seq<byte>, n: nat)
    requires EndsIn(mem, end, k, history) && n <= k
    ensures n <= |history| && n <= end <= |mem| && mem[end - n..end] == history[|history| - n..]
  {
    SliceOfSlice(mem, end - k, end, k - n, k);
    assert history[|history| - k..][k - n..] == history[|history| - n..];
  }

  lemma SavedEnds(mem: seq<byte>, start: int, n: nat, history: seq<byte>)
    requires n <= |history| && 0 <= start && start + n <= |mem| && mem[start..start + n] == history[|history| - n..]
    ensures EndsIn(mem, start + n, n, history)
  {
  }

  /** memmove: source and destination may overlap. */
  method MoveBytes(mem: array<byte>, d: int, s: int, n: nat)
    requires 0 <= d && d + n <= mem.Length && 0 <= s && s + n <= mem.Length
    modifies mem
    ensures mem[d..d + n] == old(mem[s..s + n])
    ensures forall i :: 0 <= i < mem.Length && !(d <= i < d + n) ==> mem[i] == old(mem[i])
  {
    forall i | 0 <= i < n { mem[d + i] := mem[s + i]; }
    assert forall i :: d <= i < d + n ==> mem[i] == old(mem[i - d + s]);
  }

  method MoveTail(mem: array<byte>, d: int, end: int, n: nat, ghost k: nat, ghost history: seq<byte>)
    requires EndsIn(mem[..], end, k, history) && n <= k && 0 <= d && d + n <= mem.Length
    modifies mem
    ensures EndsIn(mem[..], d + n, n, history) && mem[d..d + n] == history[|history| - n..]
    ensures forall i :: 0 <= i < mem.Length && !(d <= i < d + n) ==> mem[i] == old(mem[i])
  {
    EndsInLess(mem[..], end, k, history, n);
    MoveBytes(mem, d, end - n, n);
    SavedEnds(mem[..], d, n, history);
  }

  /** What follows in memory, follows in the history. */
  lemma EndsInMore(mem: seq<byte>, end: int, k: nat, history: seq<byte>, n: nat, k': nat)
    requires 0 <= end && end + n <= |mem| && k' <= k + n
    requires k > 0 ==> EndsIn(mem, end, k, history)
    ensures EndsIn(mem, end + n, k', history + mem[end..end + n])
  {
    var h := history + mem[end..end + n];
    if k' <= n {
      assert h[|h| - k'..] == mem[end..end + n][n - k'..];
    } else {
      SplitSlice(mem, end + n - k', end, end + n);
      SliceOfSlice(mem, end - k, end, k + n - k', k);
      assert h[|h| - k'..] == history[|history| - k..][k + n - k'..] + mem[end..end + n];
    }
  }

  /** Of the history, only what both have in common matters if it is all of one, or a full window. */
  lemma RepresentsTail(block: seq<byte>, h: seq<byte>, history: seq<byte>, k: nat, text: seq<byte>)
    requires Represents(block, h, text) && k <= |h| && k <= |history| && h[|h| - k..] == history[|history| - k..]
    requires k == |h| || DISTANCE_MAX <= k
    ensures Represents(block, history, text)
  {
    hide Represents;
    var window := history[|history| - k..];
    assert h == h[..|h| - k] + window && history == history[..|history| - k] + window;
    if k == |h| {
      assert h == window;
    } else {
      RepresentsWindow(block, h[..|h| - k], window, text);
    }
    RepresentsMore(block, history[..|history| - k], window, text);
  }

  /** What a block stands for behind the dictionary, it stands for behind the history that ends in it. */
  lemma BehindHistory(j: Job, block: seq<byte>, history: seq<byte>, text: seq<byte>)
    requires 0 <= j.dictSize <= |history|
    requires text == [] ==> block == [0]
    requires text != [] ==> j.Valid() && Represents(block, j.History(), text)
    requires j.dictSize > 0 ==> EndsIn(j.mem, j.dictionary + j.dictSize, Min(j.dictSize, 64 * KB), history)
    ensures Represents(block, history, text)
  {
    hide Represents;
    if text == [] {
      RepresentsNothing(history);
    } else {
      var n, k := j.dictSize, Min(j.dictSize, 64 * KB);
      if n > 0 {
        SliceOfSlice(j.mem, j.dictionary, j.dictionary + n, n - k, n);
      }
      RepresentsTail(block, j.History(), history, k, text);
    }
  }

  /** An index of 0 stands for the first byte of an input that starts at index 0. */
  lemma ZeroIsOk(j: Job)
    requires j.startIndex == 0
    ensures EntryOk(j, 0)
  {
  }

  /** LZ4_compress_fast. */
  method CompressFast(hash: seq<byte> -> nat, mem: seq<byte>, source: int, srcSize: int, dst: array<byte>, dest: int, dstCapacity: int, acceleration: int)
    returns (result: nat)
    requires 0 <= source && 0 <= srcSize && source + srcSize <= |mem|
    requires 0 <= dest && 0 <= dstCapacity && dest + dstCapacity <= dst.Length
    modifies dst
    ensures forall i :: 0 <= i < dst.Length && !(dest <= i < dest + dstCapacity) ==> dst[i] == old(dst[i])
    ensures result == 0 ==> srcSize > MAX_INPUT_SIZE || dstCapacity < CompressBound(srcSize)
    ensures result > 0 ==> srcSize <= MAX_INPUT_SIZE
    ensures result > 0 ==> result <= dstCapacity && Represents(dst[dest..dest + result], [], mem[source..source + srcSize])
    ensures 1 <= srcSize <= MAX_INPUT_SIZE ==> Searched(mem, source, srcSize, hash, Clamp(acceleration), dstCapacity, dst[dest..dest + result]) == true
  {
    hide Represents, Searched;
    var ctx := new Stream(hash);
    result := ctx.CompressFastExtState(mem, source, srcSize, dst, dest, dstCapacity, acceleration);
  }

  /**
   LZ4_compress_destSize: the block keeps to the target, and stands for the first `consumed` bytes of
   the input. If these are not all, the target is filled except for one byte at most.
   */
  method CompressDestSize(hash: seq<byte> -> nat, mem: seq<byte>, source: int, srcSize: int, dst: array<byte>, dest: int, targetDstSize: int)
    returns (result: nat, consumed: int)
    requires 0 <= source && 0 <= srcSize && source + srcSize <= |mem|
    requires 0 <= dest && 0 <= targetDstSize && dest + targetDstSize <= dst.Length
    modifies dst
    ensures forall i :: 0 <= i < dst.Length && !(dest <= i < dest + targetDstSize) ==> dst[i] == old(dst[i])
    ensures result == 0 ==> srcSize > MAX_INPUT_SIZE || targetDstSize < 1
    ensures result > 0 ==> srcSize <= MAX_INPUT_SIZE
    ensures result > 0 ==> result <= targetDstSize && 0 <= consumed <= srcSize
    ensures result > 0 && targetDstSize >= BoundOf(srcSize) ==> consumed == srcSize
    ensures result > 0 && 0 < srcSize && targetDstSize < BoundOf(srcSize) ==> FilledUp(mem[source..source + srcSize], targetDstSize, dst[dest..dest + result], consumed) == true
    ensures result > 0 && consumed < srcSize ==> targetDstSize - 1 <= result
    ensures result > 0 ==> Represents(dst[dest..dest + result], [], mem[source..source + consumed])
  {
    hide Represents, FilledUp;
    var ctx := new Stream(hash);
    result, consumed := ctx.CompressDestSizeExtState(mem, source, srcSize, dst, dest, targetDstSize);
  }
}
