/**
 LZ4_streamHC_t: compression at the high-compression levels, at once and in dependent blocks. Here the
 check for overlap drops all of the dictionary that an input touches, so that blocks are right wherever
 the caller puts them.
 */
module HcStream {
  import opened Bytes
  import opened BlockFormat
  import opened BlockEncoding
  import opened SequenceWriter
  import opened HcChains
  import opened HcSearch
  import opened HcMatchFinder
  import opened HcParser
  import opened HcOptimal
  import MatchFinder
  import BlockCompressor
  import BlockStream
  import EqualBytes

  const CLEVEL_DEFAULT := 9
  const CLEVEL_OPT_MIN := 10
  const CLEVEL_MAX := 12

  /** The level that is meant. */
  function Level(level: int): (r: int)
    ensures 1 <= r <= CLEVEL_MAX
  {
    if level < 1 then CLEVEL_DEFAULT else Min(level, CLEVEL_MAX)
  }

  /** clTable: the attempts of a level, and the length of a match that is good enough. */
  function Parameters(level: int): (r: (int, int)) {
    match level
    case 3 => (4, 16)
    case 4 => (8, 16)
    case 5 => (16, 16)
    case 6 => (32, 16)
    case 7 => (64, 16)
    case 8 => (128, 16)
    case 9 => (256, 16)
    case 10 => (96, 64)
    case 11 => (512, 128)
    case 12 => (16384, OPT_NUM)
    case _ => (2, 16)
  }

  /**
   The answer is that of the parser of the level. A thorough one has missed no match that this parser had to see; the
   highest levels pass over near matches, if decoding is to be fast.
   */
  ghost predicate Answers(v: Space, start: int, room: int, answer: seq<byte>, level: int, favor: bool, thorough: bool) {
    if level < CLEVEL_OPT_MIN then Lazily(v, start, room, answer, thorough) else Optimally(v, start, room, answer, thorough && !favor)
  }

  /** An input of `n` equal bytes becomes a single match; at the highest levels, if that is long enough to be used at once. */
  predicate OneMatch(level: int, favor: bool, n: int) {
    MatchFinder.MIN_LENGTH <= n && (level < CLEVEL_OPT_MIN || (!favor && Min(Parameters(level).1, OPT_NUM - 1) + LASTLITERALS + 1 < n))
  }

  lemma OptimallyToo(v: Space, start: int, room: int, answer: seq<byte>, eager: bool, less: bool)
    requires Optimally(v, start, room, answer, eager) == true && (less ==> eager)
    ensures Optimally(v, start, room, answer, less) == true
  {
    hide FromLazy, AllSoon, Calm, Covers;
    var qs: seq<Emitted>, anchor: int :| FromWays(v, start, room, answer, eager, qs, anchor);
    assert FromWays(v, start, room, answer, less, qs, anchor);
  }

  lemma AnswersToo(v: Space, start: int, room: int, answer: seq<byte>, level: int, favor: bool, thorough: bool, less: bool)
    requires Answers(v, start, room, answer, level, favor, thorough) == true && (less ==> thorough)
    ensures Answers(v, start, room, answer, level, favor, less) == true
  {
    hide Lazily, Optimally;
    if level < CLEVEL_OPT_MIN {
      LazilyToo(v, start, room, answer, thorough, less);
    } else {
      OptimallyToo(v, start, room, answer, thorough && !favor, less && !favor);
    }
  }

  lemma AnswersOptimally(v: Space, start: int, room: int, answer: seq<byte>, level: int, favor: bool, eager: bool, thorough: bool)
    requires Optimally(v, start, room, answer, eager) == true && CLEVEL_OPT_MIN <= level && (thorough && !favor ==> eager)
    ensures Answers(v, start, room, answer, level, favor, thorough) == true
  {
    OptimallyToo(v, start, room, answer, eager, thorough && !favor);
    hide Lazily, Optimally;
  }

  lemma AnswersLazily(v: Space, start: int, room: int, answer: seq<byte>, level: int, favor: bool, attentive: bool, thorough: bool)
    requires Lazily(v, start, room, answer, attentive) == true && level < CLEVEL_OPT_MIN && (thorough ==> attentive)
    ensures Answers(v, start, room, answer, level, favor, thorough) == true
  {
    LazilyToo(v, start, room, answer, attentive, thorough);
    hide Lazily, Optimally;
  }

  lemma OneMatchIsLong(v: Space, start: int, level: int, favor: bool)
    requires Uniform(v, start) == true && OneMatch(level, favor, v.end - start) && CLEVEL_OPT_MIN <= level <= CLEVEL_MAX
    ensures LongRun(v, start, Parameters(level).0, Min(Parameters(level).1, OPT_NUM - 1), favor) == true
  {
    hide Uniform;
  }

  // ----- What the indices stand for -----

  /** Where the byte with this index is. */
  function AddressOf(v: Space, i: int): int { if i < v.dictLimit then v.dictBase + i else v.base + i }

  /**
   The bytes in front of the index `end`, as far as matches reach, are the end of the history; except for
   what is in `[source, source + n)`.
   */
  ghost predicate Remembers(v: Space, end: int, history: seq<byte>, source: int, n: int) {
    && v.Valid() && v.lowLimit <= end <= v.end && end - v.lowLimit <= |history|
    && forall i :: Max(v.lowLimit, end - 64 * KB) <= i < end && !(source <= AddressOf(v, i) < source + n) ==> v.At(i) == history[|history| - (end - i)]
  }

  /** A block behind what the indices stand for is one behind the history. */
  lemma BehindHistory(v: Space, start: int, history: seq<byte>, block: seq<byte>, text: seq<byte>)
    requires Remembers(v, start, history, 0, 0) == true && v.Valid() && v.lowLimit <= start <= v.end
    requires BlockCompressor.Represents(block, Front(v, start), text) == true
    ensures BlockCompressor.Represents(block, history, text) == true
  {
    var h := Front(v, start);
    var k := Min(|h|, 64 * KB);
    var a, b := h[|h| - k..], history[|history| - k..];
    forall j | 0 <= j < k ensures a[j] == b[j] { TextAt(v, start - k + j); }
    assert a == b;
    hide BlockCompressor.Represents;
    BlockStream.RepresentsTail(block, h, history, k, text);
  }

  /** The input itself comes to the history. */
  lemma RemembersMore(v: Space, start: int, history: seq<byte>)
    requires Remembers(v, start, history, 0, 0) == true && v.Valid() && v.dictLimit <= start && 0 <= v.base + start && v.base + v.end <= |v.mem|
    ensures Remembers(v, v.end, history + v.mem[v.base + start..v.base + v.end], 0, 0) == true
  {
  }

  /** Only the end of the prefix, seen from other indices. */
  lemma RemembersPrefix(v: Space, w: Space, history: seq<byte>, source: int, n: int)
    requires Remembers(v, v.end, history, source, n) == true && w.Valid() && w.mem == v.mem
    requires w.lowLimit <= w.end && w.end - w.lowLimit <= v.end - v.dictLimit
    requires forall i :: w.lowLimit <= i < w.end ==> AddressOf(w, i) == v.base + i + (v.end - w.end)
    ensures Remembers(w, w.end, history, source, n) == true
  {
    forall i | Max(w.lowLimit, w.end - 64 * KB) <= i < w.end && !(source <= AddressOf(w, i) < source + n)
      ensures w.At(i) == history[|history| - (w.end - i)]
    {
      var k := i + (v.end - w.end);
      assert AddressOf(v, k) == AddressOf(w, i) && v.At(k) == w.At(i);
    }
  }

  /** The dictionary behind the end of an input that overlaps it. */
  function LowAfter(v: Space, source: int, n: int): (low: int) {
    var sourceEnd, dictBegin, dictEnd := source + n, v.dictBase + v.lowLimit, v.dictBase + v.dictLimit;
    if sourceEnd > dictBegin && source < dictEnd then
      var low := Min(sourceEnd, dictEnd) - v.dictBase;
      if v.dictLimit - low < 4 then v.dictLimit else low
    else
      v.lowLimit
  }

  lemma LowInside(v: Space, history: seq<byte>, source: int, n: nat)
    requires Remembers(v, v.end, history, source, n) == true && source == v.base + v.end
    ensures v.lowLimit <= LowAfter(v, source, n) <= v.dictLimit
    ensures Remembers(v.(lowLimit := LowAfter(v, source, n)), v.end, history, 0, 0) == true
  {
    var w := v.(lowLimit := LowAfter(v, source, n));
    forall i | Max(w.lowLimit, w.end - 64 * KB) <= i < w.end ensures w.At(i) == history[|history| - (w.end - i)] {
      assert w.At(i) == v.At(i) && !(source <= AddressOf(v, i) < source + n);
    }
  }

  class StreamHC {
    const ctx: HcContext
    /** The fields of `ctx` lead into the caller's memory. */
    var started: bool
    var compressionLevel: int
    var favorDecSpeed: bool
    var dirty: bool
    /** The text in front of the next block, as a decoder knows it. */
    ghost var history: seq<byte>

    ghost predicate Sound()
      reads this, ctx, ctx.hashTable, ctx.chainTable
    {
      && ctx.Reusable()
      && if started then ctx.Valid() && 0 <= ctx.base + ctx.end else history == []
    }

    /** What is in memory, except for `[source, source + n)`, is what the stream may refer to. */
    ghost predicate Intact(mem: seq<byte>, source: int, n: int)
      reads this, ctx
    {
      started ==> Remembers(ctx.View(mem), ctx.end, history, source, n)
    }

    /** LZ4_createStreamHC, and LZ4_setCompressionLevel. */
    constructor (hash: seq<byte> -> nat, level: int)
      ensures Sound() == true && !started && history == [] && fresh(ctx) && fresh(ctx.hashTable) && fresh(ctx.chainTable)
      ensures forall mem: seq<byte> :: Intact(mem, 0, 0)
    {
      ctx := new HcContext.Blank(hash);
      started, compressionLevel, favorDecSpeed, dirty, history := false, Level(level), false, false, [];
    }

    /** LZ4_setCompressionLevel. */
    method SetCompressionLevel(level: int)
      modifies this`compressionLevel
      ensures compressionLevel == Level(level)
    {
      compressionLevel := Level(level);
    }

    /** LZ4_favorDecompressionSpeed. */
    method FavorDecompressionSpeed(favor: bool)
      modifies this`favorDecSpeed
      ensures favorDecSpeed == favor
    {
      favorDecSpeed := favor;
    }

    lemma SoundParts(mem: seq<byte>, source: int, n: nat)
      requires Sound() == true && Intact(mem, source, n) == true
      ensures ctx.Reusable() == true && (!started ==> history == [])
      ensures started ==> ctx.Valid() == true && Remembers(ctx.View(mem), ctx.end, history, source, n) == true
    {
      hide HcContext.Valid, HcContext.Reusable;
    }

    /** LZ4_resetStreamHC_fast. */
    method ResetStreamFast(level: int)
      requires Sound() == true
      modifies this, ctx, ctx.hashTable, ctx.chainTable
      ensures Sound() == true && !started && history == [] && compressionLevel == Level(level) && favorDecSpeed == old(favorDecSpeed)
      ensures forall mem: seq<byte> :: Intact(mem, 0, 0)
    {
      if dirty { ctx.Wipe(); }
      started, compressionLevel, dirty, history := false, Level(level), false, [];
    }

    /** What LZ4_loadDictHC does to the tables and indices. */
    method Reload(mem: seq<byte>, dictionary: int, dictSize: nat)
      requires ctx.Reusable() == true && 0 <= dictionary && dictionary + dictSize <= |mem| && dictSize <= 64 * KB
      modifies ctx, ctx.hashTable, ctx.chainTable
      ensures ctx.Valid() == true && ctx.View(mem) == Space(mem, dictionary - 64 * KB, dictionary - 64 * KB, 64 * KB, 64 * KB, 64 * KB + dictSize)
    {
      hide *;
      TableParts();
      ctx.Wipe();
      ctx.InitInternal(dictionary);
      ReloadRoom(mem, dictionary, dictSize);
      ctx.Extend(mem, mem, dictSize);
      ReloadView(mem, dictionary, dictSize);
      if dictSize >= 4 {
        ctx.Insert(mem, ctx.end - 3);
      }
    }

    lemma TableParts()
      requires ctx.Reusable() == true
      ensures ctx.hashTable != ctx.chainTable && ctx.hashTable.Length == HASH_SIZE && ctx.chainTable.Length == CHAIN_SIZE && GB > 0
    {
    }

    lemma ReloadRoom(mem: seq<byte>, dictionary: int, dictSize: nat)
      requires ctx.Valid() == true && ctx.lowLimit == ctx.dictLimit == ctx.nextToUpdate == ctx.end && ctx.base + ctx.end == dictionary && ctx.dictBase == ctx.base
      requires 64 * KB <= ctx.end == (if 0 > GB then 0 else 0) + 64 * KB
      requires 0 <= dictionary && dictionary + dictSize <= |mem| && dictSize <= 64 * KB
      ensures ctx.View(mem).Valid() == true && SameBytes(ctx.View(mem), ctx.View(mem)) == true && ctx.end == 64 * KB
      ensures ctx.end + dictSize < INDEX_LIMIT && ctx.base + ctx.end + dictSize <= |mem|
    {
    }

    lemma ReloadView(mem: seq<byte>, dictionary: int, dictSize: nat)
      requires ctx.lowLimit == ctx.dictLimit == ctx.nextToUpdate == 64 * KB && ctx.end == 64 * KB + dictSize && ctx.base == ctx.dictBase == dictionary - 64 * KB
      requires ctx.View(mem).Valid() == true
      ensures ctx.View(mem) == Space(mem, dictionary - 64 * KB, dictionary - 64 * KB, 64 * KB, 64 * KB, 64 * KB + dictSize)
      ensures dictSize >= 4 ==> ctx.nextToUpdate <= ctx.end - 3 <= Max(ctx.dictLimit, ctx.end - 3)
    {
    }

    /** LZ4_loadDictHC: the last 64 KB. */
    method LoadDict(mem: seq<byte>, dictionary0: int, dictSize: nat) returns (result: nat)
      requires Sound() == true && 0 <= dictionary0 && dictionary0 + dictSize <= |mem|
      modifies this, ctx, ctx.hashTable, ctx.chainTable
      ensures Sound() == true && Intact(mem, 0, 0) == true && started && compressionLevel == old(compressionLevel)
      ensures result == Min(dictSize, 64 * KB) && history == mem[dictionary0 + dictSize - result..dictionary0 + dictSize]
      ensures ctx.base + ctx.end == dictionary0 + dictSize
    {
      hide *;
      LoadParts(dictSize);
      var dictionary := dictionary0;
      result := dictSize;
      if result > 64 * KB {
        dictionary, result := dictionary + (dictSize - 64 * KB), 64 * KB;
      }
      Reload(mem, dictionary, result);
      started, dirty, history := true, false, mem[dictionary..dictionary + result];
      LoadedSound(mem, dictionary, result);
    }

    lemma LoadParts(dictSize: nat)
      requires Sound() == true
      ensures ctx.Reusable() == true && 0 < 64 * KB && Min(dictSize, 64 * KB) == (if dictSize > 64 * KB then 64 * KB else dictSize)
    {
      hide HcContext.Valid, HcContext.Reusable;
    }

    lemma LoadedSound(mem: seq<byte>, dictionary: int, dictSize: nat)
      requires ctx.Valid() == true && started
      requires ctx.View(mem) == Space(mem, dictionary - 64 * KB, dictionary - 64 * KB, 64 * KB, 64 * KB, 64 * KB + dictSize)
      requires 0 <= dictionary && dictionary + dictSize <= |mem| && history == mem[dictionary..dictionary + dictSize]
      ensures Sound() == true && Intact(mem, 0, 0) == true && ctx.base + ctx.end == dictionary + dictSize
    {
      ctx.ValidIsReusable();
      hide HcContext.Valid, HcContext.Reusable;
    }

    /** The first lines of LZ4_compressHC_continue_generic: the indices come to the input, and the dictionary is what it leaves of it. */
    method Place(mem: seq<byte>, source: int, n: nat)
      requires Sound() == true && Intact(mem, source, n) == true && 0 <= source && source + n <= |mem|
      modifies this`started, ctx, ctx.hashTable, ctx.chainTable
      ensures started && ctx.Valid() == true && ctx.base + ctx.end == source && ctx.end <= 2 * GB
      ensures Remembers(ctx.View(mem), ctx.end, history, 0, 0) == true
    {
      hide *;
      SoundParts(mem, source, n);
      Sizes();
      if !started {
        ctx.InitInternal(source);
        started := true;
        StartRemembers(mem, source, source, n);
      }
      ContextParts(ctx, mem);
      if ctx.end > 2 * GB {
        ghost var v := ctx.View(mem);
        var dictSize := ctx.end - ctx.dictLimit;
        if dictSize > 64 * KB { dictSize := 64 * KB; }
        ViewParts(mem, source, n);
        ctx.ValidIsReusable();
        Reload(mem, ctx.base + ctx.end - dictSize, dictSize);
        ContextParts(ctx, mem);
        ReloadRemembers(v, ctx.View(mem), dictSize, history, source, n);
      }
      ghost var w := ctx.View(mem);
      if source != ctx.base + ctx.end {
        ViewParts(mem, source, n);
        ctx.SetExternalDict(mem, source);
        ContextParts(ctx, mem);
        ExternalRemembers(w, ctx.View(mem), history, source, n);
      }
      Trim(mem, source, n);
    }

    lemma Sizes()
      ensures 64 * KB <= 2 * GB && 0 < KB && 0 < GB && GB + 64 * KB <= 2 * GB
    {
    }

    lemma StartRemembers(mem: seq<byte>, source: int, from: int, n: nat)
      requires ctx.Valid() == true && history == [] && ctx.lowLimit == ctx.dictLimit == ctx.nextToUpdate == ctx.end && ctx.base + ctx.end == source
      requires 0 <= source <= |mem|
      ensures Remembers(ctx.View(mem), ctx.end, history, from, n) == true
    {
    }

    lemma ViewParts(mem: seq<byte>, source: int, n: nat)
      requires ctx.Valid() == true && Remembers(ctx.View(mem), ctx.end, history, source, n) == true
      ensures ctx.View(mem).Valid() == true && 0 <= ctx.base + ctx.dictLimit && ctx.base + ctx.end <= |mem| && ctx.dictLimit <= ctx.end
    {
      hide HcContext.Valid;
      ContextParts(ctx, mem);
    }

    /** The check for overlapping space. */
    method Trim(mem: seq<byte>, source: int, n: nat)
      requires ctx.Valid() == true && ctx.base + ctx.end == source && Remembers(ctx.View(mem), ctx.end, history, source, n) == true
      modifies ctx`lowLimit
      ensures ctx.Valid() == true && Remembers(ctx.View(mem), ctx.end, history, 0, 0) == true
    {
      hide *;
      ContextParts(ctx, mem);
      LowInside(ctx.View(mem), history, source, n);
      LowMeans(ctx.View(mem), source, n);
      var sourceEnd, dictBegin, dictEnd := source + n, ctx.dictBase + ctx.lowLimit, ctx.dictBase + ctx.dictLimit;
      var low := ctx.lowLimit;
      if sourceEnd > dictBegin && source < dictEnd {
        if sourceEnd > dictEnd { sourceEnd := dictEnd; }
        low := sourceEnd - ctx.dictBase;
        if ctx.dictLimit - low < 4 { low := ctx.dictLimit; }
      }
      ctx.RaiseLow(low);
      ContextParts(ctx, mem);
    }

    /** LZ4HC_compress_generic, without a dictionary context: the input is at the end of the prefix. */
    method CompressGeneric(mem: seq<byte>, source: int, n: nat, dst: array<byte>, dest: int, dstCapacity: int, limited: bool) returns (result: nat)
      requires started && ctx.Valid() == true && ctx.base + ctx.end == source && ctx.end <= 2 * GB
      requires Remembers(ctx.View(mem), ctx.end, history, 0, 0) == true && 0 <= source && source + n <= |mem|
      requires 0 <= dest && 0 <= dstCapacity && dest + dstCapacity <= dst.Length
      requires !limited ==> BlockStream.BoundOf(n) <= dstCapacity
      modifies this`dirty, this`history, ctx, ctx.hashTable, ctx.chainTable, dst
      ensures forall i :: 0 <= i < dst.Length && !(dest <= i < dest + dstCapacity) ==> dst[i] == old(dst[i])
      ensures result == 0 ==> n > MatchFinder.MAX_INPUT_SIZE || dstCapacity < CompressBound(n)
      ensures result > 0 ==> n <= MatchFinder.MAX_INPUT_SIZE && result <= dstCapacity && BlockCompressor.Represents(dst[dest..dest + result], old(history), mem[source..source + n]) == true
      ensures Sound() == true && Intact(mem, 0, 0) == true
      ensures if n <= MatchFinder.MAX_INPUT_SIZE then
          history == old(history) + mem[source..source + n] && ctx.base + ctx.end == source + n
        else
          history == old(history) && ctx.base + ctx.end == source
      ensures ctx.lowLimit == old(ctx.lowLimit) && ctx.dictLimit == old(ctx.dictLimit) && ctx.base == old(ctx.base) && compressionLevel == old(compressionLevel)
      ensures favorDecSpeed == old(favorDecSpeed)
      ensures n <= MatchFinder.MAX_INPUT_SIZE && old(ctx.UpToDate(mem)) ==> var level, v := Level(compressionLevel), ctx.View(mem);
        && Answers(v, ctx.end - n, dstCapacity, dst[dest..dest + result], level, favorDecSpeed,
                   AllEnough(v, ctx.end - n, Parameters(level).0) && (level < CLEVEL_OPT_MIN || v.lowLimit == v.dictLimit)) == true
        && (Uniform(v, ctx.end - n) == true && OneMatch(level, favorDecSpeed, n) ==>
              result <= EqualBytes.EqualBound(n) && (EqualBytes.EqualBound(n) <= dstCapacity ==> 0 < result))
    {
      hide *;
      GenericParts(mem, source, n, dst.Length, dest, dstCapacity, limited);
      if n > MatchFinder.MAX_INPUT_SIZE {
        GenericSound(mem, source);
        return 0;
      }
      ContextParts(ctx, mem);
      ghost var start, v := ctx.end, ctx.View(mem);
      ctx.Extend(mem, mem, n);
      ContextParts(ctx, mem);
      assert v == ctx.View(mem).(end := start);
      var w := Room(if limited then LimitedOutput else NotLimited, dest, dest + dstCapacity, n);
      ExtendedRemembers(mem, start, source, n);
      var level := Level(compressionLevel);
      var (nbSearches, targetLength) := Parameters(level);
      LevelSearches(compressionLevel);
      result := CompressAt(mem, ctx.end - n, w, dst, nbSearches, targetLength, level);
      ContextParts(ctx, mem);
      if result > 0 {
        BehindHistory(ctx.View(mem), start, history, dst[dest..dest + result], mem[source..source + n]);
      } else {
        dirty := true;
      }
      RemembersMore(ctx.View(mem), start, history);
      history := history + mem[source..source + n];
      GenericSound(mem, source + n);
    }

    /** The parser of the level. */
    method CompressAt(mem: seq<byte>, start: int, w: Room, dst: array<byte>, nbSearches: int, targetLength: int, level: int) returns (result: nat)
      requires ctx.Valid() == true && ctx.View(mem).Valid() == true && ctx.dictLimit <= start <= ctx.end && ctx.nextToUpdate <= start
      requires w.n == ctx.end - start && w.Fits(dst.Length) && w.mode != FillOutput && level <= CLEVEL_MAX && (nbSearches, targetLength) == Parameters(level) && 2 <= nbSearches
      modifies ctx`nextToUpdate, ctx.hashTable, ctx.chainTable, dst
      ensures ctx.Valid() == true && forall i :: 0 <= i < dst.Length && !(w.dest <= i < w.oend) ==> dst[i] == old(dst[i])
      ensures result == 0 ==> w.mode == LimitedOutput && w.oend - w.dest < CompressBound(w.n)
      ensures 0 <= w.dest <= w.dest + result <= dst.Length && (result > 0 ==> w.dest + result <= w.oend)
      ensures result > 0 ==> var v := ctx.View(mem);
        && v.Valid() && v.lowLimit <= start <= v.end && 0 <= v.base + start && v.base + v.end <= |mem|
        && BlockCompressor.Represents(dst[w.dest..w.dest + result], Front(v, start), mem[v.base + start..v.base + v.end]) == true
      ensures old(ctx.UpToDate(mem)) ==> var v := ctx.View(mem);
        && Answers(v, start, w.oend - w.dest, dst[w.dest..w.dest + result], level, favorDecSpeed,
                   AllEnough(v, start, Parameters(level).0) && (level < CLEVEL_OPT_MIN || v.lowLimit == v.dictLimit)) == true
        && (Uniform(v, start) == true && OneMatch(level, favorDecSpeed, w.n) ==>
              result <= EqualBytes.EqualBound(w.n) && (EqualBytes.EqualBound(w.n) <= w.oend - w.dest ==> 0 < result))
    {
      hide *;
      ContextParts(ctx, mem);
      ghost var v, room, upToDate := ctx.View(mem), w.oend - w.dest, ctx.UpToDate(mem);
      if level < CLEVEL_OPT_MIN {
        ghost var attentive;
        result, attentive := CompressHashChain(ctx, mem, start, w, dst, nbSearches);
        AnswersLazily(v, start, room, dst[w.dest..w.dest + result], level, favorDecSpeed, attentive, attentive);
        if upToDate { AnswersToo(v, start, room, dst[w.dest..w.dest + result], level, favorDecSpeed, attentive, AllEnough(v, start, nbSearches)); }
      } else {
        ghost var eager;
        if Uniform(v, start) && OneMatch(level, favorDecSpeed, w.n) { OneMatchIsLong(v, start, level, favorDecSpeed); }
        result, eager := CompressOptimal(ctx, mem, start, w, dst, nbSearches, targetLength, level == CLEVEL_MAX, favorDecSpeed);
        if upToDate {
          AnswersOptimally(v, start, room, dst[w.dest..w.dest + result], level, favorDecSpeed, eager, AllEnough(v, start, nbSearches) && v.lowLimit == v.dictLimit);
        }
      }
    }

    static lemma LevelSearches(level: int)
      ensures 2 <= Parameters(Level(level)).0 && Level(level) <= CLEVEL_MAX
    {
    }

    lemma GenericParts(mem: seq<byte>, source: int, n: nat, length: int, dest: int, dstCapacity: int, limited: bool)
      requires started && ctx.Valid() == true && ctx.base + ctx.end == source && ctx.end <= 2 * GB
      requires Remembers(ctx.View(mem), ctx.end, history, 0, 0) == true && 0 <= source && source + n <= |mem|
      requires 0 <= dest && 0 <= dstCapacity && dest + dstCapacity <= length && (!limited ==> BlockStream.BoundOf(n) <= dstCapacity)
      ensures ctx.View(mem).Valid() == true && SameBytes(ctx.View(mem), ctx.View(mem)) == true && ctx.base + ctx.end + n <= |mem|
      ensures n <= MatchFinder.MAX_INPUT_SIZE ==> ctx.end + n < INDEX_LIMIT
      ensures n <= MatchFinder.MAX_INPUT_SIZE ==> Room(if limited then LimitedOutput else NotLimited, dest, dest + dstCapacity, n).Fits(length) == true
      ensures ctx.dictLimit <= ctx.end && ctx.nextToUpdate <= ctx.end
    {
    }

    lemma ExtendedRemembers(mem: seq<byte>, start: int, source: int, n: nat)
      requires ctx.Valid() == true && ctx.end == start + n && ctx.dictLimit <= start && ctx.base + start == source && 0 <= source && source + n <= |mem|
      requires Remembers(ctx.View(mem).(end := start), start, history, 0, 0) == true
      ensures ctx.View(mem).Valid() == true && Remembers(ctx.View(mem), start, history, 0, 0) == true && ctx.View(mem).lowLimit <= start <= ctx.View(mem).end
    {
      var w := ctx.View(mem);
      var v := w.(end := start);
      hide HcContext.Valid;
      ContextParts(ctx, mem);
      forall i | Max(w.lowLimit, start - 64 * KB) <= i < start ensures w.At(i) == history[|history| - (start - i)] {
        assert v.At(i) == w.At(i);
      }
    }

    lemma GenericSound(mem: seq<byte>, end: int)
      requires started && ctx.Valid() == true && ctx.base + ctx.end == end && 0 <= end
      requires Remembers(ctx.View(mem), ctx.end, history, 0, 0) == true
      ensures Sound() == true && Intact(mem, 0, 0) == true
    {
      ctx.ValidIsReusable();
      hide HcContext.Valid, HcContext.Reusable, Remembers;
    }

    /**
     LZ4_compress_HC_continue. The block stands for the input behind the history, wherever the input is, as long as it is the only
     thing that has replaced bytes that matches reach.
     */
    method CompressContinue(mem: seq<byte>, source: int, n: nat, dst: array<byte>, dest: int, dstCapacity: int) returns (result: nat)
      requires Sound() == true && 0 <= source && source + n <= |mem| && Intact(mem, source, n) == true
      requires 0 <= dest && 0 <= dstCapacity && dest + dstCapacity <= dst.Length
      modifies this, ctx, ctx.hashTable, ctx.chainTable, dst
      ensures forall i :: 0 <= i < dst.Length && !(dest <= i < dest + dstCapacity) ==> dst[i] == old(dst[i])
      ensures result == 0 ==> n > MatchFinder.MAX_INPUT_SIZE || dstCapacity < CompressBound(n)
      ensures result > 0 ==> n <= MatchFinder.MAX_INPUT_SIZE && result <= dstCapacity && BlockCompressor.Represents(dst[dest..dest + result], old(history), mem[source..source + n]) == true
      ensures Sound() == true && started && Intact(mem, 0, 0) == true
      ensures if n <= MatchFinder.MAX_INPUT_SIZE then
          history == old(history) + mem[source..source + n] && ctx.base + ctx.end == source + n
        else
          history == old(history) && ctx.base + ctx.end == source
    {
      hide *;
      SoundParts(mem, source, n);
      Place(mem, source, n);
      result := CompressGeneric(mem, source, n, dst, dest, dstCapacity, dstCapacity < BlockStream.BoundOf(n));
    }

    /** LZ4_compress_HC_extStateHC_fastReset: on the state as earlier calls have left it. */
    method CompressExtStateFastReset(mem: seq<byte>, source: int, n: nat, dst: array<byte>, dest: int, dstCapacity: int, level: int) returns (result: nat)
      requires Sound() == true && 0 <= source && source + n <= |mem|
      requires 0 <= dest && 0 <= dstCapacity && dest + dstCapacity <= dst.Length
      modifies this, ctx, ctx.hashTable, ctx.chainTable, dst
      ensures forall i :: 0 <= i < dst.Length && !(dest <= i < dest + dstCapacity) ==> dst[i] == old(dst[i])
      ensures result == 0 ==> n > MatchFinder.MAX_INPUT_SIZE || dstCapacity < CompressBound(n)
      ensures result > 0 ==> n <= MatchFinder.MAX_INPUT_SIZE && result <= dstCapacity && BlockCompressor.Represents(dst[dest..dest + result], [], mem[source..source + n]) == true
      ensures Sound() == true && ctx.View(mem).lowLimit == ctx.View(mem).dictLimit && ctx.base + ctx.dictLimit == source
      ensures n <= MatchFinder.MAX_INPUT_SIZE ==>
        Answers(ctx.View(mem), ctx.end - n, dstCapacity, dst[dest..dest + result], Level(level), favorDecSpeed, n <= Parameters(Level(level)).0) == true
      ensures favorDecSpeed == old(favorDecSpeed)
      ensures n <= MatchFinder.MAX_INPUT_SIZE && OneMatch(Level(level), favorDecSpeed, n) && EqualBytes.AllEqual(mem[source..source + n]) ==>
        result <= EqualBytes.EqualBound(n) && (EqualBytes.EqualBound(n) <= dstCapacity ==> 0 < result)
    {
      hide *;
      ResetStreamFast(level);
      SoundParts([], 0, 0);
      Sizes();
      ctx.InitInternal(source);
      started := true;
      StartRemembers(mem, source, 0, 0);
      assert ctx.UpToDate(mem);
      result := CompressGeneric(mem, source, n, dst, dest, dstCapacity, dstCapacity < BlockStream.BoundOf(n));
      StillValid();
      ContextParts(ctx, mem);
      LevelTwice(level);
      if n <= MatchFinder.MAX_INPUT_SIZE {
        OnlyInput(ctx.View(mem), mem, source, n, Parameters(Level(level)).0);
        AnswersToo(ctx.View(mem), ctx.end - n, dstCapacity, dst[dest..dest + result], Level(level), favorDecSpeed,
                   AllEnough(ctx.View(mem), ctx.end - n, Parameters(Level(level)).0), n <= Parameters(Level(level)).0);
        OneMatchSize(Level(level), favorDecSpeed, n);
      }
    }

    static lemma OneMatchSize(level: int, favor: bool, n: int)
      ensures OneMatch(level, favor, n) ==> MatchFinder.MIN_LENGTH <= n
    {
    }

    static lemma LevelTwice(level: int)
      ensures Level(Level(level)) == Level(level)
    {
    }

    lemma StillValid()
      requires Sound() == true && started
      ensures ctx.Valid() == true
    {
    }

    /** The space holds the input and nothing else. */
    static lemma OnlyInput(v: Space, mem: seq<byte>, source: int, n: nat, nbSearches: int)
      requires v.mem == mem && v.lowLimit == v.dictLimit == v.end - n && 0 <= source && v.base + v.dictLimit == source && source + n <= |mem|
      ensures n <= nbSearches ==> AllEnough(v, v.end - n, nbSearches)
      ensures MatchFinder.MIN_LENGTH <= n && EqualBytes.AllEqual(mem[source..source + n]) ==> Uniform(v, v.end - n) == true
    {
      if MatchFinder.MIN_LENGTH <= n && EqualBytes.AllEqual(mem[source..source + n]) {
        var s := mem[source..source + n];
        forall i | v.lowLimit <= i < v.end ensures v.At(i) == v.At(v.lowLimit) {
          assert v.At(i) == s[i - v.lowLimit] && v.At(v.lowLimit) == s[0];
        }
      }
    }

    /** LZ4_saveDictHC: the end of the prefix is moved to a place of the caller's choice. */
    method SaveDict(mem: array<byte>, safeBuffer: int, dictSize: int) returns (result: nat)
      requires Sound() == true && started && Intact(mem[..], 0, 0) == true && 0 <= safeBuffer
      requires safeBuffer + Saved(dictSize) <= mem.Length
      modifies ctx`base, ctx`end, ctx`dictLimit, ctx`lowLimit, ctx`nextToUpdate, mem
      ensures result == old(Saved(dictSize)) && forall i :: 0 <= i < mem.Length && !(safeBuffer <= i < safeBuffer + result) ==> mem[i] == old(mem[i])
      ensures Sound() == true && Intact(mem[..], 0, 0) == true && ctx.base + ctx.end == safeBuffer + result
      ensures result <= |history| && mem[safeBuffer..safeBuffer + result] == history[|history| - result..]
    {
      hide *;
      SoundParts(mem[..], 0, 0);
      ContextParts(ctx, mem[..]);
      SavedParts(mem[..], dictSize);
      ghost var v, was := ctx.View(mem[..]), mem[..];
      var prefixSize := ctx.end - ctx.dictLimit;
      result := if dictSize > 64 * KB then 64 * KB else if dictSize < 4 then 0 else dictSize;
      if result > prefixSize { result := prefixSize; }
      if result > 0 {
        BlockStream.MoveBytes(mem, safeBuffer, ctx.base + ctx.end - result, result);
      }
      ctx.MoveTo(safeBuffer, result);
      ContextParts(ctx, mem[..]);
      SavedRemembers(v, ctx.View(mem[..]), result, history, was, mem[..], safeBuffer);
      SavedSound(mem[..]);
    }

    /** How much that is. */
    function Saved(dictSize: int): (n: int)
      reads ctx
    {
      Min(if dictSize > 64 * KB then 64 * KB else if dictSize < 4 then 0 else dictSize, ctx.end - ctx.dictLimit)
    }

    lemma SavedParts(mem: seq<byte>, dictSize: int)
      requires ctx.Valid() == true && Remembers(ctx.View(mem), ctx.end, history, 0, 0) == true
      ensures var n, m := ctx.end - ctx.dictLimit, if dictSize > 64 * KB then 64 * KB else if dictSize < 4 then 0 else dictSize;
              0 <= n && 0 <= m <= 64 * KB && Saved(dictSize) == (if m > n then n else m) && 0 <= ctx.base + ctx.dictLimit && ctx.base + ctx.end <= |mem|
    {
      hide HcContext.Valid;
      ContextParts(ctx, mem);
    }

    lemma SavedSound(mem: seq<byte>)
      requires started && ctx.Valid() == true && 0 <= ctx.base + ctx.end
      requires Remembers(ctx.View(mem), ctx.end, history, 0, 0) == true
      ensures Sound() == true && Intact(mem, 0, 0) == true
    {
      ctx.ValidIsReusable();
      hide HcContext.Valid, HcContext.Reusable, Remembers;
    }
  }

  /** The end of the prefix, at another place. */
  lemma SavedRemembers(v: Space, w: Space, n: nat, history: seq<byte>, was: seq<byte>, now: seq<byte>, at: int)
    requires Remembers(v, v.end, history, 0, 0) == true && v.mem == was && w.mem == now && |was| == |now| && n <= v.end - v.dictLimit && n <= 64 * KB
    requires w.end == v.end && w.lowLimit == w.dictLimit == w.end - n && w.base + w.end == at + n && 0 <= at && at + n <= |now|
    requires 0 <= v.base + v.end - n && v.base + v.end <= |was| && (n > 0 ==> now[at..at + n] == was[v.base + v.end - n..v.base + v.end])
    ensures Remembers(w, w.end, history, 0, 0) == true && n <= |history| && now[at..at + n] == history[|history| - n..]
  {
    var a, b := now[at..at + n], history[|history| - n..];
    forall k | 0 <= k < n ensures a[k] == b[k] {
      assert a[k] == was[v.base + v.end - n..v.base + v.end][k] == v.At(v.end - n + k);
    }
    assert a == b;
    forall i | w.lowLimit <= i < w.end ensures w.At(i) == history[|history| - (w.end - i)] {
      assert w.At(i) == a[i - w.lowLimit];
    }
  }

  lemma LowMeans(v: Space, source: int, n: nat)
    ensures LowAfter(v, source, n) ==
      if source + n > v.dictBase + v.lowLimit && source < v.dictBase + v.dictLimit then
        var low := (if source + n > v.dictBase + v.dictLimit then v.dictBase + v.dictLimit else source + n) - v.dictBase;
        if v.dictLimit - low < 4 then v.dictLimit else low
      else v.lowLimit
  {
  }

  lemma ReloadRemembers(v: Space, w: Space, dictSize: nat, history: seq<byte>, source: int, n: nat)
    requires Remembers(v, v.end, history, source, n) == true && dictSize <= v.end - v.dictLimit && 64 * KB <= v.dictLimit
    requires w == Space(v.mem, v.base + v.end - dictSize - 64 * KB, v.base + v.end - dictSize - 64 * KB, 64 * KB, 64 * KB, 64 * KB + dictSize)
    ensures Remembers(w, w.end, history, source, n) == true
  {
    RemembersPrefix(v, w, history, source, n);
  }

  lemma ExternalRemembers(v: Space, w: Space, history: seq<byte>, source: int, n: nat)
    requires Remembers(v, v.end, history, source, n) == true && w.Valid()
    requires w.mem == v.mem && w.lowLimit == v.dictLimit && w.dictLimit == w.end == v.end && w.dictBase == v.base && v.dictLimit <= v.end
    ensures Remembers(w, w.end, history, source, n) == true
  {
    RemembersPrefix(v, w, history, source, n);
  }
}
