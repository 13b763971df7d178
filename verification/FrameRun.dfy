/**
 Whole runs of the frame decoder: however the input is cut and however small the output buffers are,
 and although the caller reuses them, the output is the text of the frame.
 */
module FrameRun {
  import opened Bytes
  import opened BlockFormat
  import opened FrameFormat
  import opened FrameDecoder

  lemma WaitsOpen(c: Dctx, r: Run, mem: seq<byte>)
    requires c.Waits(r, mem) == true
    ensures var io := Call([], 0, false, 0, 0, 0);
      c.At(r, mem, io) == true && Resting(c.dStage, c.tmpInTarget) == true && io.Within(|mem|) && r.Text(mem, io) == r.before && r.Matches(io)
  {
    hide Dctx.At;
    c.AtInside(r, mem, Call([], 0, false, 0, 0, 0));
  }

  lemma FrameIsBehind(r: Run)
    requires r.Proper() == true && r.meaning.HasText()
    ensures MIN_HEADER < r.meaning.end <= |r.frame|
    ensures ReadHeader(r.frame).Header? ==> ReadHeader(r.frame).size < r.meaning.end
  {
    hide ReadHeader, FrameWithin;
    EndsBehindHeader(r.frame, r.dictionary, r.room);
  }

  lemma AtStart(c: Dctx, r: Run, mem: seq<byte>, io: Call)
    requires io.Within(|mem|) && c.Starting(r.dictionary, r.Text(mem, io), mem, io.dstPtr, io.dstEnd) == true && r.Read(io) == 0
    ensures r.Text(mem, io) == [] && r.Read(io) < MIN_HEADER
  {
  }

  lemma WithinHeader(c: Dctx, r: Run, mem: seq<byte>, io: Call)
    requires io.Within(|mem|) && r.Matches(io) && c.InHeader(r, mem, io) == true && r.meaning.HasText() && MIN_HEADER < r.meaning.end
    requires ReadHeader(r.frame).Header? ==> ReadHeader(r.frame).size < r.meaning.end
    ensures r.Text(mem, io) == [] && r.Read(io) < r.meaning.end
  {
    hide Blocks, SkippableFrame, Dctx.Starting;
    c.StartingText(r.dictionary, r.Text(mem, io), mem, io.dstPtr, io.dstEnd);
    if c.tmpInTarget != MIN_HEADER { LongHeader(r.frame, c.tmpInSize); }
  }

  lemma LongHeader(f: seq<byte>, n: nat)
    requires MIN_HEADER <= n <= |f| && ReadHeader(f[..n]).TooShort? && (ReadHeader(f).Header? || ReadHeader(f).Skippable?)
    ensures ReadHeader(f).Header? && n < ReadHeader(f).size
  {
    Le32Prefix(f, n, 0);
    hide Le32, Le64, HeaderChecksumHolds;
  }

  lemma BeforeBlock(c: Dctx, r: Run, mem: seq<byte>, io: Call, p: int)
    requires io.Within(|mem|) && c.OnBlocks(r, mem, io, p) == true && r.meaning.HasText()
    ensures r.Text(mem, io) <= r.meaning.text && p + BLOCK_HEADER <= r.meaning.end
  {
    hide Blocks, Dctx.Between;
    BlocksExtend(r.frame, p, c.info, r.dictionary, r.Text(mem, io), r.room);
  }

  lemma WithinRaw(c: Dctx, r: Run, mem: seq<byte>, io: Call, p: int, n: nat)
    requires io.Within(|mem|) && c.OnRaw(r, mem, io, p, n) == true && r.meaning.HasText()
    ensures r.Text(mem, io) <= r.meaning.text && p + n + BLOCK_HEADER <= r.meaning.end
  {
    hide RawBlock, Dctx.Between;
    RawExtend(r.frame, p, n, c.blockChecksum, c.info, r.dictionary, r.Text(mem, io), r.room);
  }

  lemma WithinPacked(c: Dctx, r: Run, mem: seq<byte>, io: Call, p: int, n: nat)
    requires io.Within(|mem|) && c.OnPacked(r, mem, io, p, n) == true && r.meaning.HasText()
    ensures r.Text(mem, io) <= r.meaning.text
    ensures r.room.Reached(|r.Text(mem, io)|) || p + n + c.info.ChecksumSize() + BLOCK_HEADER <= r.meaning.end
    ensures r.room.Reached(|r.Text(mem, io)|) ==> r.meaning == NoRoom(r.Text(mem, io), p)
  {
    hide PackedBlock, Dctx.Between;
    PackedExtend(r.frame, p, n, c.info, r.dictionary, r.Text(mem, io), r.room);
  }

  lemma WithinOutput(c: Dctx, r: Run, mem: seq<byte>, io: Call)
    requires io.Within(|mem|) && c.Flushing(r, mem, io) == true && r.meaning.HasText()
    ensures r.Text(mem, io) <= r.meaning.text && r.Read(io) < r.meaning.end
  {
    hide Blocks, Dctx.Known, Dctx.Tallied, Dctx.Ready;
    var left := c.tmpOutBuffer[c.tmpOut + c.tmpOutStart..c.tmpOut + c.tmpOutSize];
    BlocksExtend(r.frame, r.Read(io), c.info, r.dictionary, r.Text(mem, io) + left, r.room);
  }

  lemma WithinSuffix(c: Dctx, r: Run, mem: seq<byte>, io: Call, p: int)
    requires io.Within(|mem|) && c.OnSuffix(r, mem, io, p) == true && c.info.contentChecksum && r.meaning.HasText()
    ensures r.Text(mem, io) == r.meaning.text && p + CHECKSUM == r.meaning.end
  {
    hide Dctx.Between, ChecksumHolds;
  }

  lemma WithinSize(c: Dctx, r: Run, mem: seq<byte>, io: Call)
    requires io.Within(|mem|) && c.InSkippableSize(r, mem, io) == true && r.meaning.HasText()
    ensures r.Text(mem, io) == [] && r.Read(io) < r.meaning.end
  {
    hide Dctx.Starting, Le32;
    c.StartingText(r.dictionary, r.Text(mem, io), mem, io.dstPtr, io.dstEnd);
  }

  lemma WithinSkippable(c: Dctx, r: Run, mem: seq<byte>, io: Call)
    requires io.Within(|mem|) && c.InSkippable(r, mem, io) == true && r.meaning.HasText()
    ensures r.Text(mem, io) == [] && r.Read(io) + c.tmpInTarget == r.meaning.end
  {
    hide Dctx.Starting;
    c.StartingText(r.dictionary, r.Text(mem, io), mem, io.dstPtr, io.dstEnd);
  }

  lemma AtOnce(r: Run, io: Call)
    requires io == Call([], 0, false, 0, 0, 0)
    ensures r.Read(io) == r.pos
  {
  }

  lemma RestingParts(s: Stage, target: nat)
    requires Resting(s, target)
    ensures s != GetSuffix && s != Init && s != GetBlockHeader && s != GetSFrameSize && (s == SkipSkippable ==> target != 0)
    ensures BLOCK_HEADER == CHECKSUM == 4
  {
  }

  /** Between two calls: what is left of the input is not empty, and what is out is the front of the text. */
  lemma Underway(c: Dctx, r: Run, mem: seq<byte>)
    requires c.Waits(r, mem) == true && r.meaning.HasText() && r.Proper() == true && (c.dStage == StoreCBlock ==> !r.room.Reached(|r.before|))
    ensures r.before <= r.meaning.text && r.meaning.end <= |r.frame|
    ensures if c.dStage == GetCBlock && r.room.Reached(|r.before|) then r.meaning == NoRoom(r.before, r.pos) else r.pos < r.meaning.end
  {
    hide *;
    var io := Call([], 0, false, 0, 0, 0);
    WaitsOpen(c, r, mem);
    FrameIsBehind(r);
    c.Opened(r, mem, io);
    AtOnce(r, io);
    RestingParts(c.dStage, c.tmpInTarget);
    match c.dStage
    case GetFrameHeader => AtStart(c, r, mem, io);
    case StoreFrameHeader => WithinHeader(c, r, mem, io);
    case StoreBlockHeader => BeforeBlock(c, r, mem, io, r.pos - c.tmpInSize);
    case CopyDirect => WithinRaw(c, r, mem, io, r.pos, c.tmpInTarget);
    case GetBlockChecksum => WithinRaw(c, r, mem, io, r.pos - c.tmpInSize, 0);
    case GetCBlock => WithinPacked(c, r, mem, io, r.pos, c.tmpInTarget - c.info.ChecksumSize());
    case StoreCBlock => WithinPacked(c, r, mem, io, r.pos - c.tmpInSize, c.tmpInTarget - c.info.ChecksumSize());
    case FlushOut => WithinOutput(c, r, mem, io);
    case StoreSuffix => WithinSuffix(c, r, mem, io, r.pos - c.tmpInSize);
    case StoreSFrameSize => WithinSize(c, r, mem, io);
    case SkipSkippable => WithinSkippable(c, r, mem, io);
  }

  // ----- Between the calls -----

  /** If the history is in the caller's memory although it may be reused, it is the dictionary. */
  lemma OnlyTheDictionary(c: Dctx, r: Run, mem: seq<byte>)
    requires c.Waits(r, mem) && !c.MustPreserve(false) && c.DictNeeded() && c.dict.InMem?
    ensures c.AtHome()
  {
    hide Dctx.DictKept, Dctx.Tallied, Dctx.Ready, Dctx.Known, Dctx.Stored, Dctx.AtHome, Run.LeadsTo, Run.Proper, ReadHeader;
  }

  /** Between two calls, the caller may use its memory for other things, but not that of the history. */
  lemma Reused(c: Dctx, r: Run, m1: seq<byte>, m2: seq<byte>)
    requires c.Waits(r, m1)
    requires c.DictNeeded() && c.dict.InMem? ==>
      && 0 <= c.dict.at && c.dict.at + c.dictSize <= |m1| && c.dict.at + c.dictSize <= |m2|
      && m1[c.dict.at..c.dict.at + c.dictSize] == m2[c.dict.at..c.dict.at + c.dictSize]
    ensures c.Waits(r, m2)
  {
    hide Dctx.At;
    var io := Call([], 0, false, 0, 0, 0);
    c.AtInside(r, m1, io);
    c.Moves(r, m1, io, r, m2, io);
  }

  /** A stretch of memory for output, apart from the dictionary. */
  predicate Room(size: nat, dictAt: int, dictSize: nat, at: int, n: nat) {
    0 <= at && at + n <= size && (at + n <= dictAt || dictAt + dictSize <= at)
  }

  /** Where a run of calls stands: `text` is out, and `read` bytes have been taken. */
  ghost predicate Going(c: Dctx, r: Run, mem: seq<byte>, dictAt: int, dictSize: nat)
    reads c, c.tmpIn, c.tmpOutBuffer, c.header
  {
    && r.Proper() && r.room == Unlimited && r.Owed() == 0 && r.meaning.Complete? && r.pos < r.meaning.end <= |r.frame| && r.before <= r.meaning.text
    && if c.dStage == GetFrameHeader || c.dStage == StoreFrameHeader then
         c.InFront(r)
       else
         && c.Waits(r, mem)
         && (c.dict.InMem? && c.DictNeeded() ==> c.dict == InMem(dictAt) && c.dictSize == dictSize)
  }

  /** A call that does not finish the frame leaves the run going, whatever becomes of the output buffer. */
  lemma GoesOn(c: Dctx, r: Run, m1: seq<byte>, m2: seq<byte>, dictAt: int, dictSize: nat)
    requires c.Waits(r, m1) && r.Proper() && r.room == Unlimited && r.Owed() == 0 && r.meaning.Complete? && !c.MustPreserve(false)
    requires c.home == InMem(dictAt) && c.homeSize == dictSize
    requires |m1| == |m2| && 0 <= dictAt && dictAt + dictSize <= |m1| && m1[dictAt..dictAt + dictSize] == m2[dictAt..dictAt + dictSize]
    ensures Going(c, r, m2, dictAt, dictSize) == true
  {
    hide Dctx.Waits, Dctx.InFront, Frame, Run.Proper;
    Underway(c, r, m1);
    if c.dStage == GetFrameHeader || c.dStage == StoreFrameHeader {
      c.WaitsInFront(r, m1);
    } else {
      if c.DictNeeded() && c.dict.InMem? { OnlyTheDictionary(c, r, m1); }
      Reused(c, r, m1, m2);
    }
  }

  // ----- Whole runs -----

  /** One call of a run, after which the caller writes to all its memory but the dictionary. */
  method CallAndReuse(c: Dctx, mem: array<byte>, ghost r: Run, src: seq<byte>, at: int, n: nat, dictAt: int, dictSize: nat, scribble: int -> byte)
    returns (out: seq<byte>, srcSize: nat, more: bool, ghost r': Run)
    requires c.Apart(mem) && Going(c, r, mem[..], dictAt, dictSize) == true
    requires 0 <= dictAt && dictAt + dictSize <= mem.Length && mem[dictAt..dictAt + dictSize] == r.dictionary
    requires Room(mem.Length, dictAt, dictSize, at, n) && r.pos + |src| <= |r.frame| && src == r.frame[r.pos..r.pos + |src|]
    requires c.dStage == GetFrameHeader || c.dStage == StoreFrameHeader || (c.home == InMem(dictAt) && c.homeSize == dictSize)
    modifies c, c.tmpIn, c.tmpOutBuffer, c.header, mem
    ensures c.Apart(mem) && ((c.tmpIn == old(c.tmpIn) && c.tmpOutBuffer == old(c.tmpOutBuffer)) || (fresh(c.tmpIn) && fresh(c.tmpOutBuffer)))
    ensures mem[dictAt..dictAt + dictSize] == r.dictionary
    ensures srcSize <= |src| && r' == r.(pos := r.pos + srcSize, before := r.before + out) && c.home == InMem(dictAt) && c.homeSize == dictSize
    ensures if more then Going(c, r', mem[..], dictAt, dictSize) == true && (src != [] && 0 < n ==> srcSize > 0 || out != []) else c.Idle() && r.Leaves(c.frameRemainingSize) && r'.LeadsTo(Complete(r'.before, r'.pos))
  {
    hide Going, Dctx.Waits, Dctx.InFront, Run.LeadsTo, Dctx.Idle, Run.Leaves, Run.Owed, Run.Proper, FrameWithin, ReadHeader, Frame;
    GoingParts(c, r, mem[..], dictAt, dictSize);
    var status, dstSize;
    status, srcSize, dstSize, r' := c.DecompressUsingDict(r, mem, src, true, at, n, InMem(dictAt), dictSize, false);
    out := mem[at..at + dstSize];
    more := status.Stop? && status.hint != 0;
    ghost var m := mem[..];
    assert m[dictAt..dictAt + dictSize] == r.dictionary;
    forall i | 0 <= i < mem.Length && !(dictAt <= i < dictAt + dictSize) { mem[i] := scribble(i); }
    assert mem[dictAt..dictAt + dictSize] == m[dictAt..dictAt + dictSize];
    if more {
      StillProper(r, r');
      GoesOn(c, r', m, mem[..], dictAt, dictSize);
    }
  }

  lemma GoingParts(c: Dctx, r: Run, mem: seq<byte>, dictAt: int, dictSize: nat)
    requires Going(c, r, mem, dictAt, dictSize)
    ensures r.Proper() && r.meaning.Complete? && r.room == Unlimited && r.Owed() == 0
    ensures if c.dStage == GetFrameHeader || c.dStage == StoreFrameHeader then
              c.InFront(r) == true
            else
              c.Waits(r, mem) == true && (c.dict.InMem? && c.DictNeeded() ==> c.dict == InMem(dictAt) && c.dictSize == dictSize)
  {
    hide Dctx.Waits, Dctx.InFront, Run.Proper;
  }

  /**
   A context with `left` in its counter takes the next frame as it is, if the counter is zero, or is not
   looked at, or is set anew.
   */
  predicate Accepts(left: nat, frame: seq<byte>) { left == 0 || !ReadHeader(frame).Header? || Announces(frame) }

  lemma FreshAccepts(c: Dctx, frame: seq<byte>)
    requires c.Fresh() == true
    ensures c.Idle() && Accepts(c.frameRemainingSize, frame)
  {
  }

  /** A run starts. */
  lemma Starts(c: Dctx, frame: seq<byte>, d: seq<byte>, mem: seq<byte>, dictAt: int, dictSize: nat)
    requires c.Idle() && Accepts(c.frameRemainingSize, frame) && Frame(frame, d).Complete?
    ensures Going(c, Run(frame, d, Frame(frame, d), 0, [], c.frameRemainingSize, Unlimited), mem, dictAt, dictSize) == true && c.dStage == GetFrameHeader
  {
    FrameEndsBehindHeader(frame, d);
    hide FrameWithin, ReadHeader;
  }

  lemma GoingOn(c: Dctx, r: Run, mem: seq<byte>, dictAt: int, dictSize: nat)
    requires Going(c, r, mem, dictAt, dictSize)
    ensures r.Proper() && r.meaning.Complete? && r.pos < r.meaning.end <= |r.frame| && r.before <= r.meaning.text
  {
    hide Dctx.Waits, Dctx.InFront, Run.Proper;
  }

  /**
   Decodes a frame piece by piece. The input is cut as `cut` says, each call has another place for
   its output, and after each call the caller writes `scribble` over all its memory but the dictionary.
   The first `idle` calls may be given no input, or no room. Whatever these are, the run ends, with the
   text of the frame and at its end.
   */
  method DecodePieces(c: Dctx, mem: array<byte>, frame: seq<byte>, dictAt: int, dictSize: nat,
                      cut: nat -> nat, at: nat -> int, room: nat -> nat, scribble: nat -> (int -> byte), idle: nat)
    returns (text: seq<byte>, read: nat)
    requires c.Idle() && Accepts(c.frameRemainingSize, frame) && c.Apart(mem) && 0 <= dictAt && dictAt + dictSize <= mem.Length
    requires forall k :: Room(mem.Length, dictAt, dictSize, at(k), room(k)) && (idle <= k ==> 0 < room(k))
    requires Frame(frame, mem[dictAt..dictAt + dictSize]).Complete?
    modifies c, c.tmpIn, c.tmpOutBuffer, c.header, mem
    ensures Complete(text, read) == Frame(frame, old(mem[dictAt..dictAt + dictSize]))
    ensures c.Idle() && (c.frameRemainingSize == 0 || (ReadHeader(frame).Skippable? && c.frameRemainingSize == old(c.frameRemainingSize)))
  {
    hide Going, Frame, Dctx.Idle;
    ghost var d := mem[dictAt..dictAt + dictSize];
    ghost var r := Run(frame, d, Frame(frame, d), 0, [], c.frameRemainingSize, Unlimited);
    Starts(c, frame, d, mem[..], dictAt, dictSize);
    text, read := [], 0;
    var calls := 0;
    var more := true;
    while more
      invariant c.Apart(mem) && ((c.tmpIn == old(c.tmpIn) && c.tmpOutBuffer == old(c.tmpOutBuffer)) || (fresh(c.tmpIn) && fresh(c.tmpOutBuffer)))
      invariant mem[dictAt..dictAt + dictSize] == d && r == Run(frame, d, Frame(frame, d), read, text, old(c.frameRemainingSize), Unlimited)
      invariant if more then Going(c, r, mem[..], dictAt, dictSize) == true else c.Idle() && r.Leaves(c.frameRemainingSize) && Frame(frame, d) == Complete(text, read)
      invariant calls == 0 ==> c.dStage == GetFrameHeader
      invariant calls > 0 ==> c.home == InMem(dictAt) && c.homeSize == dictSize
      decreases more, Max(0, idle - calls), |frame| - read, |r.meaning.text| - |text|
    {
      GoingOn(c, r, mem[..], dictAt, dictSize);
      var n := if calls < idle then Min(cut(calls), |frame| - read) else 1 + Min(cut(calls), |frame| - read - 1);
      var out, srcSize;
      out, srcSize, more, r := CallAndReuse(c, mem, r, frame[read..read + n], at(calls), room(calls), dictAt, dictSize, scribble(calls));
      text, read, calls := text + out, read + srcSize, calls + 1;
      if more { GoingOn(c, r, mem[..], dictAt, dictSize); }
    }
  }

  /** Output that has not been handed on belongs to the text. */
  lemma StillToCome(c: Dctx, r: Run, mem: seq<byte>)
    requires c.Waits(r, mem) && r.meaning.HasText() && r.Proper() && c.Holding() && c.dStage != GetCBlock
    ensures |r.before| < |r.meaning.text|
  {
    hide Dctx.InHeader, Dctx.InInit, Dctx.OnBlocks, Dctx.OnPacked, Dctx.OnSuffix, Dctx.InSkippableSize;
    hide Dctx.InSkippable, Dctx.Starting, Dctx.At, Dctx.Stored, Dctx.On, Dctx.Buffers, SkippableFrame, Frame, Run.Proper, Run.LeadsTo;
    hide Dctx.OnRaw, Dctx.Flushing;
    var io := Call([], 0, false, 0, 0, 0);
    WaitsOpen(c, r, mem);
    c.Opened(r, mem, io);
    if c.dStage == CopyDirect {
      RawToCome(c, r, mem, io, c.tmpInTarget);
    } else {
      FlushToCome(c, r, mem, io);
    }
  }

  lemma RawToCome(c: Dctx, r: Run, mem: seq<byte>, io: Call, n: nat)
    requires io.Within(|mem|) && c.OnRaw(r, mem, io, r.Read(io), n) == true && r.meaning.HasText() && 0 < n
    ensures |r.Text(mem, io)| < |r.meaning.text|
  {
    hide RawBlock, Dctx.Between;
    RawExtend(r.frame, r.Read(io), n, c.blockChecksum, c.info, r.dictionary, r.Text(mem, io), r.room);
  }

  lemma FlushToCome(c: Dctx, r: Run, mem: seq<byte>, io: Call)
    requires io.Within(|mem|) && c.Flushing(r, mem, io) == true && r.meaning.HasText() && c.tmpOutStart < c.tmpOutSize
    ensures |r.Text(mem, io)| < |r.meaning.text|
  {
    hide Blocks, Dctx.Known, Dctx.Tallied, Dctx.Ready;
    var left := c.tmpOutBuffer[c.tmpOut + c.tmpOutStart..c.tmpOut + c.tmpOutSize];
    BlocksExtend(r.frame, r.Read(io), c.info, r.dictionary, r.Text(mem, io) + left, r.room);
  }

  lemma StartsAtOnce(c: Dctx, r: Run, capacity: nat)
    requires c.Idle() == true && r.Proper() == true && r.before == [] && r.pos == 0 && r.left == c.frameRemainingSize && r.room == Upto(capacity)
    ensures c.FirstCall(r, true, capacity) == true
    ensures c.InFront(r) == true && c.dStage == GetFrameHeader && r.frame[0..0 + |r.frame|] == r.frame
  {
    hide FrameWithin;
  }

  lemma ProperAtOnce(r: Run)
    requires r.before == [] && r.pos == 0 && r.meaning == FrameWithin(r.frame, r.dictionary, r.room) && Frame(r.frame, r.dictionary).Complete?
    requires if r.meaning.NoRoom? then r.meaning.text == Frame(r.frame, r.dictionary).text else r.meaning == Frame(r.frame, r.dictionary)
    ensures r.Proper() == true
  {
    hide FrameWithin;
  }

  lemma AcceptsOwed(r: Run)
    ensures Accepts(r.left, r.frame) <==> r.Owed() == 0
  {
  }

  /** What the only call has done. */
  lemma AfterOnce(c: Dctx, r: Run, r': Run, mem: seq<byte>, at: int, read: nat, size: nat, status: Status, capacity: nat, meaning: Result, tight: bool)
    requires r.Proper() == true && r.before == [] && r.pos == 0 && r.room == Upto(capacity) && meaning.Complete? && |meaning.text| <= capacity
    requires if tight then
               r.meaning.NoRoom? && r.meaning.text == meaning.text && r.meaning.end < meaning.end && capacity == |meaning.text|
             else
               r.meaning == meaning
    requires 0 <= at && at + size <= |mem| && size <= capacity && c.Returned(r, r', mem, at, read, size, status) == true
    requires status.Stop? && status.hint != 0 ==> read == |r.frame| || (size == capacity && c.Holding())
    requires status.Stop? && status.hint != 0 && c.dStage == StoreCBlock ==> !r.room.Reached(|r'.before|)
    ensures if r.Owed() == 0 then
              && mem[at..at + size] == meaning.text
              && if tight then
                   status.Stop? && status.hint != 0 && read < meaning.end && size == capacity && c.dStage == GetCBlock
                 else
                   status == Stop(0) && read == meaning.end && c.Idle()
            else
              !tight ==> status == Fail(FrameSizeWrong)
  {
    hide Dctx.Waits, FrameWithin, Run.Owed, Dctx.Idle, Run.Proper;
    if status.Stop? && status.hint != 0 {
      StillProper(r, r');
      Underway(c, r', mem);
      if c.dStage != GetCBlock && read != |r.frame| { StillToCome(c, r', mem); }
    }
  }

  lemma StillProper(r: Run, r': Run)
    requires r.Proper() == true && r' == r.(pos := r'.pos, before := r'.before)
    ensures r'.Proper() == true && r'.Owed() == r.Owed()
  {
  }

  /**
   One call is enough for the text, if it has all the input and room for it. It is enough for the frame
   unless there is not a byte of room to spare and a compressed block comes behind the text. And it
   tells if the counter of the context fits the frame.
   */
  method DecodeAtOnce(c: Dctx, mem: array<byte>, frame: seq<byte>, dictAt: int, dictSize: nat, at: int, capacity: nat)
    returns (status: Status, read: nat, size: nat)
    requires c.Idle() == true && c.Apart(mem) == true && 0 <= dictAt && dictAt + dictSize <= mem.Length
    requires 0 <= at && at + capacity <= mem.Length && (at + capacity <= dictAt || dictAt + dictSize <= at)
    requires var meaning := Frame(frame, mem[dictAt..dictAt + dictSize]); meaning.Complete? && |meaning.text| <= capacity
    modifies c, c.tmpIn, c.tmpOutBuffer, c.header, mem
    ensures var d := old(mem[dictAt..dictAt + dictSize]);
            var meaning, tight := Frame(frame, d), capacity == |Frame(frame, d).text| && PackedAtEnd(frame, d);
            if Accepts(old(c.frameRemainingSize), frame) then
              && size <= capacity && mem[at..at + size] == meaning.text
              && if tight then
                   status.Stop? && status.hint != 0 && read < meaning.end && size == capacity && c.dStage == GetCBlock
                 else
                   status == Stop(0) && read == meaning.end && c.Idle()
            else
              !tight ==> status == Fail(FrameSizeWrong)
  {
    hide *;
    ghost var d := mem[dictAt..dictAt + dictSize];
    ghost var r := Run(frame, d, FrameWithin(frame, d, Upto(capacity)), 0, [], c.frameRemainingSize, Upto(capacity));
    ghost var tight := capacity == |Frame(frame, d).text| && PackedAtEnd(frame, d);
    RoomMatters(frame, d, capacity);
    ProperAtOnce(r);
    StartsAtOnce(c, r, capacity);
    AcceptsOwed(r);
    ghost var r';
    status, read, size, r' := c.DecompressUsingDict(r, mem, frame, true, at, capacity, InMem(dictAt), dictSize, false);
    AfterOnce(c, r, r', mem[..], at, read, size, status, capacity, Frame(frame, d), tight);
  }
}
