/**
 LZ4F_decompress: the resumable frame decoder, with the history of linked blocks that it keeps across
 the buffers of its callers. Memory of callers is one buffer, and a pointer into it is an index.
 */
module FrameDecoder {
  import opened Bytes
  import opened BlockFormat
  import opened BlockApi
  import BlockDecoder
  import FastCopy
  import opened XxHash
  import opened FrameFormat
  import opened FrameHistory

  // ----- State -----

  datatype Stage =
    | GetFrameHeader | StoreFrameHeader | Init | GetBlockHeader | StoreBlockHeader | CopyDirect | GetBlockChecksum
    | GetCBlock | StoreCBlock | FlushOut | GetSuffix | StoreSuffix | GetSFrameSize | StoreSFrameSize | SkipSkippable

  datatype Error =
    | FrameHeaderIncomplete | FrameTypeUnknown | ReservedFlagSet | HeaderVersionWrong | MaxBlockSizeInvalid
    | HeaderChecksumInvalid | BlockChecksumInvalid | Generic | DecompressionFailed | FrameSizeWrong | ContentChecksumInvalid

  /** Where the history is: nowhere, at the front of the decoder's own buffer, or in the caller's memory. */
  datatype Pointer = Null | InTmp | InMem(at: int)

  /** The local variables of one call: the input, and the place of its output, which can be missing. */
  datatype Call = Call(src: seq<byte>, srcPtr: nat, hasDst: bool, dstStart: int, dstPtr: int, dstEnd: int)
  {
    predicate Within(size: int) {
      && srcPtr <= |src| && 0 <= dstStart <= dstPtr <= dstEnd <= size && (!hasDst ==> dstStart == dstEnd)
    }

    function SrcLeft(): int { |src| - srcPtr }

    function DstLeft(): int { dstEnd - dstPtr }

  }

  /**
   One frame: the whole input from its first byte on, the dictionary, what both mean, and what the
   calls before this one have read and put out. `left` is what the counter of the context held before. If `room` is
   limited, it is the room of the only call.
   */
  datatype Run = Run(frame: seq<byte>, dictionary: seq<byte>, meaning: Result, pos: nat, before: seq<byte>, left: nat, room: Limit)
  {
    predicate Proper() { meaning == FrameWithin(frame, dictionary, room) }

    predicate Fits(io: Call) { room.Upto? && io.hasDst ==> room.n == |before| + (io.dstEnd - io.dstStart) }

    /** What the counter still holds while the blocks are decoded, if the frame does not announce its size. */
    function Owed(): nat { if ReadHeader(frame).Header? && !Announces(frame) then left else 0 }

    /** And what it may hold in the end: skippable frames do not touch it. */
    predicate Leaves(n: nat) { n == 0 || (ReadHeader(frame).Skippable? && n == left) }

    /** The frame may be rejected with the error `e`: it says what is wrong first, or that the counter was not zero. */
    predicate Rejects(e: Error) {
      meaning == Result.Unspecified || (meaning.Invalid? && Reports(e, meaning.flaw, frame)) || (e == FrameSizeWrong && Owed() != 0)
    }

    predicate Flawed(flaw: Flaw) { meaning == Invalid(flaw) || meaning == Result.Unspecified }

    predicate Matches(io: Call) {
      pos + |io.src| <= |frame| && io.src == frame[pos..pos + |io.src|] && io.srcPtr <= |io.src|
    }

    /** How much of the input has been read. */
    function Read(io: Call): nat { pos + io.srcPtr }

    /** What has been put out. */
    function Text(mem: seq<byte>, io: Call): seq<byte>
      requires io.Within(|mem|)
    {
      before + mem[io.dstStart..io.dstPtr]
    }

    /** What is left to be decoded leads to the meaning of the whole. */
    predicate LeadsTo(x: Result) { meaning == Result.Unspecified || meaning == x }
  }

  datatype Status = Again | Stop(hint: nat) | Fail(error: Error)

  /** What an error says about the bytes at the front of a frame. */
  predicate Explains(e: Error, f: seq<byte>) {
    match e
    case FrameHeaderIncomplete => |f| < 5 || |f| < HeaderSize(f[4])
    case FrameTypeUnknown => 4 <= |f| && Le32(f, 0) != MAGIC && Le32(f, 0) / 16 * 16 != MAGIC_SKIPPABLE
    case HeaderVersionWrong => 5 <= |f| && f[4] / 64 != 1
    case ReservedFlagSet => 6 <= |f| && (f[4] / 2 % 2 == 1 || f[5] / 128 == 1 || f[5] % 16 != 0)
    case MaxBlockSizeInvalid => 6 <= |f| && f[5] / 16 % 8 < 4
    case HeaderChecksumInvalid => 5 <= |f| && HeaderSize(f[4]) <= |f| && !HeaderChecksumHolds(f, HeaderSize(f[4]))
    case _ => false
  }

  /** The errors for what is wrong with the frame `f`. */
  predicate Reports(e: Error, flaw: Flaw, f: seq<byte>) {
    match flaw
    case HeaderFlaw => e != FrameHeaderIncomplete && Explains(e, f)
    case BlockTooLong => e == MaxBlockSizeInvalid
    case BlockChecksumFlaw => e == BlockChecksumInvalid
    case BlockFlaw => e == Generic || e == DecompressionFailed
    case SizeFlaw => e == FrameSizeWrong
    case ChecksumFlaw => e == ContentChecksumInvalid
  }

  /** The stages in which a call can end. */
  predicate Resting(s: Stage, target: nat) {
    s != GetSuffix && s != Init && s != GetBlockHeader && s != GetSFrameSize && (s == SkipSkippable || s == CopyDirect ==> target != 0)
  }

  function Rank(s: Stage): nat {
    match s
    case FlushOut => 6
    case GetSuffix => 5
    case CopyDirect => 5
    case GetCBlock => 5
    case GetBlockChecksum => 4
    case GetBlockHeader => 3
    case StoreBlockHeader => 3
    case GetSFrameSize => 3
    case Init => 4
    case _ => 2
  }

  /** LZ4F_dctx. */
  class Dctx {
    var dStage: Stage
    var info: Info
    var frameRemainingSize: nat
    var maxBlockSize: nat
    var maxBufferSize: nat
    var tmpIn: array<byte>
    var tmpInSize: nat
    var tmpInTarget: nat
    var tmpOutBuffer: array<byte>
    var dict: Pointer
    var dictSize: nat
    var tmpOut: nat
    var tmpOutSize: nat
    var tmpOutStart: nat
    /** The states of the two checksums, as the bytes they have been fed. */
    var xxh: seq<byte>
    var blockChecksum: seq<byte>
    /** Where the dictionary of the frame is. */
    ghost var home: Pointer
    ghost var homeSize: nat
    /** What the counter holds for a frame of unknown size. */
    ghost var owed: nat
    const header: array<byte>

    /** The buffers are apart, and as large as they were made. */
    ghost predicate Buffers()
      reads this`tmpIn, this`tmpOutBuffer, this`maxBufferSize
    {
      && header.Length == MAX_HEADER && header != tmpIn && header != tmpOutBuffer && tmpIn != tmpOutBuffer
      && (maxBufferSize > 0 ==>
            && tmpOutBuffer.Length == maxBufferSize && BlockSize(tmpIn.Length - CHECKSUM)
            && (maxBufferSize == tmpIn.Length - CHECKSUM || maxBufferSize == tmpIn.Length - CHECKSUM + 128 * KB))
    }

    /** The buffers fit the frame. */
    ghost predicate Ready()
      reads this`tmpIn, this`tmpOutBuffer, this`maxBufferSize, this`info, this`maxBlockSize
    {
      && Buffers() && info.Valid() && maxBlockSize == info.MaxBlockSize()
      && maxBlockSize + CHECKSUM <= tmpIn.Length && maxBlockSize + (if info.linked then 128 * KB else 0) <= maxBufferSize
    }

    /** The dictionary pointer leads to a stretch of a buffer, and not to where output goes. */
    ghost predicate DictInside(size: int, lo: int, hi: int)
      reads this`dict, this`dictSize, this`tmpOutBuffer
    {
      match dict
      case Null => dictSize == 0
      case InTmp => dictSize <= tmpOutBuffer.Length
      case InMem(at) => 0 <= at && at + dictSize <= size && (at + dictSize <= lo || hi <= at)
    }

    ghost function DictBytes(mem: seq<byte>): seq<byte>
      requires DictInside(|mem|, 0, 0)
      reads this`dict, this`dictSize, this`tmpOutBuffer, tmpOutBuffer
    {
      match dict
      case Null => []
      case InTmp => tmpOutBuffer[..dictSize]
      case InMem(at) => mem[at..at + dictSize]
    }

    /** While a block waits in `tmpOut`, `start` bytes of which have been put out: the history is at hand for the next one. */
    ghost predicate HistoryAt(mem: seq<byte>, h: seq<byte>, start: nat)
      requires DictInside(|mem|, 0, 0)
      reads this`dict, this`dictSize, this`tmpOutBuffer, this`tmpOut, this`tmpOutSize, tmpOutBuffer
    {
      && Waiting(tmpOutBuffer[..], tmpOut, tmpOutSize, start, h)
      && if dict == InTmp then
           dictSize == tmpOut + start && WaitingIn(tmpOutBuffer[..], tmpOut, tmpOutSize, start, h)
         else
           EndOf(DictBytes(mem), h)
    }

    /** Copies the end of the history in front of `tmpOut`. */
    method PreserveFront(mem: array<byte>, ghost h: seq<byte>)
      requires mem != tmpOutBuffer && DictInside(mem.Length, 0, 0) && dict.InMem? && EndOf(DictBytes(mem[..]), h)
      requires Waiting(tmpOutBuffer[..], tmpOut, tmpOutSize, tmpOutStart, h)
      modifies tmpOutBuffer
      ensures Waiting(tmpOutBuffer[..], tmpOut, tmpOutSize, tmpOutStart, h)
      ensures WaitingIn(tmpOutBuffer[..], tmpOut, tmpOutSize, tmpOutStart, h)
      ensures tmpOut + tmpOutSize <= tmpOutBuffer.Length
      ensures forall i :: tmpOut <= i < tmpOut + tmpOutSize ==> tmpOutBuffer[i] == old(tmpOutBuffer[i])
    {
      hide EndOf;
      JoinFront(tmpOutBuffer, mem, dict.at, dictSize, tmpOut, tmpOutSize, tmpOutStart, h);
    }

    /** The output before `dstPtr` in this call is the end of the history. */
    ghost predicate OutputIsHistory(mem: seq<byte>, dstBufferStart: int, dstPtr: int, h: seq<byte>) {
      && 0 <= dstBufferStart <= dstPtr <= |mem| && dstPtr - dstBufferStart <= |h|
      && h[|h| - (dstPtr - dstBufferStart)..] == mem[dstBufferStart..dstPtr]
    }

    lemma OutputBounds(mem: seq<byte>, dstBufferStart: int, dstPtr: int, h: seq<byte>)
      requires OutputIsHistory(mem, dstBufferStart, dstPtr, h) == true
      ensures 0 <= dstBufferStart <= dstPtr
    {
    }

    /** The history is at hand, behind which `[dstPtr, dstPtr + n)` is output. */
    ghost predicate Known(mem: seq<byte>, h: seq<byte>, withinTmp: bool, start: nat)
      requires DictInside(|mem|, 0, 0)
      reads this`dict, this`dictSize, this`tmpOutBuffer, this`tmpOut, this`tmpOutSize, tmpOutBuffer
    {
      if withinTmp then HistoryAt(mem, h, start) else EndOf(DictBytes(mem), h)
    }

    /** What LZ4F_updateDict starts from. If the output comes from `tmpOut`, it is what waits there. */
    ghost predicate Updatable(mem: seq<byte>, h: seq<byte>, withinTmp: bool, dstPtr: int, n: nat, hi: int)
      reads this`dict, this`dictSize, this`tmpOutBuffer, this`tmpOut, this`tmpOutSize, this`tmpOutStart, tmpOutBuffer
    {
      && 0 <= dstPtr && dstPtr + n <= hi <= |mem| && DictInside(|mem|, dstPtr, hi) && Known(mem, h, withinTmp, tmpOutStart)
      && (withinTmp ==>
            && tmpOutStart + n <= tmpOutSize && tmpOut + tmpOutSize <= tmpOutBuffer.Length
            && mem[dstPtr..dstPtr + n] == tmpOutBuffer[tmpOut + tmpOutStart..tmpOut + tmpOutStart + n])
    }

    /** What it leads to; what waits in `tmpOut` is still there. */
    ghost predicate Updated(mem: seq<byte>, h: seq<byte>, withinTmp: bool, dstPtr: int, n: nat, hi: int, was: seq<byte>)
      reads this`dict, this`dictSize, this`tmpOutBuffer, this`tmpOut, this`tmpOutSize, this`tmpOutStart, tmpOutBuffer
    {
      && 0 <= dstPtr && dstPtr + n <= hi <= |mem| && DictInside(|mem|, dstPtr + n, hi)
      && Known(mem, h + mem[dstPtr..dstPtr + n], withinTmp, tmpOutStart + n)
      && (withinTmp ==>
            && tmpOut + tmpOutSize <= tmpOutBuffer.Length == |was|
            && forall i :: tmpOut <= i < tmpOut + tmpOutSize ==> tmpOutBuffer[i] == was[i])
    }

    /** LZ4F_updateDict: the output `[dstPtr, dstPtr + dstSize)` becomes part of the history. */
    method UpdateDict(mem: array<byte>, dstPtr: int, dstSize: nat, dstBufferStart: int, withinTmp: bool, ghost h: seq<byte>, ghost hi: int)
      requires Ready() == true && info.linked && mem != tmpOutBuffer
      requires Updatable(mem[..], h, withinTmp, dstPtr, dstSize, hi) == true && OutputIsHistory(mem[..], dstBufferStart, dstPtr, h) == true
      modifies this`dict, this`dictSize, tmpOutBuffer
      ensures Updated(mem[..], h, withinTmp, dstPtr, dstSize, hi, old(tmpOutBuffer[..]))
    {
      if dictSize == 0 {
        StartDict(mem[..], h, withinTmp, dstPtr, dstSize, hi);
      }
      hide Updatable, Updated, OutputIsHistory, Known, Buffers, EndOf;
      if dict.InMem? && dict.at + dictSize == dstPtr {
        Prolong(mem, dstPtr, dstSize, withinTmp, h, hi);
      } else if (dstPtr - dstBufferStart) + dstSize >= WINDOW {
        Restart(mem, dstPtr, dstSize, dstBufferStart, withinTmp, h, hi);
      } else {
        OutputBounds(mem[..], dstBufferStart, dstPtr, h);
        if withinTmp {
          UpdateWithin(mem, dstPtr, dstSize, h, hi);
        } else {
          UpdateOutside(mem, dstPtr, dstSize, h, hi);
        }
      }
    }

    /** Without history, the dictionary is put where the output is. */
    method StartDict(ghost mem: seq<byte>, ghost h: seq<byte>, withinTmp: bool, dstPtr: int, ghost n: nat, ghost hi: int)
      requires dictSize == 0 && Updatable(mem, h, withinTmp, dstPtr, n, hi) == true
      modifies this`dict
      ensures dict == InMem(dstPtr) && Updatable(mem, h, withinTmp, dstPtr, n, hi)
    {
      hide EndOf, Waiting, WaitingIn;
      if withinTmp && dict == InTmp { NoHistory(tmpOutBuffer[..], tmpOut, tmpOutSize, tmpOutStart, h); }
      assert DictBytes(mem) == [];
      dict := InMem(dstPtr);
      assert DictBytes(mem) == [];
    }

    /** The output follows the dictionary in memory. */
    method Prolong(mem: array<byte>, dstPtr: int, dstSize: nat, withinTmp: bool, ghost h: seq<byte>, ghost hi: int)
      requires dict.InMem? && dict.at + dictSize == dstPtr && mem != tmpOutBuffer && Updatable(mem[..], h, withinTmp, dstPtr, dstSize, hi) == true
      modifies this`dictSize
      ensures Updated(mem[..], h, withinTmp, dstPtr, dstSize, hi, tmpOutBuffer[..])
    {
      hide EndOf, Waiting, WaitingIn;
      ghost var n := mem[dstPtr..dstPtr + dstSize];
      EndOfMore(DictBytes(mem[..]), h, n);
      SplitSlice(mem[..], dict.at, dstPtr, dstPtr + dstSize);
      dictSize := dictSize + dstSize;
      if withinTmp { WaitingMore(tmpOutBuffer[..], tmpOutBuffer[..], tmpOut, tmpOutSize, tmpOutStart, dstSize, h, n); }
    }

    /** The output of this call fills a window. */
    method Restart(mem: array<byte>, dstPtr: int, dstSize: nat, dstBufferStart: int, withinTmp: bool, ghost h: seq<byte>, ghost hi: int)
      requires mem != tmpOutBuffer && WINDOW <= (dstPtr - dstBufferStart) + dstSize
      requires Updatable(mem[..], h, withinTmp, dstPtr, dstSize, hi) == true && OutputIsHistory(mem[..], dstBufferStart, dstPtr, h) == true
      modifies this`dict, this`dictSize
      ensures Updated(mem[..], h, withinTmp, dstPtr, dstSize, hi, tmpOutBuffer[..])
    {
      hide EndOf, Waiting, WaitingIn;
      OutputEnds(mem[..], dstBufferStart, dstPtr, dstPtr + dstSize, h);
      dict := InMem(dstBufferStart);
      dictSize := (dstPtr - dstBufferStart) + dstSize;
      if withinTmp {
        WaitingMore(tmpOutBuffer[..], tmpOutBuffer[..], tmpOut, tmpOutSize, tmpOutStart, dstSize, h, mem[dstPtr..dstPtr + dstSize]);
      }
    }

    /** Output that has been waiting in `tmpOut`: the history goes on there. */
    method UpdateWithin(mem: array<byte>, dstPtr: int, dstSize: nat, ghost h: seq<byte>, ghost hi: int)
      requires mem != tmpOutBuffer && dict != Null && Updatable(mem[..], h, true, dstPtr, dstSize, hi) == true
      modifies this`dict, this`dictSize, tmpOutBuffer
      ensures Updated(mem[..], h, true, dstPtr, dstSize, hi, old(tmpOutBuffer[..]))
    {
      hide EndOf, Waiting, WaitingIn;
      ghost var was, out := tmpOutBuffer[..], mem[dstPtr..dstPtr + dstSize];
      if dict != InTmp {
        var preserveSize := tmpOut;
        PreserveFront(mem, h);
        dict := InTmp;
        dictSize := preserveSize + tmpOutStart + dstSize;
      } else {
        dictSize := dictSize + dstSize;
      }
      WaitingMore(tmpOutBuffer[..], was, tmpOut, tmpOutSize, tmpOutStart, dstSize, h, out);
    }

    /** Other output: it is copied behind the history in the decoder's own buffer. */
    method UpdateOutside(mem: array<byte>, dstPtr: int, dstSize: nat, ghost h: seq<byte>, ghost hi: int)
      requires Ready() == true && info.linked && mem != tmpOutBuffer && dict != Null && dstSize < WINDOW
      requires Updatable(mem[..], h, false, dstPtr, dstSize, hi) == true
      modifies this`dict, this`dictSize, tmpOutBuffer
      ensures Updated(mem[..], h, false, dstPtr, dstSize, hi, old(tmpOutBuffer[..]))
    {
      hide EndOf;
      if dict == InTmp {
        dictSize := AppendInTmp(tmpOutBuffer, dictSize, mem, dstPtr, dstSize, h);
      } else {
        dictSize := JoinInTmp(tmpOutBuffer, mem, dict.at, dictSize, dstPtr, dstSize, h);
        dict := InTmp;
      }
    }

    // ----- One compressed block -----

    /** The dictionary that LZ4_decompress_safe_usingDict is given: what is too long for an int is cut. */
    method DictArgument(mem: array<byte>, ghost h: seq<byte>) returns (bytes: seq<byte>)
      requires DictInside(mem.Length, 0, 0) && mem != tmpOutBuffer && EndOf(DictBytes(mem[..]), h)
      ensures EndOf(bytes, h) && |bytes| <= dictSize
      ensures dict == InTmp ==> bytes == tmpOutBuffer[dictSize - |bytes|..dictSize]
      ensures dict.InMem? ==> bytes == mem[dict.at + dictSize - |bytes|..dict.at + dictSize]
    {
      hide EndOf;
      var size := if dict != Null && dictSize > GB then WINDOW else dictSize;
      CutDict(DictBytes(mem[..]), size, h);
      DictEndAt(mem[..], size);
      match dict
      case Null => bytes := [];
      case InTmp => bytes := tmpOutBuffer[dictSize - size..dictSize];
      case InMem(at) => bytes := mem[at + dictSize - size..at + dictSize];
    }

    /** Where the last bytes of the dictionary are. */
    lemma DictEndAt(mem: seq<byte>, size: nat)
      requires DictInside(|mem|, 0, 0) && size <= dictSize
      ensures var end := DictBytes(mem)[|DictBytes(mem)| - size..];
              match dict
              case Null => end == []
              case InTmp => end == tmpOutBuffer[dictSize - size..dictSize]
              case InMem(at) => end == mem[at + dictSize - size..at + dictSize]
    {
    }

    // ----- The stages -----

    /** The two checks at the end of the frame are being kept up for the text `t`. */
    ghost predicate Tallied(t: seq<byte>)
      reads this`info, this`xxh, this`frameRemainingSize, this`owed
    {
      && (info.contentChecksum ==> xxh == t)
      && frameRemainingSize == (if info.contentSize == 0 then owed else (info.contentSize - |t|) % U64_SIZE)
      && (info.contentSize != 0 ==> owed == 0)
    }

    /** The counter at the first block. */
    ghost predicate Counted()
      reads this`info, this`frameRemainingSize, this`owed
    {
      frameRemainingSize == (if info.contentSize == 0 then owed else info.contentSize) && (info.contentSize != 0 ==> owed == 0)
    }

    /** The dictionary pointer has not been moved. */
    ghost predicate AtHome()
      reads this`dict, this`dictSize, this`home, this`homeSize
    {
      dict == home && dictSize == homeSize && dict != InTmp
    }

    /** The history of the next block is at hand. */
    ghost predicate DictKept(mem: seq<byte>, h: seq<byte>, lo: int, hi: int)
      reads this`dict, this`dictSize, this`tmpOutBuffer, tmpOutBuffer
    {
      DictInside(|mem|, lo, hi) && EndOf(DictBytes(mem), h)
    }

    /** The first `k` bytes of a buffer are the last ones that have been read. */
    static ghost predicate Stored(f: seq<byte>, buffer: array<byte>, k: nat, p: nat)
      reads buffer
    {
      k <= buffer.Length && k <= p <= |f| && buffer[..k] == f[p - k..p]
    }

    /** The size of a skippable frame is stored behind its magic number, up to `k`. */
    static ghost predicate SizeStored(f: seq<byte>, header: array<byte>, k: nat)
      reads header
    {
      4 <= k <= 8 <= header.Length && k <= |f| && header[4..k] == f[4..k]
    }

    static lemma SizeGrows(f: seq<byte>, header: array<byte>, p: nat, q: nat, was: seq<byte>, more: seq<byte>)
      requires 4 <= p <= q <= 8 <= header.Length && q <= |f| && |was| == p && was[4..] == f[4..p]
      requires header[..q] == was + more && more == f[p..q]
      ensures SizeStored(f, header, q) == true
    {
      assert header[4..q] == header[..q][4..] == was[4..] + more;
      SplitSlice(f, 4, p, q);
    }

    static lemma SizeLe32(f: seq<byte>, header: array<byte>)
      requires SizeStored(f, header, 8) == true
      ensures 8 <= |f| && 8 <= header.Length && Le32(header[..], 4) == Le32(f, 4)
    {
      hide Le32;
      assert header[..][4..8] == header[4..8];
      SameLe32(header[..], 4, f, 4);
    }

    static lemma NothingStored(f: seq<byte>, buffer: array<byte>, p: nat)
      requires p <= |f|
      ensures Stored(f, buffer, 0, p) == true
    {
    }

    static lemma StoredBounds(f: seq<byte>, buffer: array<byte>, k: nat, p: nat)
      requires Stored(f, buffer, k, p) == true
      ensures k <= buffer.Length && k <= p <= |f|
    {
    }

    /** A 4-byte field that has been stored. */
    static lemma StoredLe32(f: seq<byte>, buffer: array<byte>, p: nat)
      requires Stored(f, buffer, 4, p) == true
      ensures 4 <= p <= |f| && 4 <= buffer.Length && Le32(buffer[..], 0) == Le32(f, p - 4)
    {
      hide Le32;
      assert buffer[..][0..4] == buffer[..4];
      SameLe32(buffer[..], 0, f, p - 4);
    }

    /** Between the parts of a block, where nothing waits to be put out; `t` is the text so far. */
    ghost predicate Between(d: seq<byte>, t: seq<byte>, mem: seq<byte>, lo: int, hi: int)
      reads this`dict, this`dictSize, this`home, this`homeSize, this`tmpOutBuffer, this`tmpIn, this`maxBufferSize, tmpOutBuffer,
            this`info, this`maxBlockSize, this`tmpOut, this`xxh, this`frameRemainingSize, this`owed
    {
      && Ready() && (!info.linked ==> tmpOut == 0 && AtHome()) && Tallied(t) && DictKept(mem, HistoryOf(info, d, t), lo, hi)
    }

    /** A decoded block waits to be put out. */
    ghost predicate Flushing(r: Run, mem: seq<byte>, io: Call)
      requires io.Within(|mem|)
      reads this`dict, this`dictSize, this`home, this`homeSize, this`tmpOutBuffer, this`tmpIn, this`maxBufferSize, tmpOutBuffer,
            this`info, this`maxBlockSize, this`tmpOut, this`tmpOutSize, this`tmpOutStart, this`xxh, this`frameRemainingSize, this`owed
    {
      var t := r.Text(mem, io);
      && Ready() && (!info.linked ==> tmpOut == 0 && AtHome()) && DictInside(|mem|, io.dstPtr, io.dstEnd)
      && tmpOutStart <= tmpOutSize && tmpOut + tmpOutSize <= tmpOutBuffer.Length
      && Tallied(t + tmpOutBuffer[tmpOut + tmpOutStart..tmpOut + tmpOutSize])
      && (if info.linked then Known(mem, r.dictionary + t, true, tmpOutStart) else EndOf(DictBytes(mem), r.dictionary))
      && r.LeadsTo(Blocks(r.frame, r.Read(io), info, r.dictionary, t + tmpOutBuffer[tmpOut + tmpOutStart..tmpOut + tmpOutSize], r.room))
    }

    /** Before the blocks. */
    ghost predicate Starting(d: seq<byte>, t: seq<byte>, mem: seq<byte>, lo: int, hi: int)
      reads this`dict, this`dictSize, this`home, this`homeSize, this`tmpOutBuffer, tmpOutBuffer
    {
      t == [] && AtHome() && DictKept(mem, d, lo, hi)
    }

    /** The next block header is at `p`. */
    ghost predicate OnBlocks(r: Run, mem: seq<byte>, io: Call, p: int)
      requires io.Within(|mem|)
      reads this`dict, this`dictSize, this`home, this`homeSize, this`tmpOutBuffer, this`tmpIn, this`maxBufferSize, this`info, this`maxBlockSize,
            this`frameRemainingSize, this`owed, this`tmpOut, this`xxh, tmpOutBuffer
    {
      && Between(r.dictionary, r.Text(mem, io), mem, io.dstPtr, io.dstEnd) && 0 <= p
      && r.LeadsTo(Blocks(r.frame, p, info, r.dictionary, r.Text(mem, io), r.room))
    }

    /** The rest of an uncompressed block, `n` bytes, is at `p`. */
    ghost predicate OnRaw(r: Run, mem: seq<byte>, io: Call, p: int, n: nat)
      requires io.Within(|mem|)
      reads this`dict, this`dictSize, this`home, this`homeSize, this`tmpOutBuffer, this`tmpIn, this`maxBufferSize, this`info, this`maxBlockSize,
            this`frameRemainingSize, this`owed, this`tmpOut, this`xxh, this`blockChecksum, tmpOutBuffer
    {
      && Between(r.dictionary, r.Text(mem, io), mem, io.dstPtr, io.dstEnd) && 0 <= p
      && r.LeadsTo(RawBlock(r.frame, p, n, blockChecksum, info, r.dictionary, r.Text(mem, io), r.room))
    }

    /** A compressed block of `n` bytes is at `p`. */
    ghost predicate OnPacked(r: Run, mem: seq<byte>, io: Call, p: int, n: nat)
      requires io.Within(|mem|)
      reads this`dict, this`dictSize, this`home, this`homeSize, this`tmpOutBuffer, this`tmpIn, this`maxBufferSize, this`info, this`maxBlockSize,
            this`frameRemainingSize, this`owed, this`tmpOut, this`xxh, tmpOutBuffer
    {
      && Between(r.dictionary, r.Text(mem, io), mem, io.dstPtr, io.dstEnd) && 0 <= p
      && r.LeadsTo(PackedBlock(r.frame, p, n, info, r.dictionary, r.Text(mem, io), r.room))
    }

    /** The end of the frame, behind the end mark, is at `p`. */
    ghost predicate OnSuffix(r: Run, mem: seq<byte>, io: Call, p: int)
      requires io.Within(|mem|)
      reads this`tmpOutBuffer, this`tmpIn, this`maxBufferSize, this`info, this`maxBlockSize, this`frameRemainingSize, this`owed, this`xxh
    {
      && Ready() && Tallied(r.Text(mem, io)) && 0 <= p && r.LeadsTo(Suffix(r.frame, p, info, r.Text(mem, io)))
    }

    /** In front of the header, or within it. */
    ghost predicate InHeader(r: Run, mem: seq<byte>, io: Call)
      requires io.Within(|mem|)
      reads this`dict, this`dictSize, this`home, this`homeSize, this`tmpOutBuffer, this`tmpIn, this`maxBufferSize, this`info, this`maxBlockSize,
            this`frameRemainingSize, this`owed, this`tmpInSize, this`tmpInTarget, this`tmpOut, this`xxh, this`blockChecksum, tmpOutBuffer, header
    {
      && r.Proper() && Starting(r.dictionary, r.Text(mem, io), mem, io.dstPtr, io.dstEnd) && frameRemainingSize == r.left
      && r.Read(io) == tmpInSize < tmpInTarget <= MAX_HEADER
      && Stored(r.frame, header, tmpInSize, tmpInSize)
      && (tmpInTarget == MIN_HEADER || (MIN_HEADER <= tmpInSize && ReadHeader(r.frame[..tmpInSize]) == TooShort(tmpInTarget)))
    }

    /** Behind the header. */
    ghost predicate InInit(r: Run, mem: seq<byte>, io: Call)
      requires io.Within(|mem|)
      reads this`dict, this`dictSize, this`home, this`homeSize, this`tmpOutBuffer, this`tmpIn, this`maxBufferSize, this`info, this`maxBlockSize,
            this`frameRemainingSize, this`owed, this`tmpInSize, this`tmpInTarget, this`tmpOut, this`xxh, this`blockChecksum, tmpOutBuffer
    {
      && Starting(r.dictionary, r.Text(mem, io), mem, io.dstPtr, io.dstEnd) && info.Valid() && maxBlockSize == info.MaxBlockSize() && Counted()
      && r.LeadsTo(Blocks(r.frame, r.Read(io), info, r.dictionary, [], r.room))
    }

    /** In front of the size of a skippable frame, or within it. */
    ghost predicate InSkippableSize(r: Run, mem: seq<byte>, io: Call)
      requires io.Within(|mem|)
      reads this`dict, this`dictSize, this`home, this`homeSize, this`tmpOutBuffer, this`tmpIn, this`maxBufferSize, this`info, this`maxBlockSize,
            this`frameRemainingSize, this`owed, this`tmpInSize, this`tmpInTarget, this`tmpOut, this`xxh, this`blockChecksum, tmpOutBuffer, header
    {
      && Starting(r.dictionary, r.Text(mem, io), mem, io.dstPtr, io.dstEnd) && frameRemainingSize == r.left && MIN_HEADER <= |r.frame| && r.LeadsTo(SkippableFrame(r.frame)) && ReadHeader(r.frame).Skippable?
      && 4 <= r.Read(io) == tmpInSize < 8 && tmpInTarget == 8 && SizeStored(r.frame, header, tmpInSize)
    }

    /** Within a skippable frame. */
    ghost predicate InSkippable(r: Run, mem: seq<byte>, io: Call)
      requires io.Within(|mem|)
      reads this`dict, this`dictSize, this`home, this`homeSize, this`tmpOutBuffer, this`tmpIn, this`maxBufferSize, this`info, this`maxBlockSize,
            this`frameRemainingSize, this`owed, this`tmpInSize, this`tmpInTarget, this`tmpOut, this`xxh, this`blockChecksum, tmpOutBuffer
    {
      && Starting(r.dictionary, r.Text(mem, io), mem, io.dstPtr, io.dstEnd) && frameRemainingSize == r.left
      && r.LeadsTo(if r.Read(io) + tmpInTarget > |r.frame| then Incomplete else Complete([], r.Read(io) + tmpInTarget)) && ReadHeader(r.frame).Skippable?
    }

    // ----- Where the context is in the frame -----

    /** A block header is at `p`. */
    ghost predicate HeaderAt(f: seq<byte>, p: int)
      reads this`info
    {
      0 <= p && ReadHeader(f).Header? && info == ReadHeader(f).info && Reaches(f, ReadHeader(f).size, info, p)
    }

    /** `p` is in the block with its header at `i`, which ends at `e`. */
    ghost predicate InBlockAt(f: seq<byte>, i: nat, p: int, e: int, raw: bool)
      reads this`info
    {
      && HeaderAt(f, i) && i + BLOCK_HEADER <= |f| && i + BLOCK_HEADER <= p && Le32(f, i) != 0 && raw == (Le32(f, i) >= UNCOMPRESSED_FLAG)
      && BlockEnd(f, i, info) == e
    }

    ghost predicate InBlock(f: seq<byte>, p: int, e: int, raw: bool)
      reads this`info
    {
      exists i: nat :: InBlockAt(f, i, p, e, raw)
    }

    /** The end mark is in front of `p`. */
    ghost predicate BehindBlocks(f: seq<byte>, p: int)
      reads this`info
    {
      BLOCK_HEADER <= p <= |f| && HeaderAt(f, p - BLOCK_HEADER) && Le32(f, p - BLOCK_HEADER) == 0
    }

    /** What has been read ends at `p`, in the part of the frame that belongs to the stage. */
    ghost predicate Placed(f: seq<byte>, p: int)
      reads this`dStage, this`info, this`tmpInSize, this`tmpInTarget
    {
      match dStage
      case Init => HeaderAt(f, p)
      case GetBlockHeader => HeaderAt(f, p)
      case StoreBlockHeader => HeaderAt(f, p - tmpInSize)
      case CopyDirect => InBlock(f, p, p + tmpInTarget + info.ChecksumSize(), true)
      case GetBlockChecksum => InBlock(f, p, p - tmpInSize + CHECKSUM, true)
      case GetCBlock => InBlock(f, p, p + tmpInTarget, false)
      case StoreCBlock => InBlock(f, p, p - tmpInSize + tmpInTarget, false)
      case FlushOut => HeaderAt(f, p)
      case GetSuffix => BehindBlocks(f, p)
      case StoreSuffix => BehindBlocks(f, p - tmpInSize)
      case SkipSkippable => 8 <= |f| && 8 <= p && p + tmpInTarget == 8 + Le32(f, 4)
      case _ => true
    }

    /** The bytes that are asked for. */
    function Hint(): nat
      reads this`dStage, this`info, this`tmpInSize, this`tmpInTarget
    {
      match dStage
      case GetFrameHeader => MIN_HEADER
      case StoreFrameHeader => Max(tmpInTarget - tmpInSize, 0) + BLOCK_HEADER
      case StoreBlockHeader => Max(BLOCK_HEADER - tmpInSize, 0)
      case CopyDirect => tmpInTarget + info.ChecksumSize() + BLOCK_HEADER
      case GetBlockChecksum => 1
      case GetCBlock => BLOCK_HEADER + tmpInTarget
      case StoreCBlock => Max(tmpInTarget - tmpInSize, 0) + info.ChecksumSize() + BLOCK_HEADER
      case FlushOut => BLOCK_HEADER
      case StoreSuffix => Max(CHECKSUM - tmpInSize, 0)
      case StoreSFrameSize => Max(tmpInTarget - tmpInSize, 0)
      case SkipSkippable => tmpInTarget
      case _ => 0
    }

    /** What that means for each stage. */
    lemma PlacedIs(f: seq<byte>, p: int)
      ensures Placed(f, p) == match dStage
              case Init => HeaderAt(f, p)
              case GetBlockHeader => HeaderAt(f, p)
              case StoreBlockHeader => HeaderAt(f, p - tmpInSize)
              case CopyDirect => InBlock(f, p, p + tmpInTarget + info.ChecksumSize(), true)
              case GetBlockChecksum => InBlock(f, p, p - tmpInSize + CHECKSUM, true)
              case GetCBlock => InBlock(f, p, p + tmpInTarget, false)
              case StoreCBlock => InBlock(f, p, p - tmpInSize + tmpInTarget, false)
              case FlushOut => HeaderAt(f, p)
              case GetSuffix => BehindBlocks(f, p)
              case StoreSuffix => BehindBlocks(f, p - tmpInSize)
              case SkipSkippable => 8 <= |f| && 8 <= p && p + tmpInTarget == 8 + Le32(f, 4)
              case _ => true
      ensures dStage == GetCBlock ==> Hint() == BLOCK_HEADER + tmpInTarget
      ensures dStage == GetBlockChecksum ==> Hint() == 1
      ensures dStage == FlushOut ==> Hint() == BLOCK_HEADER
    {
      hide HeaderAt, InBlock, BehindBlocks;
    }

    lemma PlacedNext(f: seq<byte>, p: int)
      requires dStage == GetBlockHeader && HeaderAt(f, p) == true
      ensures Placed(f, p) == true
    {
      hide HeaderAt;
    }

    lemma PlacedInRaw(f: seq<byte>, p: int, e: int)
      requires InBlock(f, p, e, true) == true
      ensures dStage == CopyDirect && e == p + tmpInTarget + info.ChecksumSize() ==> Placed(f, p) == true && Hint() == tmpInTarget + info.ChecksumSize() + BLOCK_HEADER
      ensures dStage == GetBlockChecksum && e == p - tmpInSize + CHECKSUM ==> Placed(f, p) == true && Hint() == 1
    {
      hide InBlock;
    }

    lemma FirstHeader(f: seq<byte>, p: int)
      requires ReadHeader(f).Header? && info == ReadHeader(f).info && p == ReadHeader(f).size
      ensures HeaderAt(f, p) == true
    {
      hide ReadHeader;
    }

    /** What a block header leads to. */
    lemma PastHeader(f: seq<byte>, p: int)
      requires BLOCK_HEADER <= p <= |f| && HeaderAt(f, p - BLOCK_HEADER) == true
      ensures var w := Le32(f, p - BLOCK_HEADER);
              if w == 0 then BehindBlocks(f, p) == true else InBlock(f, p, p + w % UNCOMPRESSED_FLAG + info.ChecksumSize(), w >= UNCOMPRESSED_FLAG) == true
    {
      hide HeaderAt, Le32;
      if Le32(f, p - BLOCK_HEADER) != 0 {
        assert InBlockAt(f, p - BLOCK_HEADER, p, BlockEnd(f, p - BLOCK_HEADER, info), Le32(f, p - BLOCK_HEADER) >= UNCOMPRESSED_FLAG);
      }
    }

    lemma FurtherIn(f: seq<byte>, p: int, p': int, e: int, raw: bool)
      requires InBlock(f, p, e, raw) == true && p <= p'
      ensures InBlock(f, p', e, raw) == true
    {
      hide HeaderAt, Le32, BlockEnd;
      var i: nat :| InBlockAt(f, i, p, e, raw);
      assert InBlockAt(f, i, p', e, raw);
    }

    /** Behind a block there is another header. */
    lemma BehindBlock(f: seq<byte>, p: int, e: int, raw: bool)
      requires InBlock(f, p, e, raw) == true
      ensures HeaderAt(f, e) == true
    {
      hide Le32, BlockEnd, ReadHeader;
      var i: nat :| InBlockAt(f, i, p, e, raw);
      ReachesNext(f, ReadHeader(f).size, info, i);
    }

    /** What holds whenever a stage begins. */
    ghost predicate At(r: Run, mem: seq<byte>, io: Call)
      reads this, tmpIn, tmpOutBuffer, header
    {
      && io.Within(|mem|) && r.Matches(io) && Buffers() && owed == r.Owed() && r.Fits(io) && Placed(r.frame, r.Read(io))
      && match dStage
         case GetFrameHeader => r.Proper() && Starting(r.dictionary, r.Text(mem, io), mem, io.dstPtr, io.dstEnd) && frameRemainingSize == r.left && r.Read(io) == 0
         case StoreFrameHeader => InHeader(r, mem, io)
         case Init => InInit(r, mem, io)
         case GetBlockHeader => OnBlocks(r, mem, io, r.Read(io))
         case StoreBlockHeader =>
           tmpInSize < BLOCK_HEADER && Stored(r.frame, tmpIn, tmpInSize, r.Read(io)) && OnBlocks(r, mem, io, r.Read(io) - tmpInSize)
         case CopyDirect => tmpInTarget <= maxBlockSize && OnRaw(r, mem, io, r.Read(io), tmpInTarget)
         case GetBlockChecksum =>
           && info.blockChecksum && tmpInSize < CHECKSUM && Stored(r.frame, header, tmpInSize, r.Read(io))
           && OnRaw(r, mem, io, r.Read(io) - tmpInSize, 0)
         case GetCBlock =>
           && info.ChecksumSize() < tmpInTarget <= maxBlockSize + info.ChecksumSize()
           && OnPacked(r, mem, io, r.Read(io), tmpInTarget - info.ChecksumSize())
         case StoreCBlock =>
           && info.ChecksumSize() < tmpInTarget <= maxBlockSize + info.ChecksumSize()
           && tmpInSize < tmpInTarget && Stored(r.frame, tmpIn, tmpInSize, r.Read(io))
           && OnPacked(r, mem, io, r.Read(io) - tmpInSize, tmpInTarget - info.ChecksumSize())
         case FlushOut => Flushing(r, mem, io)
         case GetSuffix => OnSuffix(r, mem, io, r.Read(io))
         case StoreSuffix =>
           && tmpInSize < CHECKSUM && Stored(r.frame, tmpIn, tmpInSize, r.Read(io)) && OnSuffix(r, mem, io, r.Read(io) - tmpInSize)
           && info.contentChecksum && frameRemainingSize == 0
         case GetSFrameSize =>
           && Starting(r.dictionary, r.Text(mem, io), mem, io.dstPtr, io.dstEnd) && frameRemainingSize == r.left && r.Read(io) == 4
           && MIN_HEADER <= |r.frame| && r.LeadsTo(SkippableFrame(r.frame)) && ReadHeader(r.frame).Skippable?
         case StoreSFrameSize => InSkippableSize(r, mem, io)
         case SkipSkippable => InSkippable(r, mem, io)
    }

    /** The frame has been decoded, and the context is as new. */
    ghost predicate Finished(r: Run, mem: seq<byte>, io: Call)
      reads this
    {
      && io.Within(|mem|) && r.Matches(io) && r.LeadsTo(Complete(r.Text(mem, io), r.Read(io)))
      && Idle() && r.Leaves(frameRemainingSize) && r.Owed() == 0
    }

    /** The memory of the caller is apart from the decoder's buffers. */
    ghost predicate Apart(mem: array<byte>)
      reads this`tmpIn, this`tmpOutBuffer
    {
      mem != header && mem != tmpIn && mem != tmpOutBuffer
    }

    /** In front of the content of a compressed block there is room. */
    ghost predicate Roomy(r: Run, mem: seq<byte>, io: Call)
      requires io.Within(|mem|)
      reads this`dStage
    {
      dStage == GetCBlock || dStage == StoreCBlock ==> !r.room.Reached(|r.Text(mem, io)|)
    }

    /** What a stage that began at `io0` with `left` bytes of input and rank `rank` has done. */
    ghost predicate Went(r: Run, mem: seq<byte>, io0: Call, io: Call, left: int, rank: nat, status: Status)
      reads this, tmpIn, tmpOutBuffer, header
    {
      && io == io0.(srcPtr := io.srcPtr, dstPtr := io.dstPtr) && io0.srcPtr <= io.srcPtr && io0.dstPtr <= io.dstPtr
      && match status
         case Fail(e) => r.Rejects(e)
         case Again => At(r, mem, io) && Roomy(r, mem, io) && (io.SrcLeft() < left || (io.SrcLeft() == left && Rank(dStage) < rank))
         case Stop(hint) => if hint == 0 then Finished(r, mem, io) else At(r, mem, io) && Resting(dStage, tmpInTarget) && Blocked(io) && (dStage == StoreCBlock ==> Roomy(r, mem, io)) && hint == Hint()
    }

    /** There is output that could not be handed on, or a compressed block that has not been looked at. */
    predicate Holding()
      reads this`dStage, this`tmpInTarget, this`tmpOutStart, this`tmpOutSize
    {
      (dStage == FlushOut && tmpOutStart < tmpOutSize) || (dStage == CopyDirect && 0 < tmpInTarget) || dStage == GetCBlock
    }

    /** A call stops for want of input, or of room for the output that is there. */
    predicate Blocked(io: Call)
      reads this`dStage, this`tmpInTarget, this`tmpOutStart, this`tmpOutSize
    {
      io.SrcLeft() == 0 || (io.dstPtr == io.dstEnd && Holding())
    }

    lemma OnParts(r: Run, size: int, io0: Call, io: Call)
      requires On(r, size, io0, io) == true
      ensures io.Within(size) && r.Matches(io) && Buffers() == true && r.Fits(io)
      ensures io == io0.(srcPtr := io.srcPtr, dstPtr := io.dstPtr) && io0.srcPtr <= io.srcPtr && io0.dstPtr <= io.dstPtr
    {
    }

    lemma HeaderBuffer()
      requires Buffers() == true
      ensures header.Length == MAX_HEADER && header != tmpIn && header != tmpOutBuffer && tmpIn != tmpOutBuffer && CHECKSUM == 4 && MAX_HEADER == 19
    {
    }

    /** Taking input changes nothing else. */
    lemma Took(r: Run, size: int, io0: Call, io1: Call, io: Call, n: nat)
      requires On(r, size, io0, io1) == true && io == io1.(srcPtr := io1.srcPtr + n) && n <= io1.SrcLeft()
      ensures On(r, size, io0, io) == true && io.Within(size) && r.Matches(io) && r.Read(io) == r.Read(io1) + n && io.SrcLeft() == io1.SrcLeft() - n
    {
    }

    lemma OnStill(r: Run, size: int, io0: Call, io1: Call, io: Call)
      requires On(r, size, io0, io1) == true && io.Within(size) && r.Matches(io) && io1.dstPtr <= io.dstPtr && io == io1.(dstPtr := io.dstPtr)
      ensures On(r, size, io0, io) == true
    {
    }

    lemma ApartParts(mem: array<byte>)
      requires Apart(mem)
      ensures mem != header && mem != tmpIn && mem != tmpOutBuffer
    {
    }

    lemma DictInsideLess(size: int, lo: int, lo': int, hi: int)
      requires DictInside(size, lo, hi) && lo <= lo'
      ensures DictInside(size, lo', hi)
    {
    }

    lemma DictInsideAny(size: int, lo: int, hi: int)
      requires DictInside(size, lo, hi)
      ensures DictInside(size, 0, 0)
    {
    }

    lemma DictInsideTmp(size: int, lo: int, hi: int)
      requires DictInside(size, 0, 0) && dict == InTmp
      ensures DictInside(size, lo, hi)
    {
    }

    lemma HeldBack(io: Call)
      requires dStage == FlushOut && tmpOutStart < tmpOutSize && io.DstLeft() == 0
      ensures Blocked(io)
    {
    }

    /** The output and the buffers of a call, and how far it has come. */
    ghost predicate On(r: Run, size: int, io0: Call, io: Call)
      reads this`tmpIn, this`tmpOutBuffer, this`maxBufferSize, this`owed
    {
      && io.Within(size) && r.Matches(io) && Buffers() && owed == r.Owed() && r.Fits(io)
      && io == io0.(srcPtr := io.srcPtr, dstPtr := io.dstPtr) && io0.srcPtr <= io.srcPtr && io0.dstPtr <= io.dstPtr
    }

    /** Takes input, as far as there is any, until `target` bytes are stored in a buffer. */
    static method Fill(ghost r: Run, buffer: array<byte>, size: nat, target: nat, io: Call) returns (n: nat, io': Call)
      requires size <= target <= buffer.Length && r.Matches(io) && Stored(r.frame, buffer, size, r.Read(io)) == true
      modifies buffer
      ensures n == Min(target - size, io.SrcLeft()) && io' == io.(srcPtr := io.srcPtr + n)
      ensures r.Matches(io') && Stored(r.frame, buffer, size + n, r.Read(io'))
    {
      n := Min(target - size, io.SrcLeft());
      StoreBytes(buffer, size, io.src, io.srcPtr, n);
      ReadOn(r, io, size, n);
      io' := io.(srcPtr := io.srcPtr + n);
    }

    lemma Continuing(r: Run, mem: seq<byte>, io0: Call, io: Call, left: int, rank: nat)
      requires io == io0.(srcPtr := io.srcPtr, dstPtr := io.dstPtr) && io0.srcPtr <= io.srcPtr && io0.dstPtr <= io.dstPtr
      requires At(r, mem, io) == true && dStage != GetCBlock && dStage != StoreCBlock && (io.SrcLeft() < left || (io.SrcLeft() == left && Rank(dStage) < rank))
      ensures Went(r, mem, io0, io, left, rank, Again) == true
    {
      AtWithin(r, mem, io);
      hide At;
    }

    lemma AtWithin(r: Run, mem: seq<byte>, io: Call)
      requires At(r, mem, io) == true
      ensures io.Within(|mem|)
    {
    }

    lemma Failing(r: Run, mem: seq<byte>, io0: Call, io: Call, left: int, rank: nat, e: Error)
      requires io == io0.(srcPtr := io.srcPtr, dstPtr := io.dstPtr) && io0.srcPtr <= io.srcPtr && io0.dstPtr <= io.dstPtr
      requires r.Rejects(e)
      ensures Went(r, mem, io0, io, left, rank, Fail(e)) == true
    {
    }

    lemma FlawRejects(r: Run, flaw: Flaw, e: Error)
      requires r.Flawed(flaw) == true && Reports(e, flaw, r.frame) == true
      ensures r.Rejects(e)
    {
      hide Reports, Run.Owed;
    }

    lemma Errors(f: seq<byte>)
      ensures Reports(MaxBlockSizeInvalid, BlockTooLong, f) && Reports(BlockChecksumInvalid, BlockChecksumFlaw, f) && Reports(ContentChecksumInvalid, ChecksumFlaw, f)
      ensures Reports(Generic, BlockFlaw, f) && Reports(DecompressionFailed, BlockFlaw, f)
    {
    }

    /** The context after the header at the front of `src` has been read. */
    ghost predicate AtHeader(h: Header, src: seq<byte>, fromHeader: bool, status: Status, hSize: nat, was: nat)
      reads this`info, this`maxBlockSize, this`frameRemainingSize, this`dStage, this`tmpInSize, this`tmpInTarget, header
    {
      match h
      case Header(i, size) =>
        && status == Again && hSize == size && dStage == Init && info == i && maxBlockSize == i.MaxBlockSize()
        && frameRemainingSize == (if Announces(src) then i.contentSize else was)
      case Skippable =>
        && status == Again && frameRemainingSize == was
        && if fromHeader then
             hSize == |src| == tmpInSize && dStage == StoreSFrameSize && tmpInTarget == 8 && |src| <= header.Length && header[..|src|] == src
           else
             hSize == 4 && dStage == GetSFrameSize
      case TooShort(size) =>
        && status == Again && hSize == |src| == tmpInSize && dStage == StoreFrameHeader && tmpInTarget == size
        && |src| <= header.Length && header[..|src|] == src && frameRemainingSize == was
      case BadHeader => status.Fail? && status.error != FrameHeaderIncomplete && Explains(status.error, src) == true
    }

    /** LZ4F_decodeHeader. The bytes come from the caller, or have been stored in `header`. */
    method DecodeHeader(src: seq<byte>, fromHeader: bool) returns (status: Status, hSize: nat)
      requires header.Length == MAX_HEADER && MIN_HEADER <= |src|
      requires fromHeader || ReadHeader(src).TooShort? ==> |src| <= MAX_HEADER
      requires fromHeader ==> header[..|src|] == src
      modifies this`info, this`maxBlockSize, this`frameRemainingSize, this`dStage, this`tmpInSize, this`tmpInTarget, header
      ensures AtHeader(ReadHeader(src), src, fromHeader, status, hSize, old(frameRemainingSize)) == true
    {
      hide Le32, Le64, HeaderChecksumHolds;
      info := Info(true, false, false, 0, 0, 0);
      if Le32(src, 0) / 16 * 16 == MAGIC_SKIPPABLE {
        if fromHeader {
          tmpInSize, tmpInTarget, dStage := |src|, 8, StoreSFrameSize;
          return Again, |src|;
        }
        dStage := GetSFrameSize;
        return Again, 4;
      }
      if Le32(src, 0) != MAGIC { return Fail(FrameTypeUnknown), 0; }
      var flg := src[4];
      if flg / 2 % 2 != 0 { return Fail(ReservedFlagSet), 0; }
      if flg / 64 % 4 != 1 { return Fail(HeaderVersionWrong), 0; }
      var frameHeaderSize := HeaderSize(flg);
      if |src| < frameHeaderSize {
        if !fromHeader { StoreBytes(header, 0, src, 0, |src|); }
        tmpInSize, tmpInTarget, dStage := |src|, frameHeaderSize, StoreFrameHeader;
        return Again, |src|;
      }
      var bd := src[5];
      if bd / 128 % 2 != 0 { return Fail(ReservedFlagSet), 0; }
      if bd / 16 % 8 < 4 { return Fail(MaxBlockSizeInvalid), 0; }
      if bd % 16 != 0 { return Fail(ReservedFlagSet), 0; }
      if !HeaderChecksumHolds(src, frameHeaderSize) { return Fail(HeaderChecksumInvalid), 0; }
      info := Info(flg / 32 % 2 == 0, flg / 16 % 2 == 1, flg / 4 % 2 == 1, 0, bd / 16 % 8, 0);
      maxBlockSize := info.MaxBlockSize();
      if flg / 8 % 2 == 1 {
        frameRemainingSize := Le64(src, 6);
        info := info.(contentSize := frameRemainingSize);
      }
      if flg % 2 == 1 { info := info.(dictID := Le32(src, frameHeaderSize - 5)); }
      dStage := Init;
      return Again, frameHeaderSize;
    }

    /** LZ4F_headerSize. */
    static function HeaderSizeOf(src: seq<byte>): (r: (Status, nat)) {
      if |src| < 5 then (Fail(FrameHeaderIncomplete), 0)
      else if Le32(src, 0) / 16 * 16 == MAGIC_SKIPPABLE then (Again, 8)
      else if Le32(src, 0) != MAGIC then (Fail(FrameTypeUnknown), 0)
      else (Again, HeaderSize(src[4]))
    }

    /** LZ4F_getFrameInfo, in front of a frame: reads the header, and nothing else. */
    method GetFrameInfo(src: seq<byte>) returns (status: Status, srcSize: nat)
      requires dStage == GetFrameHeader && header.Length == MAX_HEADER
      modifies this`info, this`maxBlockSize, this`frameRemainingSize, this`dStage, this`tmpInSize, this`tmpInTarget, header
      ensures srcSize <= |src| && (status.Fail? ==> srcSize == 0)
      ensures match ReadHeader(src)
              case Header(i, size) =>
                && status == Stop(BLOCK_HEADER) && srcSize == size && dStage == Init && info == i && maxBlockSize == i.MaxBlockSize()
                && frameRemainingSize == if Announces(src) then i.contentSize else old(frameRemainingSize)
              case Skippable =>
                frameRemainingSize == old(frameRemainingSize) && if |src| < 8 then status == Fail(FrameHeaderIncomplete) else status == Stop(BLOCK_HEADER) && srcSize == 4 && dStage == GetSFrameSize
              case TooShort(_) => status.Fail? && Explains(status.error, src) == true
              case BadHeader => status.Fail? && Explains(status.error, src) == true
    {
      var h := HeaderSizeOf(src);
      HeaderSizeIs(src);
      hide Le32, Le64, HeaderChecksumHolds, ReadHeader, Explains, HeaderSize;
      if h.0.Fail? { return h.0, 0; }
      if |src| < h.1 { return Fail(FrameHeaderIncomplete), 0; }
      status, srcSize := DecodeHeader(src[..h.1], false);
      if status.Fail? {
        if !ReadHeader(src).Skippable? { ExplainsMore(status.error, src, h.1); }
        return status, 0;
      }
      status := Stop(BLOCK_HEADER);
    }

    /** What the bytes of the header explain, all of the input does. */
    static lemma ExplainsMore(e: Error, src: seq<byte>, n: nat)
      requires MIN_HEADER <= n <= |src| && e != FrameHeaderIncomplete && Explains(e, src[..n])
      ensures Explains(e, src) == true
    {
      hide Le32, HeaderChecksumHolds;
      Le32Prefix(src, n, 0);
      if HeaderSize(src[4]) <= n { ChecksumPrefix(src, n, HeaderSize(src[4])); }
    }

    static predicate HeaderSizeExplained(src: seq<byte>) {
      var h := HeaderSizeOf(src);
      if h.0.Fail? then Explains(h.0.error, src)
      else if |src| < h.1 then Explains(FrameHeaderIncomplete, src)
      else MIN_HEADER <= h.1 && HeaderSize(src[4]) == h.1
    }

    static lemma HeaderSizeIs(src: seq<byte>)
      ensures var h := HeaderSizeOf(src);
              match ReadHeader(src)
              case Header(i, size) => h == (Again, size) && ReadHeader(src[..size]) == ReadHeader(src) && Announces(src[..size]) == Announces(src)
              case Skippable => h == (Again, 8) && (8 <= |src| ==> ReadHeader(src[..8]) == Skippable)
              case TooShort(n) => h.0.Fail? || |src| < h.1
              case BadHeader => h.0.Fail? || |src| < h.1 || ReadHeader(src[..h.1]).BadHeader?
      ensures !ReadHeader(src).Skippable? ==> HeaderSizeExplained(src) == true
    {
      hide Le64, HeaderChecksumHolds;
      var h := HeaderSizeOf(src);
      if !h.0.Fail? && h.1 <= |src| {
        Le32Prefix(src, h.1, 0);
        ReadHeaderPrefix(src, h.1);
      }
    }

    lemma ToInit(r: Run, mem: seq<byte>, io: Call)
      requires Placed(r.frame, r.Read(io)) == true
      requires io.Within(|mem|) && Starting(r.dictionary, r.Text(mem, io), mem, io.dstPtr, io.dstEnd) == true
      requires info.Valid() && maxBlockSize == info.MaxBlockSize() && Counted()
      requires r.meaning == Blocks(r.frame, r.Read(io), info, r.dictionary, [], r.room)
      ensures InInit(r, mem, io) == true
    {
      hide Blocks, Starting, Frame, HeaderAt, InBlock, BehindBlocks;
    }

    lemma ToHeader(r: Run, mem: seq<byte>, io: Call)
      requires io.Within(|mem|) && Starting(r.dictionary, r.Text(mem, io), mem, io.dstPtr, io.dstEnd) == true && Buffers() == true && r.Proper()
      requires frameRemainingSize == r.left
      requires MIN_HEADER <= tmpInSize == r.Read(io) <= |r.frame| && tmpInSize < tmpInTarget <= MAX_HEADER && header[..tmpInSize] == r.frame[..tmpInSize]
      requires ReadHeader(r.frame[..tmpInSize]) == TooShort(tmpInTarget)
      ensures InHeader(r, mem, io) == true
    {
      hide Starting, ReadHeader;
      assert r.frame[0..tmpInSize] == r.frame[..tmpInSize];
    }

    lemma ToSkippableSize(r: Run, mem: seq<byte>, io: Call)
      requires io.Within(|mem|) && Starting(r.dictionary, r.Text(mem, io), mem, io.dstPtr, io.dstEnd) == true && Buffers() == true
      requires frameRemainingSize == r.left
      requires MIN_HEADER == tmpInSize == r.Read(io) <= |r.frame| && header[..tmpInSize] == r.frame[..tmpInSize] && tmpInTarget == 8
      requires r.meaning == SkippableFrame(r.frame) && ReadHeader(r.frame).Skippable?
      ensures InSkippableSize(r, mem, io) == true
    {
      hide Starting, SkippableFrame, Frame;
      assert header[4..tmpInSize] == header[..tmpInSize][4..] == r.frame[..tmpInSize][4..] == r.frame[4..tmpInSize];
    }

    /** What a decoded header leads to. */
    lemma HeaderRead(r: Run, mem: seq<byte>, io: Call, n: nat, hSize: nat, fromHeader: bool)
      requires io.Within(|mem|) && r.Matches(io) && r.Proper() && Buffers() == true && MIN_HEADER <= n <= |r.frame| && owed == r.Owed() && r.Fits(io)
      requires Starting(r.dictionary, r.Text(mem, io), mem, io.dstPtr, io.dstEnd) == true
      requires match ReadHeader(r.frame[..n])
               case Header(i, size) =>
                 && hSize == size && dStage == Init && info == i && maxBlockSize == i.MaxBlockSize()
                 && frameRemainingSize == (if Announces(r.frame[..n]) then i.contentSize else r.left) && r.Read(io) == size
               case Skippable =>
                 && frameRemainingSize == r.left
                 && if fromHeader then
                      n == tmpInSize == r.Read(io) == MIN_HEADER && dStage == StoreSFrameSize && tmpInTarget == 8 && header[..n] == r.frame[..n]
                    else
                      r.Read(io) == 4 && dStage == GetSFrameSize
               case TooShort(size) =>
                 && n == tmpInSize == r.Read(io) && dStage == StoreFrameHeader && tmpInTarget == size
                 && header[..n] == r.frame[..n] && frameRemainingSize == r.left
               case BadHeader => true
      ensures ReadHeader(r.frame[..n]).BadHeader? ==> r.meaning == Invalid(HeaderFlaw)
      ensures !ReadHeader(r.frame[..n]).BadHeader? ==> At(r, mem, io) == true && dStage != GetCBlock && dStage != StoreCBlock
    {
      hide Blocks, SkippableFrame, ReadHeader, Starting, InInit, InSkippableSize, InHeader;
      match ReadHeader(r.frame[..n])
      case Header(i, size) =>
        ReadHeaderPrefix(r.frame, n);
        SizeAnnounced(r.frame);
        FirstHeader(r.frame, r.Read(io));
        ToInit(r, mem, io);
      case Skippable =>
        ReadHeaderPrefix(r.frame, n);
        if fromHeader { ToSkippableSize(r, mem, io); }
      case TooShort(_) => ToHeader(r, mem, io);
      case BadHeader => ReadHeaderPrefix(r.frame, n);
    }

    lemma WaitForHeader(r: Run, mem: seq<byte>, io0: Call, io: Call, left: int, rank: nat, hint: nat)
      requires hint == Hint()
      requires On(r, |mem|, io0, io) == true && dStage == StoreFrameHeader && hint != 0 && io.SrcLeft() == 0 && InHeader(r, mem, io) == true
      ensures Went(r, mem, io0, io, left, rank, Stop(hint)) == true
    {
      hide InHeader;
    }

    /** The stage dstage_storeFrameHeader. */
    method DoStoreFrameHeader(ghost r: Run, mem: array<byte>, ghost io0: Call, io1: Call, ghost left: int, ghost rank: nat)
      returns (status: Status, io: Call)
      requires Apart(mem) && On(r, mem.Length, io0, io1) == true && io1.SrcLeft() <= left && dStage == StoreFrameHeader && InHeader(r, mem[..], io1) == true
      modifies this`info, this`maxBlockSize, this`frameRemainingSize, this`dStage, this`tmpInSize, this`tmpInTarget, header
      ensures Went(r, mem[..], io0, io, left, rank, status) == true
    {
      hide At, Went, ReadHeader, Starting, Frame, Run.Proper, Run.Owed;
      io := io1;
      ghost var f, p, target := r.frame, tmpInSize, tmpInTarget;
      var sizeToCopy;
      sizeToCopy, io := Fill(r, header, tmpInSize, tmpInTarget, io);
      tmpInSize := tmpInSize + sizeToCopy;
      if tmpInSize < tmpInTarget {
        if target != MIN_HEADER { TooShortStays(f, p, tmpInSize); }
        status := Stop((tmpInTarget - tmpInSize) + BLOCK_HEADER);
        WaitForHeader(r, mem[..], io0, io, left, rank, status.hint);
        return;
      }
      if target != MIN_HEADER { TooShortEnds(f, p, target); }
      assert f[tmpInSize - tmpInSize..tmpInSize] == f[..target];
      assert header[..target] == f[..target];
      status := DecodeStored(r, mem, io0, io, left, rank);
    }

    /** The header, or the first bytes of it, have been stored. */
    method DecodeStored(ghost r: Run, mem: array<byte>, ghost io0: Call, io: Call, ghost left: int, ghost rank: nat) returns (status: Status)
      requires Apart(mem) && On(r, mem.Length, io0, io) == true && io.SrcLeft() < left && frameRemainingSize == r.left && r.Proper()
      requires Starting(r.dictionary, r.Text(mem[..], io), mem[..], io.dstPtr, io.dstEnd) == true
      requires MIN_HEADER <= tmpInTarget == r.Read(io) <= MAX_HEADER && r.Read(io) <= |r.frame| && header[..tmpInTarget] == r.frame[..tmpInTarget]
      requires tmpInTarget == MIN_HEADER || ReadHeader(r.frame[..tmpInTarget]).BadHeader?
        || (ReadHeader(r.frame[..tmpInTarget]).Header? && ReadHeader(r.frame[..tmpInTarget]).size == tmpInTarget)
      modifies this`info, this`maxBlockSize, this`frameRemainingSize, this`dStage, this`tmpInSize, this`tmpInTarget, header
      ensures Went(r, mem[..], io0, io, left, rank, status) == true
    {
      hide At, Went, ReadHeader, Starting, Frame, Run.Proper;
      ghost var n := tmpInTarget;
      var hSize;
      status, hSize := DecodeHeader(header[..tmpInTarget], true);
      AllRead(r.frame[..n]);
      HeaderRead(r, mem[..], io, n, hSize, true);
      if status.Fail? {
        HeaderRejects(r, n, status.error);
        Failing(r, mem[..], io0, io, left, rank, status.error);
      } else {
        Continuing(r, mem[..], io0, io, left, rank);
      }
    }

    lemma HeaderRejects(r: Run, n: nat, e: Error)
      requires r.meaning == Invalid(HeaderFlaw) && MIN_HEADER <= n <= |r.frame| && e != FrameHeaderIncomplete && Explains(e, r.frame[..n]) == true
      ensures r.Rejects(e)
    {
      hide Explains;
      ExplainsMore(e, r.frame, n);
    }

    lemma AllRead(s: seq<byte>)
      ensures ReadHeader(s).Header? && |s| == MIN_HEADER ==> ReadHeader(s).size == |s|
    {
      hide Le32, Le64, HeaderChecksumHolds;
    }

    /** The stage dstage_getFrameHeader. */
    method DoGetFrameHeader(ghost r: Run, mem: array<byte>, ghost io0: Call, io1: Call, ghost left: int, ghost rank: nat)
      returns (status: Status, io: Call)
      requires Apart(mem) && On(r, mem.Length, io0, io1) == true && io1.SrcLeft() <= left && dStage == GetFrameHeader
      requires Starting(r.dictionary, r.Text(mem[..], io1), mem[..], io1.dstPtr, io1.dstEnd) == true && frameRemainingSize == r.left && r.Read(io1) == 0 && r.Proper()
      modifies this`info, this`maxBlockSize, this`frameRemainingSize, this`dStage, this`tmpInSize, this`tmpInTarget, header
      ensures Went(r, mem[..], io0, io, left, rank, status) == true
    {
      hide At, Went, ReadHeader, Starting, Frame, Run.Proper;
      io := io1;
      if io.SrcLeft() >= MAX_HEADER {
        status, io := DecodeDirectly(r, mem, io0, io, left, rank);
        return;
      }
      tmpInSize := 0;
      if io.SrcLeft() == 0 {
        status := Stop(MIN_HEADER);
        WaitAtFront(r, mem[..], io0, io, left, rank, MIN_HEADER);
        return;
      }
      tmpInTarget := MIN_HEADER;
      dStage := StoreFrameHeader;
      assert header[..0] == r.frame[0..0];
      status, io := DoStoreFrameHeader(r, mem, io0, io, left, rank);
    }

    lemma WaitAtFront(r: Run, mem: seq<byte>, io0: Call, io: Call, left: int, rank: nat, hint: nat)
      requires hint == Hint()
      requires On(r, |mem|, io0, io) == true && dStage == GetFrameHeader && hint != 0 && io.SrcLeft() == 0
      requires Starting(r.dictionary, r.Text(mem, io), mem, io.dstPtr, io.dstEnd) == true && frameRemainingSize == r.left && r.Read(io) == 0 && r.Proper()
      ensures Went(r, mem, io0, io, left, rank, Stop(hint)) == true
    {
      hide Starting, Run.Owed;
    }

    /** Enough input to decode any header where it is. */
    method DecodeDirectly(ghost r: Run, mem: array<byte>, ghost io0: Call, io1: Call, ghost left: int, ghost rank: nat)
      returns (status: Status, io: Call)
      requires Apart(mem) && On(r, mem.Length, io0, io1) == true && io1.SrcLeft() <= left && MAX_HEADER <= io1.SrcLeft()
      requires Starting(r.dictionary, r.Text(mem[..], io1), mem[..], io1.dstPtr, io1.dstEnd) == true && frameRemainingSize == r.left && r.Read(io1) == 0 && r.Proper()
      modifies this`info, this`maxBlockSize, this`frameRemainingSize, this`dStage, this`tmpInSize, this`tmpInTarget, header
      ensures Went(r, mem[..], io0, io, left, rank, status) == true
    {
      hide At, Went, ReadHeader, Starting, Frame, Run.Proper;
      io := io1;
      ghost var f, n := r.frame, io.SrcLeft();
      ReadOn(r, io1, 0, n);
      assert io.src[io.srcPtr..] == f[..n];
      NotTooShort(f[..n]);
      var hSize;
      status, hSize := DecodeHeader(io.src[io.srcPtr..], false);
      if status.Fail? {
        HeaderRead(r, mem[..], io, n, hSize, false);
        HeaderRejects(r, n, status.error);
        Failing(r, mem[..], io0, io, left, rank, status.error);
      } else {
        io := io.(srcPtr := io.srcPtr + hSize);
        HeaderRead(r, mem[..], io, n, hSize, false);
        Continuing(r, mem[..], io0, io, left, rank);
      }
    }

    /** The allocations of the stage dstage_init. */
    method Allocate()
      requires Buffers() == true && info.Valid() && maxBlockSize == info.MaxBlockSize()
      modifies this`tmpIn, this`tmpOutBuffer, this`maxBufferSize
      ensures Ready() == true
      ensures (tmpIn == old(tmpIn) && tmpOutBuffer == old(tmpOutBuffer)) || (fresh(tmpIn) && fresh(tmpOutBuffer))
    {
      var bufferNeeded := maxBlockSize + (if info.linked then 128 * KB else 0);
      if bufferNeeded > maxBufferSize {
        maxBufferSize := 0;
        tmpIn := new byte[maxBlockSize + CHECKSUM];
        tmpOutBuffer := new byte[bufferNeeded];
        maxBufferSize := bufferNeeded;
      }
    }

    // ----- Block headers -----

    /** What a block header leads to. */
    lemma HeaderLeads(r: Run, mem: seq<byte>, io: Call, w: nat)
      requires io.Within(|mem|) && r.Matches(io) && BLOCK_HEADER <= r.Read(io) && OnBlocks(r, mem, io, r.Read(io) - BLOCK_HEADER) == true
      requires w == Le32(r.frame, r.Read(io) - BLOCK_HEADER)
      ensures var t, n, p := r.Text(mem, io), w % UNCOMPRESSED_FLAG, r.Read(io);
              && (w == 0 ==> OnSuffix(r, mem, io, p) == true)
              && (w != 0 && n > maxBlockSize ==> r.Flawed(BlockTooLong) == true)
              && (w >= UNCOMPRESSED_FLAG && n <= maxBlockSize ==> r.LeadsTo(RawBlock(r.frame, p, n, [], info, r.dictionary, t, r.room)) == true)
              && (0 < w < UNCOMPRESSED_FLAG && n <= maxBlockSize ==> OnPacked(r, mem, io, p, n) == true)
              && Between(r.dictionary, t, mem, io.dstPtr, io.dstEnd) == true && p <= |r.frame|
      ensures 0 < info.ChecksumSize() + 1
    {
      hide Between, Blocks, RawBlock, PackedBlock, Suffix, Frame, Le32;
      BlocksStep(r.frame, r.Read(io) - BLOCK_HEADER, info, r.dictionary, r.Text(mem, io), r.room);
      BetweenReady(r.dictionary, r.Text(mem, io), mem, io.dstPtr, io.dstEnd);
    }

    lemma RawAhead(r: Run, mem: seq<byte>, io: Call, n: nat)
      requires io.Within(|mem|) && Between(r.dictionary, r.Text(mem, io), mem, io.dstPtr, io.dstEnd) == true && r.Read(io) <= |r.frame|
      requires r.LeadsTo(RawBlock(r.frame, r.Read(io), n, [], info, r.dictionary, r.Text(mem, io), r.room)) == true && (info.blockChecksum ==> blockChecksum == [])
      ensures OnRaw(r, mem, io, r.Read(io), n) == true
    {
      hide Between, RawBlock;
      if !info.blockChecksum { FedDoesNotMatter(r.frame, r.Read(io), n, blockChecksum, info, r.dictionary, r.Text(mem, io), r.room); }
    }

    lemma HasRoom(r: Run, mem: seq<byte>, io: Call)
      requires io.Within(|mem|) && r.Fits(io) && (dStage == GetCBlock || dStage == StoreCBlock ==> io.dstPtr != io.dstEnd)
      ensures Roomy(r, mem, io) == true
    {
    }

    /** On to the stage that the block header leads to. */
    lemma HeaderDone(r: Run, mem: seq<byte>, io0: Call, io: Call, left: int)
      requires Placed(r.frame, r.Read(io)) == true
      requires On(r, |mem|, io0, io) == true && io.SrcLeft() < left
      requires match dStage
               case GetSuffix => OnSuffix(r, mem, io, r.Read(io)) == true
               case CopyDirect => tmpInTarget <= maxBlockSize && OnRaw(r, mem, io, r.Read(io), tmpInTarget) == true
               case GetCBlock =>
                 && info.ChecksumSize() < tmpInTarget <= maxBlockSize + info.ChecksumSize()
                 && OnPacked(r, mem, io, r.Read(io), tmpInTarget - info.ChecksumSize()) == true
               case _ => false
      ensures io.Within(|mem|) && (Roomy(r, mem, io) ==> Went(r, mem, io0, io, left, 3, Again) == true)
      ensures dStage == GetCBlock && (io.dstPtr == io.dstEnd || io.srcPtr == |io.src|) ==>
        Went(r, mem, io0, io, left, 3, Stop(Hint())) == true
    {
      hide OnSuffix, OnRaw, OnPacked, HeaderAt, InBlock, BehindBlocks;
    }

    /** The part "decode block header". */
    method DoBlockHeader(ghost r: Run, ghost mem: seq<byte>, ghost io0: Call, io: Call, w: nat, ghost left: int) returns (status: Status)
      requires On(r, |mem|, io0, io) == true && io.SrcLeft() < left && BLOCK_HEADER <= r.Read(io)
      requires OnBlocks(r, mem, io, r.Read(io) - BLOCK_HEADER) == true && w == Le32(r.frame, r.Read(io) - BLOCK_HEADER)
      requires HeaderAt(r.frame, r.Read(io) - BLOCK_HEADER) == true
      modifies this`dStage, this`tmpInTarget, this`blockChecksum
      ensures Went(r, mem, io0, io, left, 3, status) == true
    {
      hide *;
      OnParts(r, |mem|, io0, io);
      HeaderLeads(r, mem, io, w);
      PastHeader(r.frame, r.Read(io));
      FlagIs(w);
      var nextCBlockSize := w % UNCOMPRESSED_FLAG;
      if w == 0 {
        dStage := GetSuffix;
        PlacedIs(r.frame, r.Read(io));
        HasRoom(r, mem, io);
        HeaderDone(r, mem, io0, io, left);
        return Again;
      }
      if nextCBlockSize > maxBlockSize {
        Errors(r.frame);
        FlawRejects(r, BlockTooLong, MaxBlockSizeInvalid);
        Failing(r, mem, io0, io, left, 3, MaxBlockSizeInvalid);
        return Fail(MaxBlockSizeInvalid);
      }
      if w >= UNCOMPRESSED_FLAG {
        tmpInTarget := nextCBlockSize;
        if info.blockChecksum { blockChecksum := []; }
        dStage := CopyDirect;
        PlacedIs(r.frame, r.Read(io));
        RawAhead(r, mem, io, nextCBlockSize);
        HasRoom(r, mem, io);
        HeaderDone(r, mem, io0, io, left);
        return Again;
      }
      tmpInTarget := nextCBlockSize + info.ChecksumSize();
      dStage := GetCBlock;
      PlacedIs(r.frame, r.Read(io));
      HeaderDone(r, mem, io0, io, left);
      if io.dstPtr == io.dstEnd || io.srcPtr == |io.src| {
        return Stop(BLOCK_HEADER + nextCBlockSize + info.ChecksumSize());
      }
      HasRoom(r, mem, io);
      status := Again;
    }

    lemma BetweenReady(d: seq<byte>, t: seq<byte>, mem: seq<byte>, lo: int, hi: int)
      requires Between(d, t, mem, lo, hi) == true
      ensures Ready() && maxBlockSize == info.MaxBlockSize() && Tallied(t) == true
    {
      hide Tallied;
    }

    lemma WaitForBlockHeader(r: Run, mem: seq<byte>, io0: Call, io: Call, left: int, rank: nat, hint: nat)
      requires Placed(r.frame, r.Read(io)) == true
      requires hint == Hint()
      requires On(r, |mem|, io0, io) == true && dStage == StoreBlockHeader && hint != 0 && io.SrcLeft() == 0
      requires tmpInSize < BLOCK_HEADER && Stored(r.frame, tmpIn, tmpInSize, r.Read(io)) == true && OnBlocks(r, mem, io, r.Read(io) - tmpInSize) == true
      ensures Went(r, mem, io0, io, left, rank, Stop(hint)) == true
    {
      hide Stored, OnBlocks, HeaderAt, InBlock, BehindBlocks;
    }

    /** The stage dstage_storeBlockHeader, from a call that had `left` bytes of input. */
    method DoStoreBlockHeader(ghost r: Run, mem: array<byte>, ghost io0: Call, io1: Call, ghost left: int, ghost rank: nat)
      returns (status: Status, io: Call)
      requires Apart(mem) && On(r, mem.Length, io0, io1) == true && io1.SrcLeft() <= left && dStage == StoreBlockHeader && 3 <= rank
      requires tmpInSize < BLOCK_HEADER && Stored(r.frame, tmpIn, tmpInSize, r.Read(io1)) == true && OnBlocks(r, mem[..], io1, r.Read(io1) - tmpInSize) == true
      requires HeaderAt(r.frame, r.Read(io1) - tmpInSize) == true
      modifies this`dStage, this`tmpInSize, this`tmpInTarget, this`blockChecksum, tmpIn
      ensures Went(r, mem[..], io0, io, left, rank, status) == true
    {
      hide OnBlocks, Stored, Went, Buffers, Le32, HeaderAt;
      StoredBounds(r.frame, tmpIn, tmpInSize, r.Read(io1));
      ghost var p := r.Read(io1) - tmpInSize;
      BlocksRoom(r, mem[..], io1, p);
      var sizeToCopy;
      sizeToCopy, io := Fill(r, tmpIn, tmpInSize, BLOCK_HEADER, io1);
      tmpInSize := tmpInSize + sizeToCopy;
      MoveBlocks(r, mem[..], io1, io, p);
      if tmpInSize < BLOCK_HEADER {
        PlacedIs(r.frame, r.Read(io));
        status := Stop(BLOCK_HEADER - tmpInSize);
        WaitForBlockHeader(r, mem[..], io0, io, left, rank, status.hint);
        return;
      }
      StoredLe32(r.frame, tmpIn, r.Read(io));
      status := DoBlockHeader(r, mem[..], io0, io, Le32(tmpIn[..], 0), left);
      Outranks(r, mem[..], io0, io, left, 3, rank, status);
    }

    lemma BlocksRoom(r: Run, mem: seq<byte>, io: Call, p: int)
      requires io.Within(|mem|) && OnBlocks(r, mem, io, p) == true
      ensures BLOCK_HEADER <= tmpIn.Length && header != tmpIn && tmpIn != tmpOutBuffer
    {
      hide Blocks, Tallied, DictKept;
    }

    /** Taking input alone changes nothing about what comes next. */
    lemma MoveBlocks(r: Run, mem: seq<byte>, io1: Call, io: Call, p: int)
      requires io1.Within(|mem|) && io == io1.(srcPtr := io.srcPtr) && io.Within(|mem|) && OnBlocks(r, mem, io1, p) == true
      ensures OnBlocks(r, mem, io, p) == true
    {
      hide Between, Blocks;
    }

    lemma Outranks(r: Run, mem: seq<byte>, io0: Call, io: Call, left: int, rank: nat, rank': nat, status: Status)
      requires Went(r, mem, io0, io, left, rank, status) == true && rank <= rank'
      ensures Went(r, mem, io0, io, left, rank', status) == true
    {
      hide At;
    }

    /** The stage dstage_getBlockHeader. */
    method DoGetBlockHeader(ghost r: Run, mem: array<byte>, ghost io0: Call, io1: Call, ghost left: int, ghost rank: nat)
      returns (status: Status, io: Call)
      requires Apart(mem) && On(r, mem.Length, io0, io1) == true && io1.SrcLeft() <= left && dStage == GetBlockHeader && 3 <= rank
      requires OnBlocks(r, mem[..], io1, r.Read(io1)) == true && HeaderAt(r.frame, r.Read(io1)) == true
      modifies this`dStage, this`tmpInSize, this`tmpInTarget, this`blockChecksum, tmpIn
      ensures Went(r, mem[..], io0, io, left, rank, status) == true
    {
      hide Between, Blocks, RawBlock, PackedBlock, Suffix, Frame, InHeader, InInit, InSkippableSize, InSkippable, Starting, Flushing, Le32, Went, At, HeaderAt;
      io := io1;
      if io.SrcLeft() >= BLOCK_HEADER {
        SelectedLe32(r, io);
        var w := Le32(io.src, io.srcPtr);
        io := io.(srcPtr := io.srcPtr + BLOCK_HEADER);
        status := DoBlockHeader(r, mem[..], io0, io, w, left);
        Outranks(r, mem[..], io0, io, left, 3, rank, status);
      } else {
        tmpInSize := 0;
        dStage := StoreBlockHeader;
        NothingStored(r.frame, tmpIn, r.Read(io));
        status, io := DoStoreBlockHeader(r, mem, io0, io, left, rank);
      }
    }

    lemma InitDict(r: Run, mem: seq<byte>, io: Call)
      requires io.Within(|mem|) && InInit(r, mem, io) == true
      ensures info.Valid() && maxBlockSize == info.MaxBlockSize() && Counted() && AtHome()
      ensures r.Text(mem, io) == [] && DictKept(mem, r.dictionary, io.dstPtr, io.dstEnd) == true
      ensures r.LeadsTo(Blocks(r.frame, r.Read(io), info, r.dictionary, [], r.room))
    {
      hide DictKept, Blocks;
    }

    lemma InfoValid()
      requires Ready() == true
      ensures info.contentSize < U64_SIZE
    {
    }

    lemma TalliedFirst()
      requires info.contentSize < U64_SIZE && (info.contentChecksum ==> xxh == []) && Counted()
      ensures Tallied([]) == true
    {
      SmallRemainder(info.contentSize);
    }

    lemma FirstBlock(r: Run, mem: seq<byte>, io: Call)
      requires io.Within(|mem|) && Ready() == true && tmpOut == 0 && (info.contentChecksum ==> xxh == []) && Counted()
      requires r.Text(mem, io) == [] && AtHome() && DictKept(mem, r.dictionary, io.dstPtr, io.dstEnd) == true
      requires r.LeadsTo(Blocks(r.frame, r.Read(io), info, r.dictionary, [], r.room))
      ensures OnBlocks(r, mem, io, r.Read(io)) == true
    {
      hide DictKept, Blocks, Ready, Between, Tallied;
      assert HistoryOf(info, r.dictionary, []) == r.dictionary by { assert r.dictionary + [] == r.dictionary; }
      InfoValid();
      TalliedFirst();
      BetweenAgain(r.dictionary, [], mem, io.dstPtr, io.dstEnd);
    }

    lemma DictKeptElsewhere(mem: seq<byte>, h: seq<byte>, lo: int, hi: int)
      requires dict != InTmp
      ensures DictKept(mem, h, lo, hi) == ((dict == Null && dictSize == 0 && EndOf([], h))
        || (dict.InMem? && 0 <= dict.at && dict.at + dictSize <= |mem| && (dict.at + dictSize <= lo || hi <= dict.at) && EndOf(mem[dict.at..dict.at + dictSize], h)))
    {
      hide EndOf;
    }

    /** Nothing is stored, and nothing waits. */
    method StartOver()
      modifies this`xxh, this`tmpOut, this`tmpOutStart, this`tmpOutSize, this`tmpInSize, this`tmpInTarget
      ensures tmpOut == 0 && tmpOutStart == 0 && tmpOutSize == 0 && (info.contentChecksum ==> xxh == [])
    {
      if info.contentChecksum { xxh := []; }
      tmpInSize, tmpInTarget := 0, 0;
      tmpOut, tmpOutStart, tmpOutSize := 0, 0, 0;
    }

    lemma BuffersReady()
      requires Ready() == true
      ensures Buffers() == true
    {
    }

    /** The buffers are made ready for the blocks of a frame; a dictionary that is elsewhere is not touched. */
    method Prepare(ghost mem: seq<byte>, ghost h: seq<byte>, ghost lo: int, ghost hi: int)
      requires Buffers() == true && info.Valid() && maxBlockSize == info.MaxBlockSize() && dict != InTmp && DictKept(mem, h, lo, hi) == true
      modifies this`xxh, this`tmpIn, this`tmpOutBuffer, this`maxBufferSize, this`tmpOut, this`tmpOutStart, this`tmpOutSize, this`tmpInSize, this`tmpInTarget
      ensures Ready() == true && Buffers() == true && DictKept(mem, h, lo, hi) == true
      ensures tmpOut == 0 && tmpOutStart == 0 && tmpOutSize == 0 && (info.contentChecksum ==> xxh == [])
      ensures (tmpIn == old(tmpIn) && tmpOutBuffer == old(tmpOutBuffer)) || (fresh(tmpIn) && fresh(tmpOutBuffer))
    {
      hide *;
      DictKeptElsewhere(mem, h, lo, hi);
      Allocate();
      BuffersReady();
      StartOver();
      DictKeptElsewhere(mem, h, lo, hi);
    }

    /** The stage dstage_init, which goes on with the first block header. */
    method DoInit(ghost r: Run, mem: array<byte>, ghost io0: Call, io1: Call, ghost left: int, ghost rank: nat)
      returns (status: Status, io: Call)
      requires Apart(mem) && On(r, mem.Length, io0, io1) == true && io1.SrcLeft() <= left && dStage == Init && 3 <= rank && InInit(r, mem[..], io1) == true
      requires HeaderAt(r.frame, r.Read(io1)) == true
      modifies this, tmpIn
      ensures home == old(home) && homeSize == old(homeSize) && owed == old(owed)
      ensures Went(r, mem[..], io0, io, left, rank, status) == true
      ensures (tmpIn == old(tmpIn) && tmpOutBuffer == old(tmpOutBuffer)) || (fresh(tmpIn) && fresh(tmpOutBuffer))
    {
      hide Went, OnBlocks, InInit, DictKept, Blocks, Ready, Run.LeadsTo, Run.Owed, HeaderAt;
      ghost var m := mem[..];
      InitDict(r, m, io1);
      Prepare(m, r.dictionary, io1.dstPtr, io1.dstEnd);
      assert mem[..] == m;
      FirstBlock(r, m, io1);
      dStage := GetBlockHeader;
      status, io := DoGetBlockHeader(r, mem, io0, io1, left, rank);
    }

    // ----- Output -----

    lemma DictUntouched(a: seq<byte>, b: seq<byte>, lo: int, hi: int)
      requires |a| == |b| && DictInside(|a|, lo, hi) && forall i :: 0 <= i < |a| && !(lo <= i < hi) ==> b[i] == a[i]
      ensures DictBytes(a) == DictBytes(b)
    {
    }

    /** Output of `n` bytes at `dstPtr`: the checksum, the size and the history take notice. */
    method Deliver(mem: array<byte>, io: Call, n: nat, ghost was: seq<byte>, ghost d: seq<byte>, ghost t: seq<byte>, ghost out: seq<byte>)
      requires Apart(mem) && io.Within(mem.Length) && n <= io.DstLeft() && |was| == mem.Length
      requires Between(d, t, was, io.dstPtr, io.dstEnd) == true
      requires forall i :: 0 <= i < mem.Length && !(io.dstPtr <= i < io.dstEnd) ==> mem[i] == was[i]
      requires out == mem[io.dstPtr..io.dstPtr + n]
      requires io.dstPtr - io.dstStart <= |t| && t[|t| - (io.dstPtr - io.dstStart)..] == was[io.dstStart..io.dstPtr]
      modifies this`xxh, this`frameRemainingSize, this`dict, this`dictSize, tmpOutBuffer
      ensures Between(d, t + out, mem[..], io.dstPtr + n, io.dstEnd) == true
    {
      hide Between, Tallied, Ready, DictKept;
      BetweenParts(d, t, was, io.dstPtr, io.dstEnd);
      Tally(out, mem[io.dstPtr..io.dstPtr + n], t);
      if info.linked {
        Remember(mem, io, n, was, d, t, out);
      } else {
        DictStays(was, mem[..], d, io.dstPtr, io.dstEnd, n);
      }
      BetweenAgain(d, t + out, mem[..], io.dstPtr + n, io.dstEnd);
    }

    lemma DictStays(was: seq<byte>, mem: seq<byte>, h: seq<byte>, lo: int, hi: int, n: nat)
      requires |was| == |mem| && DictKept(was, h, lo, hi) == true && lo + n <= hi
      requires forall i :: 0 <= i < |mem| && !(lo <= i < hi) ==> mem[i] == was[i]
      ensures DictKept(mem, h, lo + n, hi) == true
    {
      DictUntouched(was, mem, lo, hi);
      hide EndOf;
    }

    /** Output of linked blocks becomes history. */
    method Remember(mem: array<byte>, io: Call, n: nat, ghost was: seq<byte>, ghost d: seq<byte>, ghost t: seq<byte>, ghost out: seq<byte>)
      requires Apart(mem) && io.Within(mem.Length) && n <= io.DstLeft() && |was| == mem.Length && Ready() == true && info.linked
      requires DictKept(was, d + t, io.dstPtr, io.dstEnd) == true
      requires forall i :: 0 <= i < mem.Length && !(io.dstPtr <= i < io.dstEnd) ==> mem[i] == was[i]
      requires out == mem[io.dstPtr..io.dstPtr + n]
      requires io.dstPtr - io.dstStart <= |t| && t[|t| - (io.dstPtr - io.dstStart)..] == was[io.dstStart..io.dstPtr]
      modifies this`dict, this`dictSize, tmpOutBuffer
      ensures DictKept(mem[..], d + (t + out), io.dstPtr + n, io.dstEnd) == true
    {
      hide OutputIsHistory, Ready, Updatable, Updated, DictKept;
      ghost var m, tmp := mem[..], tmpOutBuffer[..];
      OutputInHistory(was, m, io, d, t);
      StillUpdatable(was, m, d + t, io.dstPtr, n, io.dstEnd);
      UpdateDict(mem, io.dstPtr, n, io.dstStart, false, d + t, io.dstEnd);
      assert mem[..] == m;
      KeptAgain(m, d + t, io.dstPtr, n, io.dstEnd, tmp);
      assert d + t + out == d + (t + out);
    }

    lemma StillUpdatable(was: seq<byte>, mem: seq<byte>, h: seq<byte>, lo: int, n: nat, hi: int)
      requires |was| == |mem| && 0 <= lo && lo + n <= hi <= |mem| && DictKept(was, h, lo, hi) == true
      requires forall i :: 0 <= i < |mem| && !(lo <= i < hi) ==> mem[i] == was[i]
      ensures Updatable(mem, h, false, lo, n, hi) == true
    {
      hide EndOf;
      DictUntouched(was, mem, lo, hi);
    }

    lemma KeptAgain(mem: seq<byte>, h: seq<byte>, lo: int, n: nat, hi: int, was: seq<byte>)
      requires Updated(mem, h, false, lo, n, hi, was) == true
      ensures DictKept(mem, h + mem[lo..lo + n], lo + n, hi) == true
    {
      hide EndOf;
    }

    /** The content checksum and the size that remains take notice of output. */
    method Tally(ghost out: seq<byte>, bytes: seq<byte>, ghost t: seq<byte>)
      requires Tallied(t) == true && out == bytes
      modifies this`xxh, this`frameRemainingSize
      ensures Tallied(t + out) == true
    {
      if info.contentChecksum { xxh := xxh + bytes; }
      if info.contentSize != 0 {
        Remaining(info.contentSize, |t|, |bytes|);
        frameRemainingSize := (frameRemainingSize - |bytes|) % U64_SIZE;
      }
    }

    lemma BetweenParts(d: seq<byte>, t: seq<byte>, mem: seq<byte>, lo: int, hi: int)
      requires Between(d, t, mem, lo, hi) == true
      ensures Ready() == true && (!info.linked ==> tmpOut == 0 && AtHome()) && Tallied(t) == true && DictKept(mem, HistoryOf(info, d, t), lo, hi) == true
    {
      hide Ready, Tallied, DictKept;
    }

    lemma BetweenAgain(d: seq<byte>, t: seq<byte>, mem: seq<byte>, lo: int, hi: int)
      requires Ready() == true && (!info.linked ==> tmpOut == 0 && AtHome()) && Tallied(t) == true && DictKept(mem, HistoryOf(info, d, t), lo, hi) == true
      ensures Between(d, t, mem, lo, hi) == true
    {
      hide Ready, Tallied, DictKept;
    }

    lemma OutputInHistory(was: seq<byte>, mem: seq<byte>, io: Call, d: seq<byte>, t: seq<byte>)
      requires |was| == |mem| && io.Within(|mem|) && forall i :: 0 <= i < |mem| && !(io.dstPtr <= i < io.dstEnd) ==> mem[i] == was[i]
      requires io.dstPtr - io.dstStart <= |t| && t[|t| - (io.dstPtr - io.dstStart)..] == was[io.dstStart..io.dstPtr]
      ensures OutputIsHistory(mem, io.dstStart, io.dstPtr, d + t)
    {
      SameSlice(mem, was, io.dstStart, io.dstPtr);
      var k := io.dstPtr - io.dstStart;
      assert (d + t)[|d + t| - k..] == t[|t| - k..];
    }

    // ----- Uncompressed blocks -----

    lemma OnRawParts(r: Run, mem: seq<byte>, io: Call, p: int, n: nat)
      requires io.Within(|mem|)
      ensures OnRaw(r, mem, io, p, n) ==
        (Between(r.dictionary, r.Text(mem, io), mem, io.dstPtr, io.dstEnd) && 0 <= p
         && r.LeadsTo(RawBlock(r.frame, p, n, blockChecksum, info, r.dictionary, r.Text(mem, io), r.room)))
    {
      hide Between, RawBlock;
    }

    /** Some bytes of an uncompressed block are handed on. */
    method CopySome(ghost r: Run, mem: array<byte>, io1: Call, n: nat) returns (io: Call)
      requires Apart(mem) && io1.Within(mem.Length) && r.Matches(io1) && n <= tmpInTarget && n <= io1.SrcLeft() && n <= io1.DstLeft()
      requires OnRaw(r, mem[..], io1, r.Read(io1), tmpInTarget) == true
      modifies this`blockChecksum, this`xxh, this`frameRemainingSize, this`dict, this`dictSize, tmpOutBuffer, mem
      ensures io == io1.(srcPtr := io1.srcPtr + n, dstPtr := io1.dstPtr + n)
      ensures forall i :: 0 <= i < mem.Length && !(io1.dstPtr <= i < io1.dstPtr + n) ==> mem[i] == old(mem[i])
      ensures OnRaw(r, mem[..], io, r.Read(io), tmpInTarget - n) == true
    {
      hide Between, RawBlock, OnRaw, Run.LeadsTo;
      io := io1.(srcPtr := io1.srcPtr + n, dstPtr := io1.dstPtr + n);
      ghost var was, p, t, fed := mem[..], r.Read(io1), r.Text(mem[..], io1), blockChecksum;
      OnRawParts(r, was, io1, p, tmpInTarget);
      ghost var out := r.frame[p..p + n];
      TakeRaw(r, mem, io1, n, out);
      TextAtEnd(r, was, io1);
      Deliver(mem, io1, n, was, r.dictionary, t, out);
      TextGrows(r, was, mem[..], io1, io, out);
      RawMoves(r, p, tmpInTarget, fed, blockChecksum, info, r.dictionary, t, n);
      OnRawParts(r, mem[..], io, p + n, tmpInTarget - n);
    }

    method TakeRaw(ghost r: Run, mem: array<byte>, io: Call, n: nat, ghost out: seq<byte>)
      requires Apart(mem) && io.Within(mem.Length) && r.Matches(io) && n <= io.SrcLeft() && n <= io.DstLeft()
      requires out == r.frame[r.Read(io)..r.Read(io) + n]
      modifies this`blockChecksum, mem
      ensures forall i :: 0 <= i < mem.Length && !(io.dstPtr <= i < io.dstPtr + n) ==> mem[i] == old(mem[i])
      ensures mem[io.dstPtr..io.dstPtr + n] == out
      ensures blockChecksum == if info.blockChecksum then old(blockChecksum) + out else old(blockChecksum)
    {
      FastCopy.MemcpyFrom(mem, io.dstPtr, io.src, io.srcPtr, n);
      ReadOn(r, io, 0, n);
      assert mem[io.dstPtr..io.dstPtr + n] == io.src[io.srcPtr..io.srcPtr + n] == out;
      if info.blockChecksum { blockChecksum := blockChecksum + io.src[io.srcPtr..io.srcPtr + n]; }
    }

    lemma WaitInRaw(r: Run, mem: seq<byte>, io0: Call, io: Call, left: int, rank: nat, hint: nat)
      requires Placed(r.frame, r.Read(io)) == true
      requires hint == Hint()
      requires On(r, |mem|, io0, io) == true && dStage == CopyDirect && hint != 0 && Blocked(io) && 0 < tmpInTarget <= maxBlockSize
      requires OnRaw(r, mem, io, r.Read(io), tmpInTarget) == true
      ensures Went(r, mem, io0, io, left, rank, Stop(hint)) == true
    {
      hide OnRaw, HeaderAt, InBlock, BehindBlocks;
    }

    lemma OnToNextBlock(r: Run, mem: seq<byte>, io0: Call, io: Call, left: int, rank: nat)
      requires Placed(r.frame, r.Read(io)) == true
      requires On(r, |mem|, io0, io) == true && dStage == GetBlockHeader && OnBlocks(r, mem, io, r.Read(io)) == true
      requires io.SrcLeft() < left || (io.SrcLeft() == left && 3 < rank)
      ensures Went(r, mem, io0, io, left, rank, Again) == true
    {
      hide OnBlocks, HeaderAt, InBlock, BehindBlocks;
    }

    lemma OnToRawChecksum(r: Run, mem: seq<byte>, io0: Call, io: Call, left: int, rank: nat)
      requires Placed(r.frame, r.Read(io)) == true
      requires On(r, |mem|, io0, io) == true && dStage == GetBlockChecksum && info.blockChecksum && tmpInSize == 0
      requires OnRaw(r, mem, io, r.Read(io), 0) == true
      requires io.SrcLeft() < left || (io.SrcLeft() == left && 4 < rank)
      ensures Went(r, mem, io0, io, left, rank, Again) == true
    {
      hide OnRaw, Stored, HeaderAt, InBlock, BehindBlocks;
      NothingStored(r.frame, header, r.Read(io));
    }

    /** An uncompressed block without checksum is complete when all of it is there. */
    lemma RawComplete(r: Run, mem: seq<byte>, io: Call)
      requires io.Within(|mem|) && r.Matches(io) && OnRaw(r, mem, io, r.Read(io), 0) == true && !info.blockChecksum
      ensures OnBlocks(r, mem, io, r.Read(io)) == true
    {
      hide Between, RawBlock, Blocks;
      RawDone(r.frame, r.Read(io), blockChecksum, info, r.dictionary, r.Text(mem, io), r.room);
    }

    /** The stage dstage_copyDirect. */
    method DoCopyDirect(ghost r: Run, mem: array<byte>, ghost io0: Call, io1: Call, ghost left: int, ghost rank: nat)
      returns (status: Status, io: Call)
      requires Apart(mem) && On(r, mem.Length, io0, io1) == true && io1.SrcLeft() <= left && dStage == CopyDirect && 5 <= rank
      requires tmpInTarget <= maxBlockSize && OnRaw(r, mem[..], io1, r.Read(io1), tmpInTarget) == true
      requires InBlock(r.frame, r.Read(io1), r.Read(io1) + tmpInTarget + info.ChecksumSize(), true) == true
      modifies this`dStage, this`tmpInSize, this`tmpInTarget, this`blockChecksum, this`xxh, this`frameRemainingSize, this`dict, this`dictSize, tmpOutBuffer, mem
      ensures forall i :: 0 <= i < mem.Length && !(io1.dstPtr <= i < io1.dstEnd) ==> mem[i] == old(mem[i])
      ensures Went(r, mem[..], io0, io, left, rank, status) == true
    {
      hide OnRaw, OnBlocks, Went, RawBlock, Run.Owed, HeaderAt, InBlock, Placed;
      var sizeToCopy := 0;
      io := io1;
      if io.hasDst {
        sizeToCopy := Min(tmpInTarget, Min(io.SrcLeft(), io.DstLeft()));
        io := CopySome(r, mem, io, sizeToCopy);
      }
      FurtherIn(r.frame, r.Read(io1), r.Read(io), r.Read(io1) + tmpInTarget + info.ChecksumSize(), true);
      if sizeToCopy == tmpInTarget {
        if info.blockChecksum {
          tmpInSize := 0;
          dStage := GetBlockChecksum;
          PlacedInRaw(r.frame, r.Read(io), r.Read(io) + CHECKSUM);
          OnToRawChecksum(r, mem[..], io0, io, left, rank);
        } else {
          RawComplete(r, mem[..], io);
          BehindBlock(r.frame, r.Read(io), r.Read(io), true);
          dStage := GetBlockHeader;
          PlacedNext(r.frame, r.Read(io));
          OnToNextBlock(r, mem[..], io0, io, left, rank);
        }
        return Again, io;
      }
      tmpInTarget := tmpInTarget - sizeToCopy;
      PlacedInRaw(r.frame, r.Read(io), r.Read(io) + tmpInTarget + info.ChecksumSize());
      status := Stop(tmpInTarget + info.ChecksumSize() + BLOCK_HEADER);
      WaitInRaw(r, mem[..], io0, io, left, rank, status.hint);
    }

    lemma WaitForRawChecksum(r: Run, mem: seq<byte>, io0: Call, io: Call, left: int, rank: nat, hint: nat)
      requires Placed(r.frame, r.Read(io)) == true
      requires hint == Hint()
      requires On(r, |mem|, io0, io) == true && dStage == GetBlockChecksum && hint != 0 && io.SrcLeft() == 0 && info.blockChecksum
      requires tmpInSize < CHECKSUM && Stored(r.frame, header, tmpInSize, r.Read(io)) == true && OnRaw(r, mem, io, r.Read(io) - tmpInSize, 0) == true
      ensures Went(r, mem, io0, io, left, rank, Stop(hint)) == true
    {
      hide OnRaw, Stored, HeaderAt, InBlock, BehindBlocks;
    }

    /** The checksum of an uncompressed block decides. */
    lemma RawChecked(r: Run, mem: seq<byte>, io: Call)
      requires io.Within(|mem|) && r.Matches(io) && info.blockChecksum && CHECKSUM <= r.Read(io)
      requires OnRaw(r, mem, io, r.Read(io) - CHECKSUM, 0) == true
      ensures if IsChecksum(Le32(r.frame, r.Read(io) - CHECKSUM), blockChecksum) then
          OnBlocks(r, mem, io, r.Read(io)) == true
        else
          r.Flawed(BlockChecksumFlaw) == true
    {
      hide Between, RawBlock, Blocks, Le32, IsChecksum;
      RawDone(r.frame, r.Read(io) - CHECKSUM, blockChecksum, info, r.dictionary, r.Text(mem, io), r.room);
    }

    /** The stage dstage_getBlockChecksum. */
    method DoGetBlockChecksum(ghost r: Run, mem: array<byte>, ghost io0: Call, io1: Call, ghost left: int, ghost rank: nat)
      returns (status: Status, io: Call)
      requires Apart(mem) && On(r, mem.Length, io0, io1) == true && io1.SrcLeft() <= left && dStage == GetBlockChecksum && 4 <= rank && info.blockChecksum
      requires tmpInSize < CHECKSUM && Stored(r.frame, header, tmpInSize, r.Read(io1)) == true && OnRaw(r, mem[..], io1, r.Read(io1) - tmpInSize, 0) == true
      requires InBlock(r.frame, r.Read(io1), r.Read(io1) - tmpInSize + CHECKSUM, true) == true
      modifies this`dStage, this`tmpInSize, header
      ensures Went(r, mem[..], io0, io, left, rank, status) == true
    {
      hide *;
      OnParts(r, mem.Length, io0, io1);
      WithinParts(io1, mem.Length);
      HeaderBuffer();
      ApartParts(mem);
      StoredBounds(r.frame, header, tmpInSize, r.Read(io1));
      ghost var p := r.Read(io1) - tmpInSize;
      io := io1;
      var readCRC;
      if io.SrcLeft() >= CHECKSUM && tmpInSize == 0 {
        SelectedLe32(r, io);
        readCRC := Le32(io.src, io.srcPtr);
        io := io.(srcPtr := io.srcPtr + CHECKSUM);
        Took(r, mem.Length, io0, io1, io, CHECKSUM);
      } else {
        var sizeToCopy;
        Lesser(CHECKSUM - tmpInSize, io.SrcLeft());
        sizeToCopy, io := Fill(r, header, tmpInSize, CHECKSUM, io);
        Took(r, mem.Length, io0, io1, io, sizeToCopy);
        tmpInSize := tmpInSize + sizeToCopy;
        if tmpInSize < CHECKSUM {
          MoveRaw(r, mem[..], io1, io, p);
          FurtherIn(r.frame, r.Read(io1), r.Read(io), p + CHECKSUM, true);
          PlacedInRaw(r.frame, r.Read(io), p + CHECKSUM);
          WaitForRawChecksum(r, mem[..], io0, io, left, rank, 1);
          return Stop(1), io;
        }
        StoredLe32(r.frame, header, r.Read(io));
        readCRC := Le32(header[..], 0);
      }
      MoveRaw(r, mem[..], io1, io, p);
      BehindBlock(r.frame, r.Read(io1), p + CHECKSUM, true);
      status := CheckRaw(r, mem[..], io0, io, readCRC, left, rank);
    }

    /** The checksum of an uncompressed block has been read. */
    method CheckRaw(ghost r: Run, ghost mem: seq<byte>, ghost io0: Call, ghost io: Call, readCRC: nat, ghost left: int, ghost rank: nat)
      returns (status: Status)
      requires On(r, |mem|, io0, io) == true && io.SrcLeft() < left && info.blockChecksum
      requires CHECKSUM <= r.Read(io) && readCRC == Le32(r.frame, r.Read(io) - CHECKSUM) && OnRaw(r, mem, io, r.Read(io) - CHECKSUM, 0) == true
      requires HeaderAt(r.frame, r.Read(io)) == true
      modifies this`dStage
      ensures Went(r, mem, io0, io, left, rank, status) == true
    {
      hide OnRaw, OnBlocks, Went, Le32, IsChecksum, HeaderAt, Placed;
      RawChecked(r, mem, io);
      if !IsChecksum(readCRC, blockChecksum) {
        Errors(r.frame);
        FlawRejects(r, BlockChecksumFlaw, BlockChecksumInvalid);
        Failing(r, mem, io0, io, left, rank, BlockChecksumInvalid);
        return Fail(BlockChecksumInvalid);
      }
      dStage := GetBlockHeader;
      PlacedNext(r.frame, r.Read(io));
      OnToNextBlock(r, mem, io0, io, left, rank);
      status := Again;
    }

    /** Taking input alone changes nothing about a block. */
    lemma MoveRaw(r: Run, mem: seq<byte>, io1: Call, io: Call, p: int)
      requires io1.Within(|mem|) && io == io1.(srcPtr := io.srcPtr) && io.Within(|mem|) && OnRaw(r, mem, io1, p, 0) == true
      ensures OnRaw(r, mem, io, p, 0) == true
    {
      hide Between, RawBlock;
    }

    // ----- Compressed blocks -----

    /** A compressed block has been read, and its content decides what comes next. */
    ghost predicate OnUnpacked(r: Run, mem: seq<byte>, io: Call, block: seq<byte>)
      requires io.Within(|mem|)
      reads this`dict, this`dictSize, this`home, this`homeSize, this`tmpOutBuffer, this`tmpIn, this`maxBufferSize, this`info, this`maxBlockSize,
            this`frameRemainingSize, this`owed, this`tmpOut, this`xxh, tmpOutBuffer
    {
      var d, t := r.dictionary, r.Text(mem, io);
      && Between(d, t, mem, io.dstPtr, io.dstEnd)
      && r.LeadsTo(Unpacked(r.frame, r.Read(io), info, d, t, Content(block, HistoryOf(info, d, t), info.MaxBlockSize()), r.room))
    }

    /** The block that has been read, without its checksum. */
    lemma PackedRead(r: Run, mem: seq<byte>, io: Call, selected: seq<byte>, n: nat)
      requires io.Within(|mem|) && r.Matches(io) && |selected| == n + info.ChecksumSize() <= r.Read(io)
      requires selected == r.frame[r.Read(io) - |selected|..r.Read(io)]
      requires OnPacked(r, mem, io, r.Read(io) - |selected|, n) == true && !r.room.Reached(|r.Text(mem, io)|)
      ensures if info.blockChecksum && !IsChecksum(Le32(selected, n), selected[..n]) then
          r.Flawed(BlockChecksumFlaw) == true
        else
          OnUnpacked(r, mem, io, selected[..n]) == true
    {
      hide Between, Blocks, Content, Unpacked, IsChecksum, Le32;
      var p := r.Read(io) - |selected|;
      SliceOfSlice(r.frame, p, p + |selected|, 0, n);
      assert selected[0..n] == selected[..n];
      if info.blockChecksum {
        SliceOfSlice(r.frame, p, p + |selected|, n, n + 4);
        SameLe32(selected, n, r.frame, p + n);
      }
    }

    /** What the content of a block leads to. */
    lemma ContentKnown(r: Run, mem: seq<byte>, io: Call, block: seq<byte>, out: seq<byte>)
      requires io.Within(|mem|) && OnUnpacked(r, mem, io, block) == true
      requires Content(block, HistoryOf(info, r.dictionary, r.Text(mem, io)), info.MaxBlockSize()) in {Outcome.Unspecified, Output(out)}
      ensures r.LeadsTo(Blocks(r.frame, r.Read(io), info, r.dictionary, r.Text(mem, io) + out, r.room)) == true
    {
      hide Between, Blocks, Content;
    }

    lemma ContentUnknown(r: Run, mem: seq<byte>, io: Call, block: seq<byte>)
      requires io.Within(|mem|) && OnUnpacked(r, mem, io, block) == true
      requires !Content(block, HistoryOf(info, r.dictionary, r.Text(mem, io)), info.MaxBlockSize()).Output?
      ensures r.Flawed(BlockFlaw) == true
    {
      hide Between, Blocks, Content;
    }

    lemma UnpackedParts(r: Run, mem: seq<byte>, io: Call, block: seq<byte>)
      requires io.Within(|mem|) && OnUnpacked(r, mem, io, block) == true
      ensures Between(r.dictionary, r.Text(mem, io), mem, io.dstPtr, io.dstEnd) == true
      ensures Ready() && maxBlockSize == info.MaxBlockSize() && DictInside(|mem|, io.dstPtr, io.dstEnd)
      ensures EndOf(DictBytes(mem), HistoryOf(info, r.dictionary, r.Text(mem, io))) == true
    {
      hide Unpacked, Content, EndOf, Tallied;
    }

    lemma OnBlocksAgain(r: Run, mem: seq<byte>, io: Call, p: int)
      requires io.Within(|mem|) && 0 <= p && Between(r.dictionary, r.Text(mem, io), mem, io.dstPtr, io.dstEnd) == true
      requires r.LeadsTo(Blocks(r.frame, p, info, r.dictionary, r.Text(mem, io), r.room)) == true
      ensures OnBlocks(r, mem, io, p) == true
    {
      hide Between, Blocks, Run.LeadsTo;
    }

    /** The output has room for any block: it is decoded where it goes. */
    method DecodeInPlace(ghost r: Run, mem: array<byte>, io1: Call, block: seq<byte>) returns (ok: bool, io: Call)
      requires Apart(mem) && io1.Within(mem.Length) && r.Matches(io1) && maxBlockSize <= io1.DstLeft() && |block| <= INT_MAX
      requires OnUnpacked(r, mem[..], io1, block) == true
      modifies this`xxh, this`frameRemainingSize, this`dict, this`dictSize, tmpOutBuffer, mem
      ensures forall i :: 0 <= i < mem.Length && !(io1.dstPtr <= i < io1.dstEnd) ==> mem[i] == old(mem[i])
      ensures io == io1.(dstPtr := io.dstPtr) && io1.dstPtr <= io.dstPtr <= io1.dstEnd
      ensures !ok ==> r.Flawed(BlockFlaw) == true
      ensures ok ==> OnBlocks(r, mem[..], io, r.Read(io)) == true
    {
      hide OnUnpacked, OnBlocks, Between, EndOf, Answers, Content, Run.LeadsTo, Blocks, Ready;
      io := io1;
      ghost var was, d, t := mem[..], r.dictionary, r.Text(mem[..], io);
      UnpackedParts(r, was, io, block);
      ghost var h, limit := HistoryOf(info, d, t), maxBlockSize;
      var dictArg := DictArgument(mem, h);
      var follows := dict.InMem? && dict.at + dictSize == io.dstPtr;
      var decodedSize := DecompressWithDict(block, mem, io.dstPtr, maxBlockSize, dictArg, follows);
      ContentAnswered(block, dictArg, h, limit, decodedSize, mem[..], io.dstPtr);
      if decodedSize < 0 {
        ContentUnknown(r, was, io, block);
        return false, io;
      }
      ghost var out := mem[io.dstPtr..io.dstPtr + decodedSize];
      ContentKnown(r, was, io, block, out);
      TextAtEnd(r, was, io);
      Deliver(mem, io, decodedSize, was, d, t, out);
      io := io.(dstPtr := io.dstPtr + decodedSize);
      TextGrows(r, was, mem[..], io1, io, out);
      OnBlocksAgain(r, mem[..], io, r.Read(io));
      ok := true;
    }

    /** "ensure enough place for tmpOut": behind the history, if that is in the decoder's own buffer, or behind room for it. */
    method MakeRoom(ghost mem: seq<byte>, ghost h: seq<byte>, ghost lo: int, ghost hi: int)
      requires Ready() == true && (!info.linked ==> tmpOut == 0 && AtHome()) && DictKept(mem, h, lo, hi) == true
      modifies this`dictSize, this`tmpOut, tmpOutBuffer
      ensures DictKept(mem, h, lo, hi) == true && (!info.linked ==> tmpOut == 0 && AtHome()) && tmpOut + maxBlockSize <= tmpOutBuffer.Length
      ensures info.linked ==> Min(WINDOW, |h|) <= tmpOut <= |h| && (dict == InTmp ==> dictSize == tmpOut)
    {
      if info.linked {
        if dict == InTmp {
          if dictSize > 128 * KB {
            TrimTmp(mem, h, lo, hi);
          }
          tmpOut := dictSize;
        } else {
          tmpOut := Min(dictSize, WINDOW);
        }
      }
    }

    /** The last 64 KB of the history move to the front of the buffer. */
    method TrimTmp(ghost mem: seq<byte>, ghost h: seq<byte>, ghost lo: int, ghost hi: int)
      requires dict == InTmp && 128 * KB < dictSize && DictKept(mem, h, lo, hi) == true
      modifies this`dictSize, tmpOutBuffer
      ensures dictSize == WINDOW && DictKept(mem, h, lo, hi) == true
    {
      hide EndOf;
      ghost var c := tmpOutBuffer[..dictSize];
      MoveWithin(tmpOutBuffer, 0, dictSize - WINDOW, WINDOW);
      dictSize := WINDOW;
      assert tmpOutBuffer[..dictSize] == c[|c| - WINDOW..];
      CutDict(c, WINDOW, h);
    }

    /** A block has been decoded behind `tmpOut`, and waits there. */
    lemma NowWaiting(was: seq<byte>, mem: seq<byte>, h: seq<byte>, lo: int, hi: int, size: nat)
      requires DictInside(|mem|, lo, hi) && tmpOut + size <= tmpOutBuffer.Length == |was| && size == tmpOutSize
      requires forall i :: 0 <= i < tmpOut ==> tmpOutBuffer[i] == was[i]
      requires Min(WINDOW, |h|) <= tmpOut <= |h| && (dict == InTmp ==> dictSize == tmpOut)
      requires if dict == InTmp then EndOf(was[..dictSize], h) else EndOf(DictBytes(mem), h)
      ensures Known(mem, h, true, 0) == true
    {
      assert tmpOutBuffer[tmpOut..tmpOut + 0] == h[|h| - 0..];
      if dict == InTmp {
        var c, out := tmpOutBuffer[..tmpOut], tmpOutBuffer[tmpOut..tmpOut + size];
        assert c == was[..dictSize];
        EndOfMore(c, h, out);
        assert tmpOutBuffer[..tmpOut + size] == c + out;
      }
      hide EndOf;
    }

    lemma UnpackedLeads(r: Run, mem: seq<byte>, io: Call, block: seq<byte>)
      requires io.Within(|mem|) && OnUnpacked(r, mem, io, block) == true
      ensures var d, t := r.dictionary, r.Text(mem, io);
              r.LeadsTo(Unpacked(r.frame, r.Read(io), info, d, t, Content(block, HistoryOf(info, d, t), maxBlockSize), r.room)) == true
    {
      hide Unpacked, Content, Tallied, DictKept;
    }

    /** The block is decoded behind `tmpOut`, and leaves alone what is in front of it. */
    method DecodeBehind(mem: array<byte>, block: seq<byte>, ghost h: seq<byte>) returns (decodedSize: int)
      requires mem != tmpOutBuffer && DictInside(mem.Length, 0, 0) && EndOf(DictBytes(mem[..]), h) && |block| <= INT_MAX
      requires tmpOut + maxBlockSize <= tmpOutBuffer.Length && 0 < maxBlockSize <= INT_MAX && (dict == InTmp ==> dictSize == tmpOut)
      modifies tmpOutBuffer
      ensures forall i :: 0 <= i < tmpOut ==> tmpOutBuffer[i] == old(tmpOutBuffer[i])
      ensures decodedSize <= maxBlockSize
      ensures decodedSize >= 0 ==> Content(block, h, maxBlockSize) in {Outcome.Unspecified, Output(tmpOutBuffer[tmpOut..tmpOut + decodedSize])}
      ensures decodedSize < 0 ==> !Content(block, h, maxBlockSize).Output?
    {
      hide *;
      var dictArg := DictArgument(mem, h);
      var follows := dict == InTmp;
      RoomAt(tmpOut, maxBlockSize, tmpOutBuffer.Length);
      decodedSize := DecompressWithDict(block, tmpOutBuffer, tmpOut, maxBlockSize, dictArg, follows);
      ContentAnswered(block, dictArg, h, maxBlockSize, decodedSize, tmpOutBuffer[..], tmpOut);
    }

    /** The decoded block is in `tmpOut`. */
    method StartFlushing(ghost r: Run, ghost mem: seq<byte>, ghost io: Call, size: nat, ghost was: seq<byte>, ghost h: seq<byte>)
      requires io.Within(|mem|) && Ready() == true && (!info.linked ==> tmpOut == 0 && AtHome()) && DictInside(|mem|, io.dstPtr, io.dstEnd)
      requires tmpOut + size <= tmpOutBuffer.Length == |was| && forall i :: 0 <= i < tmpOut ==> tmpOutBuffer[i] == was[i]
      requires h == HistoryOf(info, r.dictionary, r.Text(mem, io)) && Tallied(r.Text(mem, io)) == true
      requires info.linked ==> Min(WINDOW, |h|) <= tmpOut <= |h| && (dict == InTmp ==> dictSize == tmpOut)
      requires if dict == InTmp then dictSize <= |was| && EndOf(was[..dictSize], h) == true else EndOf(DictBytes(mem), h) == true
      requires r.LeadsTo(Blocks(r.frame, r.Read(io), info, r.dictionary, r.Text(mem, io) + tmpOutBuffer[tmpOut..tmpOut + size], r.room)) == true
      modifies this`xxh, this`frameRemainingSize, this`tmpOutSize, this`tmpOutStart
      ensures Flushing(r, mem, io) == true
    {
      hide EndOf, Run.LeadsTo, Blocks, Ready, Tallied, Known;
      tmpOutSize, tmpOutStart := size, 0;
      Tally(tmpOutBuffer[tmpOut..tmpOut + size], tmpOutBuffer[tmpOut..tmpOut + size], r.Text(mem, io));
      if info.linked { NowWaiting(was, mem, h, io.dstPtr, io.dstEnd, size); }
      FlushingStarts(r, mem, io);
    }

    lemma FlushingStarts(r: Run, mem: seq<byte>, io: Call)
      requires io.Within(|mem|) && Ready() == true && (!info.linked ==> tmpOut == 0 && AtHome()) && DictInside(|mem|, io.dstPtr, io.dstEnd)
      requires tmpOutStart == 0 && tmpOut + tmpOutSize <= tmpOutBuffer.Length
      requires var t, out := r.Text(mem, io), tmpOutBuffer[tmpOut..tmpOut + tmpOutSize];
        && Tallied(t + out) == true
        && (if info.linked then Known(mem, r.dictionary + t, true, 0) == true else EndOf(DictBytes(mem), r.dictionary) == true)
        && r.LeadsTo(Blocks(r.frame, r.Read(io), info, r.dictionary, t + out, r.room)) == true
      ensures Flushing(r, mem, io) == true
    {
      hide Ready, Tallied, Known, EndOf, Blocks, Run.LeadsTo;
    }

    /** The output is too small for some blocks: this one is decoded into the decoder's own buffer. */
    method DecodeIntoTmp(ghost r: Run, mem: array<byte>, io: Call, block: seq<byte>) returns (ok: bool)
      requires Apart(mem) && io.Within(mem.Length) && r.Matches(io) && |block| <= INT_MAX
      requires OnUnpacked(r, mem[..], io, block) == true
      modifies this`xxh, this`frameRemainingSize, this`dictSize, this`tmpOut, this`tmpOutSize, this`tmpOutStart, tmpOutBuffer
      ensures !ok ==> r.Flawed(BlockFlaw) == true
      ensures ok ==> Flushing(r, mem[..], io) == true
    {
      hide OnUnpacked, Between, EndOf, Answers, Content, Run.LeadsTo, Blocks, Ready, Tallied, Known, Unpacked;
      ghost var m, d, t, i := mem[..], r.dictionary, r.Text(mem[..], io), info;
      UnpackedParts(r, m, io, block);
      BetweenParts(d, t, m, io.dstPtr, io.dstEnd);
      UnpackedLeads(r, m, io, block);
      ghost var h, limit := HistoryOf(info, d, t), maxBlockSize;
      MakeRoom(m, h, io.dstPtr, io.dstEnd);
      ghost var was := tmpOutBuffer[..];
      var decodedSize := DecodeBehind(mem, block, h);
      ContentKnownToo(r, r.Read(io), i, d, t, Content(block, h, limit), tmpOutBuffer[tmpOut..tmpOut + Max(decodedSize, 0)], decodedSize >= 0);
      if decodedSize < 0 { return false; }
      StartFlushing(r, m, io, decodedSize, was, h);
      ok := true;
    }

    // ----- Putting out what waits -----

    lemma FlushingParts(r: Run, mem: seq<byte>, io: Call)
      requires io.Within(|mem|) && Flushing(r, mem, io) == true
      ensures Ready() == true && (!info.linked ==> tmpOut == 0 && AtHome()) && DictInside(|mem|, io.dstPtr, io.dstEnd)
      ensures tmpOutStart <= tmpOutSize && tmpOut + tmpOutSize <= tmpOutBuffer.Length
      ensures var t, left := r.Text(mem, io), tmpOutBuffer[tmpOut + tmpOutStart..tmpOut + tmpOutSize];
        && Tallied(t + left) == true
        && (if info.linked then Known(mem, r.dictionary + t, true, tmpOutStart) == true else EndOf(DictBytes(mem), r.dictionary) == true)
        && r.LeadsTo(Blocks(r.frame, r.Read(io), info, r.dictionary, t + left, r.room)) == true
    {
      hide Ready, Tallied, Known, EndOf, Blocks, Run.LeadsTo;
    }

    lemma FlushingAgain(r: Run, mem: seq<byte>, io: Call, x: Result, whole: seq<byte>)
      requires io.Within(|mem|) && Ready() == true && (!info.linked ==> tmpOut == 0 && AtHome()) && DictInside(|mem|, io.dstPtr, io.dstEnd)
      requires tmpOutStart <= tmpOutSize && tmpOut + tmpOutSize <= tmpOutBuffer.Length
      requires var t, left := r.Text(mem, io), tmpOutBuffer[tmpOut + tmpOutStart..tmpOut + tmpOutSize];
        && whole == t + left && Tallied(whole) == true
        && (if info.linked then Known(mem, r.dictionary + t, true, tmpOutStart) == true else EndOf(DictBytes(mem), r.dictionary) == true)
        && x == Blocks(r.frame, r.Read(io), info, r.dictionary, whole, r.room) && r.LeadsTo(x) == true
      ensures Flushing(r, mem, io) == true
    {
      hide Ready, Tallied, Known, EndOf, Blocks, Run.LeadsTo;
    }

    /** `n` bytes of what waits go to the output, and the history takes notice. */
    method FlushBytes(mem: array<byte>, io: Call, n: nat, ghost d: seq<byte>, ghost t: seq<byte>, ghost out: seq<byte>)
      requires Apart(mem) && io.Within(mem.Length) && n <= io.DstLeft() && Ready() == true && DictInside(mem.Length, io.dstPtr, io.dstEnd)
      requires tmpOutStart + n <= tmpOutSize && tmpOut + tmpOutSize <= tmpOutBuffer.Length && (!info.linked ==> AtHome())
      requires out == tmpOutBuffer[tmpOut + tmpOutStart..tmpOut + tmpOutStart + n]
      requires if info.linked then Known(mem[..], d + t, true, tmpOutStart) == true else EndOf(DictBytes(mem[..]), d) == true
      requires io.dstPtr - io.dstStart <= |t| && t[|t| - (io.dstPtr - io.dstStart)..] == mem[io.dstStart..io.dstPtr]
      modifies this`dict, this`dictSize, tmpOutBuffer, mem
      ensures forall i :: 0 <= i < mem.Length && !(io.dstPtr <= i < io.dstPtr + n) ==> mem[i] == old(mem[i])
      ensures mem[io.dstPtr..io.dstPtr + n] == out
      ensures DictInside(mem.Length, io.dstPtr + n, io.dstEnd) && tmpOut + tmpOutSize <= tmpOutBuffer.Length && (!info.linked ==> AtHome())
      ensures forall i :: tmpOut <= i < tmpOut + tmpOutSize ==> tmpOutBuffer[i] == old(tmpOutBuffer[i])
      ensures if info.linked then Known(mem[..], d + (t + out), true, tmpOutStart + n) == true else EndOf(DictBytes(mem[..]), d) == true
    {
      hide *;
      ghost var was := mem[..];
      WithinParts(io, mem.Length);
      ApartParts(mem);
      CopyFrom(mem, io.dstPtr, tmpOutBuffer, tmpOut + tmpOutStart, n);
      ghost var m := mem[..];
      Copied(m, io.dstPtr, tmpOutBuffer[..], tmpOut + tmpOutStart, n);
      if info.linked {
        FlushUpdate(mem, io, n, d, t, out, was);
      } else {
        DictUntouched(was, m, io.dstPtr, io.dstEnd);
        DictInsideLess(mem.Length, io.dstPtr, io.dstPtr + n, io.dstEnd);
      }
    }

    /** `n` bytes of what waits are put out. */
    method FlushSome(ghost r: Run, mem: array<byte>, io1: Call, n: nat) returns (io: Call)
      requires Apart(mem) && io1.Within(mem.Length) && Flushing(r, mem[..], io1) == true && n <= tmpOutSize - tmpOutStart && n <= io1.DstLeft()
      modifies this`dict, this`dictSize, this`tmpOutStart, tmpOutBuffer, mem
      ensures forall i :: 0 <= i < mem.Length && !(io1.dstPtr <= i < io1.dstPtr + n) ==> mem[i] == old(mem[i])
      ensures io == io1.(dstPtr := io1.dstPtr + n) && tmpOutStart == old(tmpOutStart) + n
      ensures Flushing(r, mem[..], io) == true
    {
      hide *;
      io := io1.(dstPtr := io1.dstPtr + n);
      WithinParts(io1, mem.Length);
      StillWithin(io1, io, mem.Length, n);
      SameRead(r, io1, io);
      ghost var was, tmp := mem[..], tmpOutBuffer[..];
      FlushingParts(r, was, io1);
      TextAtEnd(r, was, io1);
      ghost var a, e := tmpOut + tmpOutStart, tmpOut + tmpOutSize;
      FlushBytes(mem, io1, n, r.dictionary, r.Text(was, io1), tmp[a..a + n]);
      FlushedText(r, was, mem[..], io1, io, tmp, tmpOutBuffer[..], a, n, e);
      Advance(r, mem[..], io, n, r.Text(mem[..], io), tmpOutBuffer[a + n..e]);
    }

    /** `n` bytes of what waits have been put out: the text is `t` now, and `left` waits. */
    method Advance(ghost r: Run, ghost mem: seq<byte>, ghost io: Call, n: nat, ghost t: seq<byte>, ghost left: seq<byte>)
      requires io.Within(|mem|) && Ready() == true && (!info.linked ==> tmpOut == 0 && AtHome()) && DictInside(|mem|, io.dstPtr, io.dstEnd) == true
      requires tmpOutStart + n <= tmpOutSize && tmpOut + tmpOutSize <= tmpOutBuffer.Length
      requires t == r.Text(mem, io) && left == tmpOutBuffer[tmpOut + tmpOutStart + n..tmpOut + tmpOutSize] && Tallied(t + left) == true
      requires if info.linked then Known(mem, r.dictionary + t, true, tmpOutStart + n) == true else EndOf(DictBytes(mem), r.dictionary) == true
      requires r.LeadsTo(Blocks(r.frame, r.Read(io), info, r.dictionary, t + left, r.room)) == true
      modifies this`tmpOutStart
      ensures tmpOutStart == old(tmpOutStart) + n && Flushing(r, mem, io) == true
    {
      hide Flushing, Known, EndOf, Ready, Tallied, Blocks, Run.LeadsTo;
      tmpOutStart := tmpOutStart + n;
      FlushingAgain(r, mem, io, Blocks(r.frame, r.Read(io), info, r.dictionary, t + left, r.room), t + left);
    }

    /** LZ4F_updateDict for output from `tmpOut`, of which the bytes are already in place. */
    method FlushUpdate(mem: array<byte>, io: Call, n: nat, ghost d: seq<byte>, ghost t: seq<byte>, ghost out: seq<byte>, ghost was: seq<byte>)
      requires Apart(mem) && io.Within(mem.Length) && n <= io.DstLeft() && |was| == mem.Length && Ready() == true && info.linked
      requires DictInside(mem.Length, io.dstPtr, io.dstEnd) && Known(was, d + t, true, tmpOutStart) == true
      requires tmpOutStart + n <= tmpOutSize && tmpOut + tmpOutSize <= tmpOutBuffer.Length
      requires forall i :: 0 <= i < mem.Length && !(io.dstPtr <= i < io.dstEnd) ==> mem[i] == was[i]
      requires out == mem[io.dstPtr..io.dstPtr + n] == tmpOutBuffer[tmpOut + tmpOutStart..tmpOut + tmpOutStart + n]
      requires io.dstPtr - io.dstStart <= |t| && t[|t| - (io.dstPtr - io.dstStart)..] == was[io.dstStart..io.dstPtr]
      modifies this`dict, this`dictSize, tmpOutBuffer
      ensures DictInside(mem.Length, io.dstPtr + n, io.dstEnd) && Known(mem[..], d + (t + out), true, tmpOutStart + n) == true
      ensures tmpOut + tmpOutSize <= tmpOutBuffer.Length
      ensures forall i :: tmpOut <= i < tmpOut + tmpOutSize ==> tmpOutBuffer[i] == old(tmpOutBuffer[i])
    {
      hide Ready, OutputIsHistory, Updatable, Updated, Known;
      ghost var m, tmp := mem[..], tmpOutBuffer[..];
      OutputInHistory(was, m, io, d, t);
      WaitingUpdatable(was, m, d + t, io.dstPtr, n, io.dstEnd);
      UpdateDict(mem, io.dstPtr, n, io.dstStart, true, d + t, io.dstEnd);
      assert mem[..] == m;
      WaitingUpdated(m, d + t, io.dstPtr, n, io.dstEnd, tmp);
      assert d + t + out == d + (t + out);
    }

    lemma WaitingUpdatable(was: seq<byte>, mem: seq<byte>, h: seq<byte>, lo: int, n: nat, hi: int)
      requires |was| == |mem| && 0 <= lo && lo + n <= hi <= |mem| && DictInside(|mem|, lo, hi) && Known(was, h, true, tmpOutStart) == true
      requires forall i :: 0 <= i < |mem| && !(lo <= i < hi) ==> mem[i] == was[i]
      requires tmpOutStart + n <= tmpOutSize && tmpOut + tmpOutSize <= tmpOutBuffer.Length
      requires mem[lo..lo + n] == tmpOutBuffer[tmpOut + tmpOutStart..tmpOut + tmpOutStart + n]
      ensures Updatable(mem, h, true, lo, n, hi) == true
    {
      hide EndOf, Waiting, WaitingIn;
      DictUntouched(was, mem, lo, hi);
    }

    lemma WaitingUpdated(mem: seq<byte>, h: seq<byte>, lo: int, n: nat, hi: int, was: seq<byte>)
      requires Updated(mem, h, true, lo, n, hi, was) == true
      ensures DictInside(|mem|, lo + n, hi) && Known(mem, h + mem[lo..lo + n], true, tmpOutStart + n) == true
      ensures tmpOut + tmpOutSize <= tmpOutBuffer.Length == |was| && forall i :: tmpOut <= i < tmpOut + tmpOutSize ==> tmpOutBuffer[i] == was[i]
    {
      hide Known;
    }

    /** When nothing waits any more, the history is at hand for the next block. */
    lemma FlushingDone(r: Run, mem: seq<byte>, io: Call)
      requires io.Within(|mem|) && Flushing(r, mem, io) == true && tmpOutStart == tmpOutSize
      ensures OnBlocks(r, mem, io, r.Read(io)) == true
    {
      hide Flushing, Known, EndOf, Ready, Tallied, Blocks, Run.LeadsTo, OnBlocks, Between, DictKept;
      FlushingParts(r, mem, io);
      ghost var d, t := r.dictionary, r.Text(mem, io);
      assert t + tmpOutBuffer[tmpOut + tmpOutStart..tmpOut + tmpOutSize] == t;
      KnownDone(mem, HistoryOf(info, d, t), io.dstPtr, io.dstEnd);
      BetweenAgain(d, t, mem, io.dstPtr, io.dstEnd);
      OnBlocksAgain(r, mem, io, r.Read(io));
    }

    lemma KnownDone(mem: seq<byte>, h: seq<byte>, lo: int, hi: int)
      requires DictInside(|mem|, lo, hi) && tmpOutStart == tmpOutSize
      requires if info.linked then Known(mem, h, true, tmpOutStart) else EndOf(DictBytes(mem), h)
      ensures DictKept(mem, h, lo, hi) == true
    {
      hide EndOf, Waiting;
      if info.linked && dict == InTmp {
        assert h + tmpOutBuffer[tmpOut + tmpOutStart..tmpOut + tmpOutSize] == h;
      }
    }

    lemma WaitInFlush(r: Run, mem: seq<byte>, io0: Call, io: Call, left: int, rank: nat, hint: nat)
      requires Placed(r.frame, r.Read(io)) == true
      requires hint == Hint()
      requires On(r, |mem|, io0, io) == true && dStage == FlushOut && hint != 0 && Blocked(io) && Flushing(r, mem, io) == true
      ensures Went(r, mem, io0, io, left, rank, Stop(hint)) == true
    {
      hide Flushing, HeaderAt, InBlock, BehindBlocks;
    }

    /** The stage dstage_flushOut. */
    method DoFlushOut(ghost r: Run, mem: array<byte>, ghost io0: Call, io1: Call, ghost left: int, ghost rank: nat)
      returns (status: Status, io: Call)
      requires Apart(mem) && On(r, mem.Length, io0, io1) == true && dStage == FlushOut && Flushing(r, mem[..], io1) == true
      requires HeaderAt(r.frame, r.Read(io1)) == true
      requires io1.SrcLeft() < left || (io1.SrcLeft() == left && 3 < rank)
      modifies this`dStage, this`dict, this`dictSize, this`tmpOutStart, tmpOutBuffer, mem
      ensures forall i :: 0 <= i < mem.Length && !(io1.dstPtr <= i < io1.dstEnd) ==> mem[i] == old(mem[i])
      ensures Went(r, mem[..], io0, io, left, rank, status) == true
    {
      hide *;
      OnParts(r, mem.Length, io0, io1);
      WithinParts(io1, mem.Length);
      FlushingParts(r, mem[..], io1);
      io := io1;
      Lesser(tmpOutSize - tmpOutStart, io.DstLeft());
      if io.hasDst {
        var sizeToCopy := Min(tmpOutSize - tmpOutStart, io.DstLeft());
        io := FlushSome(r, mem, io, sizeToCopy);
        StillWithin(io1, io, mem.Length, sizeToCopy);
        SameRead(r, io1, io);
        OnStill(r, mem.Length, io0, io1, io);
      }
      if tmpOutStart == tmpOutSize {
        FlushingDone(r, mem[..], io);
        dStage := GetBlockHeader;
        PlacedNext(r.frame, r.Read(io));
        OnToNextBlock(r, mem[..], io0, io, left, rank);
        return Again, io;
      }
      HeldBack(io);
      PlacedIs(r.frame, r.Read(io));
      WaitInFlush(r, mem[..], io0, io, left, rank, BLOCK_HEADER);
      status := Stop(BLOCK_HEADER);
    }

    /** "At this stage, input is large enough to decode a block". */
    method DoCBlock(ghost r: Run, mem: array<byte>, ghost io0: Call, io1: Call, selected: seq<byte>, ghost left: int, ghost rank: nat)
      returns (status: Status, io: Call)
      requires Apart(mem) && On(r, mem.Length, io0, io1) == true && io1.SrcLeft() < left && maxBlockSize <= 4 * MB
      requires info.ChecksumSize() < tmpInTarget == |selected| <= maxBlockSize + info.ChecksumSize() && tmpInTarget <= r.Read(io1)
      requires selected == r.frame[r.Read(io1) - tmpInTarget..r.Read(io1)]
      requires OnPacked(r, mem[..], io1, r.Read(io1) - tmpInTarget, tmpInTarget - info.ChecksumSize()) == true && !r.room.Reached(|r.Text(mem[..], io1)|)
      requires HeaderAt(r.frame, r.Read(io1)) == true
      modifies this`dStage, this`tmpInTarget, this`xxh, this`frameRemainingSize, this`dict, this`dictSize, this`tmpOut, this`tmpOutSize, this`tmpOutStart, tmpOutBuffer, mem
      ensures forall i :: 0 <= i < mem.Length && !(io1.dstPtr <= i < io1.dstEnd) ==> mem[i] == old(mem[i])
      ensures Went(r, mem[..], io0, io, left, rank, status) == true
    {
      hide OnPacked, OnUnpacked, OnBlocks, Flushing, Went, IsChecksum, Le32, Run.Owed, HeaderAt, Placed;
      io := io1;
      PackedRead(r, mem[..], io, selected, tmpInTarget - info.ChecksumSize());
      if info.blockChecksum {
        tmpInTarget := tmpInTarget - CHECKSUM;
        if !IsChecksum(Le32(selected, tmpInTarget), selected[..tmpInTarget]) {
          Errors(r.frame);
          FlawRejects(r, BlockChecksumFlaw, BlockChecksumInvalid);
          Failing(r, mem[..], io0, io, left, rank, BlockChecksumInvalid);
          return Fail(BlockChecksumInvalid), io;
        }
      }
      assert OnUnpacked(r, mem[..], io, selected[..tmpInTarget]) == true;
      status, io := DecodeSelected(r, mem, io0, io, selected[..tmpInTarget], left, rank);
    }

    /** A block whose checksum is right. */
    method DecodeSelected(ghost r: Run, mem: array<byte>, ghost io0: Call, io1: Call, block: seq<byte>, ghost left: int, ghost rank: nat)
      returns (status: Status, io: Call)
      requires Apart(mem) && On(r, mem.Length, io0, io1) == true && io1.SrcLeft() < left && |block| <= INT_MAX
      requires OnUnpacked(r, mem[..], io1, block) == true && HeaderAt(r.frame, r.Read(io1)) == true
      modifies this`dStage, this`xxh, this`frameRemainingSize, this`dict, this`dictSize, this`tmpOut, this`tmpOutSize, this`tmpOutStart, tmpOutBuffer, mem
      ensures forall i :: 0 <= i < mem.Length && !(io1.dstPtr <= i < io1.dstEnd) ==> mem[i] == old(mem[i])
      ensures Went(r, mem[..], io0, io, left, rank, status) == true
    {
      hide OnUnpacked, OnBlocks, Flushing, Went, Run.Owed, HeaderAt, Placed;
      io := io1;
      if io.DstLeft() >= maxBlockSize {
        var ok;
        ok, io := DecodeInPlace(r, mem, io, block);
        if !ok {
          Errors(r.frame);
          FlawRejects(r, BlockFlaw, Generic);
          Failing(r, mem[..], io0, io, left, rank, Generic);
          return Fail(Generic), io;
        }
        dStage := GetBlockHeader;
        PlacedNext(r.frame, r.Read(io));
        OnToNextBlock(r, mem[..], io0, io, left, rank);
        return Again, io;
      }
      var ok := DecodeIntoTmp(r, mem, io, block);
      if !ok {
        Errors(r.frame);
        FlawRejects(r, BlockFlaw, DecompressionFailed);
        Failing(r, mem[..], io0, io, left, rank, DecompressionFailed);
        return Fail(DecompressionFailed), io;
      }
      dStage := FlushOut;
      assert Flushing(r, mem[..], io) == true;
      status, io := DoFlushOut(r, mem, io0, io, left, rank);
    }

    lemma WaitInPacked(r: Run, mem: seq<byte>, io0: Call, io: Call, left: int, rank: nat, hint: nat)
      requires Placed(r.frame, r.Read(io)) == true
      requires hint == Hint()
      requires On(r, |mem|, io0, io) == true && dStage == StoreCBlock && hint != 0 && io.SrcLeft() == 0
      requires info.ChecksumSize() < tmpInTarget <= maxBlockSize + info.ChecksumSize() && tmpInSize < tmpInTarget
      requires Stored(r.frame, tmpIn, tmpInSize, r.Read(io)) == true && OnPacked(r, mem, io, r.Read(io) - tmpInSize, tmpInTarget - info.ChecksumSize()) == true
      requires !r.room.Reached(|r.Text(mem, io)|)
      ensures Went(r, mem, io0, io, left, rank, Stop(hint)) == true
    {
      hide OnPacked, Stored, HeaderAt, InBlock, BehindBlocks;
    }

    lemma OnToStorePacked(r: Run, mem: seq<byte>, io0: Call, io: Call, left: int, rank: nat)
      requires Placed(r.frame, r.Read(io)) == true
      requires On(r, |mem|, io0, io) == true && dStage == StoreCBlock && tmpInSize == 0 && io.SrcLeft() <= left && 2 < rank
      requires info.ChecksumSize() < tmpInTarget <= maxBlockSize + info.ChecksumSize()
      requires OnPacked(r, mem, io, r.Read(io), tmpInTarget - info.ChecksumSize()) == true && !r.room.Reached(|r.Text(mem, io)|)
      ensures Went(r, mem, io0, io, left, rank, Again) == true
    {
      hide OnPacked, Stored, HeaderAt, InBlock, BehindBlocks;
      NothingStored(r.frame, tmpIn, r.Read(io));
    }

    lemma MovePacked(r: Run, mem: seq<byte>, io1: Call, io: Call, p: int, n: nat)
      requires io1.Within(|mem|) && io == io1.(srcPtr := io.srcPtr) && io.Within(|mem|) && OnPacked(r, mem, io1, p, n) == true
      ensures OnPacked(r, mem, io, p, n) == true
    {
      hide Between, PackedBlock;
    }

    lemma PackedReady(r: Run, mem: seq<byte>, io: Call, p: int, n: nat)
      requires io.Within(|mem|) && OnPacked(r, mem, io, p, n) == true
      ensures Ready() && maxBlockSize <= 4 * MB
    {
      hide PackedBlock, Tallied, DictKept;
    }

    /** The stage dstage_getCBlock. */
    method DoGetCBlock(ghost r: Run, mem: array<byte>, ghost io0: Call, io1: Call, ghost left: int, ghost rank: nat)
      returns (status: Status, io: Call)
      requires Apart(mem) && On(r, mem.Length, io0, io1) == true && io1.SrcLeft() <= left && dStage == GetCBlock && 2 < rank
      requires info.ChecksumSize() < tmpInTarget <= maxBlockSize + info.ChecksumSize()
      requires OnPacked(r, mem[..], io1, r.Read(io1), tmpInTarget - info.ChecksumSize()) == true && !r.room.Reached(|r.Text(mem[..], io1)|)
      requires InBlock(r.frame, r.Read(io1), r.Read(io1) + tmpInTarget, false) == true
      modifies this`dStage, this`tmpInSize, this`tmpInTarget, this`xxh, this`frameRemainingSize, this`dict, this`dictSize,
               this`tmpOut, this`tmpOutSize, this`tmpOutStart, tmpOutBuffer, mem
      ensures forall i :: 0 <= i < mem.Length && !(io1.dstPtr <= i < io1.dstEnd) ==> mem[i] == old(mem[i])
      ensures Went(r, mem[..], io0, io, left, rank, status) == true
    {
      hide OnPacked, Went, Run.Owed, InBlock, HeaderAt, Placed;
      PackedReady(r, mem[..], io1, r.Read(io1), tmpInTarget - info.ChecksumSize());
      io := io1;
      if io.SrcLeft() < tmpInTarget {
        tmpInSize := 0;
        dStage := StoreCBlock;
        PlacedIs(r.frame, r.Read(io));
        OnToStorePacked(r, mem[..], io0, io, left, rank);
        return Again, io;
      }
      var selected := io.src[io.srcPtr..io.srcPtr + tmpInTarget];
      ReadOn(r, io, 0, tmpInTarget);
      io := io.(srcPtr := io.srcPtr + tmpInTarget);
      MovePacked(r, mem[..], io1, io, r.Read(io) - tmpInTarget, tmpInTarget - info.ChecksumSize());
      assert selected == r.frame[r.Read(io) - tmpInTarget..r.Read(io)];
      BehindBlock(r.frame, r.Read(io1), r.Read(io), false);
      status, io := DoCBlock(r, mem, io0, io, selected, left, rank);
    }

    /** The stage dstage_storeCBlock. */
    method DoStoreCBlock(ghost r: Run, mem: array<byte>, ghost io0: Call, io1: Call, ghost left: int, ghost rank: nat)
      returns (status: Status, io: Call)
      requires Apart(mem) && On(r, mem.Length, io0, io1) == true && io1.SrcLeft() <= left && dStage == StoreCBlock
      requires info.ChecksumSize() < tmpInTarget <= maxBlockSize + info.ChecksumSize()
      requires tmpInSize < tmpInTarget && Stored(r.frame, tmpIn, tmpInSize, r.Read(io1)) == true
      requires OnPacked(r, mem[..], io1, r.Read(io1) - tmpInSize, tmpInTarget - info.ChecksumSize()) == true && !r.room.Reached(|r.Text(mem[..], io1)|)
      requires InBlock(r.frame, r.Read(io1), r.Read(io1) - tmpInSize + tmpInTarget, false) == true
      modifies this`dStage, this`tmpInSize, this`tmpInTarget, this`xxh, this`frameRemainingSize, this`dict, this`dictSize,
               this`tmpOut, this`tmpOutSize, this`tmpOutStart, tmpIn, tmpOutBuffer, mem
      ensures forall i :: 0 <= i < mem.Length && !(io1.dstPtr <= i < io1.dstEnd) ==> mem[i] == old(mem[i])
      ensures Went(r, mem[..], io0, io, left, rank, status) == true
    {
      hide OnPacked, Went, Stored, Run.Owed, InBlock, HeaderAt, Placed;
      ghost var p, n := r.Read(io1) - tmpInSize, tmpInTarget - info.ChecksumSize();
      PackedReady(r, mem[..], io1, p, n);
      var sizeToCopy;
      sizeToCopy, io := Fill(r, tmpIn, tmpInSize, tmpInTarget, io1);
      tmpInSize := tmpInSize + sizeToCopy;
      MovePacked(r, mem[..], io1, io, p, n);
      if tmpInSize < tmpInTarget {
        FurtherIn(r.frame, r.Read(io1), r.Read(io), p + tmpInTarget, false);
        PlacedIs(r.frame, r.Read(io));
        status := Stop((tmpInTarget - tmpInSize) + info.ChecksumSize() + BLOCK_HEADER);
        WaitInPacked(r, mem[..], io0, io, left, rank, status.hint);
        return;
      }
      var selected := tmpIn[..tmpInTarget];
      BehindBlock(r.frame, r.Read(io1), r.Read(io), false);
      status, io := DoCBlock(r, mem, io0, io, selected, left, rank);
    }

    // ----- The end of a frame -----

    lemma Finishing(r: Run, mem: seq<byte>, io0: Call, io: Call, left: int, rank: nat)
      requires On(r, |mem|, io0, io) == true && r.LeadsTo(Complete(r.Text(mem, io), r.Read(io))) == true
      requires dStage == GetFrameHeader && dict == Null && dictSize == 0 && r.Leaves(frameRemainingSize) && r.Owed() == 0
      ensures Went(r, mem, io0, io, left, rank, Stop(0)) == true
    {
    }

    /** LZ4F_resetDecompressionContext. */
    method ResetContext()
      modifies this`dStage, this`dict, this`dictSize
      ensures dStage == GetFrameHeader && dict == Null && dictSize == 0
      ensures Buffers() ==> Idle()
    {
      dStage, dict, dictSize := GetFrameHeader, Null, 0;
    }

    /** The size of the content, as far as it was announced. */
    lemma SuffixSize(r: Run, mem: seq<byte>, io: Call, p: nat)
      requires io.Within(|mem|) && p <= |r.frame| && OnSuffix(r, mem, io, p) == true
      ensures owed == r.Owed() && frameRemainingSize != 0 ==> r.Rejects(FrameSizeWrong)
      ensures frameRemainingSize == 0 ==> owed == 0
      ensures frameRemainingSize == 0 && !info.contentChecksum ==> r.LeadsTo(Complete(r.Text(mem, io), p)) == true
      ensures frameRemainingSize == 0 && info.contentChecksum && p + CHECKSUM <= |r.frame| ==>
        if IsChecksum(Le32(r.frame, p), xxh) then
          r.LeadsTo(Complete(r.Text(mem, io), p + CHECKSUM)) == true
        else
          r.Flawed(ChecksumFlaw) == true
      ensures Ready()
    {
      hide DictKept, IsChecksum, Le32;
      SizeReached(info.contentSize, |r.Text(mem, io)|);
    }

    lemma SuffixRoom(r: Run, mem: seq<byte>, io: Call, p: int)
      requires io.Within(|mem|) && OnSuffix(r, mem, io, p) == true
      ensures CHECKSUM <= tmpIn.Length && header != tmpIn && tmpIn != tmpOutBuffer
    {
      hide Suffix, Tallied;
    }

    lemma MoveSuffix(r: Run, mem: seq<byte>, io1: Call, io: Call, p: int)
      requires io1.Within(|mem|) && io == io1.(srcPtr := io.srcPtr) && io.Within(|mem|) && OnSuffix(r, mem, io1, p) == true
      ensures OnSuffix(r, mem, io, p) == true
    {
      hide Between, Suffix;
    }

    /** The stage dstage_getSuffix. */
    method DoGetSuffix(ghost r: Run, mem: array<byte>, ghost io0: Call, io1: Call, ghost left: int, ghost rank: nat)
      returns (status: Status, io: Call)
      requires Apart(mem) && On(r, mem.Length, io0, io1) == true && dStage == GetSuffix && OnSuffix(r, mem[..], io1, r.Read(io1)) == true
      requires BehindBlocks(r.frame, r.Read(io1)) == true
      modifies this`dStage, this`tmpInSize, this`dict, this`dictSize, tmpIn
      ensures Went(r, mem[..], io0, io, left, rank, status) == true
    {
      hide OnSuffix, Went, IsChecksum, Le32, Run.LeadsTo, Run.Owed, BehindBlocks, Placed;
      io := io1;
      SuffixSize(r, mem[..], io, r.Read(io));
      if frameRemainingSize != 0 {
        Failing(r, mem[..], io0, io, left, rank, FrameSizeWrong);
        return Fail(FrameSizeWrong), io;
      }
      if !info.contentChecksum {
        ResetContext();
        Finishing(r, mem[..], io0, io, left, rank);
        return Stop(0), io;
      }
      if io.SrcLeft() < CHECKSUM {
        tmpInSize := 0;
        dStage := StoreSuffix;
        NothingStored(r.frame, tmpIn, r.Read(io));
        status, io := DoStoreSuffix(r, mem, io0, io, left, rank);
      } else {
        SelectedLe32(r, io);
        var readCRC := Le32(io.src, io.srcPtr);
        io := io.(srcPtr := io.srcPtr + CHECKSUM);
        MoveSuffix(r, mem[..], io1, io, r.Read(io) - CHECKSUM);
        status := CheckSuffix(r, mem[..], io0, io, readCRC, left, rank);
      }
    }

    /** The content checksum decides. */
    method CheckSuffix(ghost r: Run, ghost mem: seq<byte>, ghost io0: Call, ghost io: Call, readCRC: nat, ghost left: int, ghost rank: nat)
      returns (status: Status)
      requires On(r, |mem|, io0, io) == true && CHECKSUM <= r.Read(io) && readCRC == Le32(r.frame, r.Read(io) - CHECKSUM)
      requires OnSuffix(r, mem, io, r.Read(io) - CHECKSUM) == true && info.contentChecksum && frameRemainingSize == 0
      modifies this`dStage, this`dict, this`dictSize
      ensures Went(r, mem, io0, io, left, rank, status) == true
    {
      hide OnSuffix, Went, IsChecksum, Le32, Run.LeadsTo;
      SuffixSize(r, mem, io, r.Read(io) - CHECKSUM);
      if !IsChecksum(readCRC, xxh) {
        Errors(r.frame);
        FlawRejects(r, ChecksumFlaw, ContentChecksumInvalid);
        Failing(r, mem, io0, io, left, rank, ContentChecksumInvalid);
        return Fail(ContentChecksumInvalid);
      }
      ResetContext();
      Finishing(r, mem, io0, io, left, rank);
      status := Stop(0);
    }

    lemma WaitInSuffix(r: Run, mem: seq<byte>, io0: Call, io: Call, left: int, rank: nat, hint: nat)
      requires Placed(r.frame, r.Read(io)) == true
      requires hint == Hint()
      requires On(r, |mem|, io0, io) == true && dStage == StoreSuffix && hint != 0 && io.SrcLeft() == 0 && tmpInSize < CHECKSUM && Stored(r.frame, tmpIn, tmpInSize, r.Read(io)) == true
      requires info.contentChecksum && frameRemainingSize == 0 && OnSuffix(r, mem, io, r.Read(io) - tmpInSize) == true
      ensures Went(r, mem, io0, io, left, rank, Stop(hint)) == true
    {
      hide OnSuffix, Stored, HeaderAt, InBlock, BehindBlocks;
    }

    /** The stage dstage_storeSuffix. */
    method DoStoreSuffix(ghost r: Run, mem: array<byte>, ghost io0: Call, io1: Call, ghost left: int, ghost rank: nat)
      returns (status: Status, io: Call)
      requires Apart(mem) && On(r, mem.Length, io0, io1) == true && dStage == StoreSuffix && tmpInSize < CHECKSUM && Stored(r.frame, tmpIn, tmpInSize, r.Read(io1)) == true
      requires info.contentChecksum && frameRemainingSize == 0 && OnSuffix(r, mem[..], io1, r.Read(io1) - tmpInSize) == true
      requires BehindBlocks(r.frame, r.Read(io1) - tmpInSize) == true
      modifies this`dStage, this`tmpInSize, this`dict, this`dictSize, tmpIn
      ensures Went(r, mem[..], io0, io, left, rank, status) == true
    {
      hide OnSuffix, Went, Le32, Stored, Buffers, BehindBlocks, Placed;
      StoredBounds(r.frame, tmpIn, tmpInSize, r.Read(io1));
      ghost var p := r.Read(io1) - tmpInSize;
      SuffixRoom(r, mem[..], io1, p);
      var sizeToCopy;
      sizeToCopy, io := Fill(r, tmpIn, tmpInSize, CHECKSUM, io1);
      tmpInSize := tmpInSize + sizeToCopy;
      MoveSuffix(r, mem[..], io1, io, p);
      if tmpInSize < CHECKSUM {
        PlacedIs(r.frame, r.Read(io));
        status := Stop(CHECKSUM - tmpInSize);
        WaitInSuffix(r, mem[..], io0, io, left, rank, status.hint);
        return;
      }
      StoredLe32(r.frame, tmpIn, r.Read(io));
      status := CheckSuffix(r, mem[..], io0, io, Le32(tmpIn[..], 0), left, rank);
    }

    // ----- Skippable frames -----

    lemma OnToSkippable(r: Run, mem: seq<byte>, io0: Call, io: Call, left: int, rank: nat)
      requires On(r, |mem|, io0, io) == true && dStage == SkipSkippable && io.SrcLeft() < left && r.Read(io) == 8
      requires Starting(r.dictionary, r.Text(mem, io), mem, io.dstPtr, io.dstEnd) == true && frameRemainingSize == r.left
      requires 8 <= |r.frame| && tmpInTarget == Le32(r.frame, 4) && r.LeadsTo(SkippableFrame(r.frame)) && ReadHeader(r.frame).Skippable?
      ensures Went(r, mem, io0, io, left, rank, Again) == true
    {
      hide Starting, Le32;
    }

    /** The size of a skippable frame is known. */
    method StartSkipping(size: nat)
      modifies this`info, this`tmpInTarget, this`dStage
      ensures tmpInTarget == size && dStage == SkipSkippable
    {
      info := info.(contentSize := size);
      tmpInTarget := size;
      dStage := SkipSkippable;
    }

    /** The stage dstage_getSFrameSize. */
    method DoGetSFrameSize(ghost r: Run, mem: array<byte>, ghost io0: Call, io1: Call, ghost left: int, ghost rank: nat)
      returns (status: Status, io: Call)
      requires Apart(mem) && On(r, mem.Length, io0, io1) == true && io1.SrcLeft() <= left && dStage == GetSFrameSize
      requires Starting(r.dictionary, r.Text(mem[..], io1), mem[..], io1.dstPtr, io1.dstEnd) == true && frameRemainingSize == r.left && r.Read(io1) == 4
      requires MIN_HEADER <= |r.frame| && r.LeadsTo(SkippableFrame(r.frame)) && ReadHeader(r.frame).Skippable?
      modifies this`info, this`dStage, this`tmpInSize, this`tmpInTarget, header
      ensures Went(r, mem[..], io0, io, left, rank, status) == true
    {
      hide Starting, Went, SkippableFrame, Le32;
      io := io1;
      if io.SrcLeft() >= 4 {
        SelectedLe32(r, io);
        var size := Le32(io.src, io.srcPtr);
        io := io.(srcPtr := io.srcPtr + 4);
        StartSkipping(size);
        OnToSkippable(r, mem[..], io0, io, left, rank);
        return Again, io;
      }
      tmpInSize, tmpInTarget := 4, 8;
      dStage := StoreSFrameSize;
      assert SizeStored(r.frame, header, 4) by { assert header[4..4] == r.frame[4..4]; }
      status, io := DoStoreSFrameSize(r, mem, io0, io, left, rank);
    }

    lemma WaitForSkippableSize(r: Run, mem: seq<byte>, io0: Call, io: Call, left: int, rank: nat, hint: nat)
      requires hint == Hint()
      requires On(r, |mem|, io0, io) == true && dStage == StoreSFrameSize && hint != 0 && io.SrcLeft() == 0 && InSkippableSize(r, mem, io) == true
      ensures Went(r, mem, io0, io, left, rank, Stop(hint)) == true
    {
      hide InSkippableSize;
    }

    /** The stage dstage_storeSFrameSize. */
    method DoStoreSFrameSize(ghost r: Run, mem: array<byte>, ghost io0: Call, io1: Call, ghost left: int, ghost rank: nat)
      returns (status: Status, io: Call)
      requires Apart(mem) && On(r, mem.Length, io0, io1) == true && io1.SrcLeft() <= left && dStage == StoreSFrameSize && InSkippableSize(r, mem[..], io1) == true
      modifies this`info, this`dStage, this`tmpInSize, this`tmpInTarget, header
      ensures Went(r, mem[..], io0, io, left, rank, status) == true
    {
      hide Starting, Went, SkippableFrame, Le32, SizeStored;
      var sizeToCopy;
      sizeToCopy, io := FillSize(r, io1);
      if tmpInSize < tmpInTarget {
        status := Stop(tmpInTarget - tmpInSize);
        WaitForSkippableSize(r, mem[..], io0, io, left, rank, status.hint);
        return;
      }
      SizeLe32(r.frame, header);
      StartSkipping(Le32(header[..], 4));
      OnToSkippable(r, mem[..], io0, io, left, rank);
      status := Again;
    }

    method FillSize(ghost r: Run, io: Call) returns (n: nat, io': Call)
      requires r.Matches(io) && 4 <= tmpInSize < 8 && tmpInTarget == 8 && SizeStored(r.frame, header, tmpInSize) == true && r.Read(io) == tmpInSize
      modifies this`tmpInSize, header
      ensures n == Min(tmpInTarget - old(tmpInSize), io.SrcLeft()) && io' == io.(srcPtr := io.srcPtr + n) && tmpInSize == old(tmpInSize) + n
      ensures r.Matches(io') && SizeStored(r.frame, header, tmpInSize) == true
    {
      ghost var p, was := tmpInSize, header[..tmpInSize];
      n := Min(tmpInTarget - tmpInSize, io.SrcLeft());
      assert was[4..] == r.frame[4..p] by { assert was[4..] == header[4..p]; }
      StoreBytes(header, tmpInSize, io.src, io.srcPtr, n);
      ReadOn(r, io, 0, n);
      io' := io.(srcPtr := io.srcPtr + n);
      tmpInSize := tmpInSize + n;
      SizeGrows(r.frame, header, p, tmpInSize, was, io.src[io.srcPtr..io.srcPtr + n]);
    }

    lemma WaitInSkippable(r: Run, mem: seq<byte>, io0: Call, io: Call, left: int, rank: nat, hint: nat)
      requires Placed(r.frame, r.Read(io)) == true
      requires hint == Hint()
      requires On(r, |mem|, io0, io) == true && dStage == SkipSkippable && hint != 0 && tmpInTarget != 0 && io.SrcLeft() == 0 && InSkippable(r, mem, io) == true
      ensures Went(r, mem, io0, io, left, rank, Stop(hint)) == true
    {
      hide InSkippable;
    }

    /** The stage dstage_skipSkippable. */
    method DoSkipSkippable(ghost r: Run, mem: array<byte>, ghost io0: Call, io1: Call, ghost left: int, ghost rank: nat)
      returns (status: Status, io: Call)
      requires Apart(mem) && On(r, mem.Length, io0, io1) == true && dStage == SkipSkippable && InSkippable(r, mem[..], io1) == true
      requires 8 <= |r.frame| && 8 <= r.Read(io1) && r.Read(io1) + tmpInTarget == 8 + Le32(r.frame, 4)
      modifies this`dStage, this`tmpInTarget, this`dict, this`dictSize
      ensures Went(r, mem[..], io0, io, left, rank, status) == true
    {
      hide Starting, Went;
      assert r.Text(mem[..], io1) == [] by { StartingText(r.dictionary, r.Text(mem[..], io1), mem[..], io1.dstPtr, io1.dstEnd); }
      io := io1;
      var skipSize := Min(tmpInTarget, io.SrcLeft());
      io := io.(srcPtr := io.srcPtr + skipSize);
      tmpInTarget := tmpInTarget - skipSize;
      if tmpInTarget != 0 {
        status := Stop(tmpInTarget);
        WaitInSkippable(r, mem[..], io0, io, left, rank, status.hint);
        return;
      }
      ResetContext();
      Finishing(r, mem[..], io0, io, left, rank);
      status := Stop(0);
    }

    lemma StartingText(d: seq<byte>, t: seq<byte>, mem: seq<byte>, lo: int, hi: int)
      requires Starting(d, t, mem, lo, hi) == true
      ensures t == []
    {
    }

    // ----- The state machine -----

    /** What holds when a stage begins, stage by stage. */
    lemma Opened(r: Run, mem: seq<byte>, io: Call)
      requires At(r, mem, io) == true
      ensures On(r, |mem|, io, io) == true && Placed(r.frame, r.Read(io)) == true
      ensures dStage == GetFrameHeader ==> r.Proper() == true && Starting(r.dictionary, r.Text(mem, io), mem, io.dstPtr, io.dstEnd) == true && frameRemainingSize == r.left && r.Read(io) == 0
      ensures dStage == StoreFrameHeader ==> InHeader(r, mem, io) == true
      ensures dStage == Init ==> InInit(r, mem, io) == true
      ensures dStage == GetBlockHeader ==> OnBlocks(r, mem, io, r.Read(io)) == true
      ensures dStage == StoreBlockHeader ==> tmpInSize < BLOCK_HEADER && Stored(r.frame, tmpIn, tmpInSize, r.Read(io)) == true && OnBlocks(r, mem, io, r.Read(io) - tmpInSize) == true
      ensures dStage == CopyDirect ==> tmpInTarget <= maxBlockSize && OnRaw(r, mem, io, r.Read(io), tmpInTarget) == true
      ensures dStage == GetBlockChecksum ==> info.blockChecksum && tmpInSize < CHECKSUM && Stored(r.frame, header, tmpInSize, r.Read(io)) == true && OnRaw(r, mem, io, r.Read(io) - tmpInSize, 0) == true
      ensures dStage == GetCBlock ==>
        info.ChecksumSize() < tmpInTarget <= maxBlockSize + info.ChecksumSize()
        && OnPacked(r, mem, io, r.Read(io), tmpInTarget - info.ChecksumSize()) == true
      ensures dStage == StoreCBlock ==>
        info.ChecksumSize() < tmpInTarget <= maxBlockSize + info.ChecksumSize() && tmpInSize < tmpInTarget
        && Stored(r.frame, tmpIn, tmpInSize, r.Read(io)) == true && OnPacked(r, mem, io, r.Read(io) - tmpInSize, tmpInTarget - info.ChecksumSize()) == true
      ensures dStage == FlushOut ==> Flushing(r, mem, io) == true
      ensures dStage == GetSuffix ==> OnSuffix(r, mem, io, r.Read(io)) == true
      ensures dStage == StoreSuffix ==>
        tmpInSize < CHECKSUM && Stored(r.frame, tmpIn, tmpInSize, r.Read(io)) == true && info.contentChecksum && frameRemainingSize == 0
        && OnSuffix(r, mem, io, r.Read(io) - tmpInSize) == true
      ensures dStage == GetSFrameSize ==>
        Starting(r.dictionary, r.Text(mem, io), mem, io.dstPtr, io.dstEnd) == true && frameRemainingSize == r.left && r.Read(io) == 4
        && MIN_HEADER <= |r.frame| && r.LeadsTo(SkippableFrame(r.frame)) == true && ReadHeader(r.frame).Skippable?
      ensures dStage == StoreSFrameSize ==> InSkippableSize(r, mem, io) == true
      ensures dStage == SkipSkippable ==> InSkippable(r, mem, io) == true
    {
      hide InHeader, InInit, OnBlocks, OnRaw, OnPacked, Flushing, OnSuffix, InSkippableSize, InSkippable, Starting, Run.Proper, Stored, SkippableFrame, Run.Owed, Placed;
    }

    lemma StepParts(r: Run, mem: seq<byte>, io: Call)
      requires io.Within(|mem|) && Roomy(r, mem, io) == true
      ensures dStage == GetCBlock || dStage == StoreCBlock ==> !r.room.Reached(|r.Text(mem, io)|)
      ensures Rank(FlushOut) == 6 && Rank(CopyDirect) == Rank(GetCBlock) == Rank(GetSuffix) == 5 && Rank(Init) == Rank(GetBlockChecksum) == 4
      ensures Rank(GetBlockHeader) == Rank(StoreBlockHeader) == Rank(GetSFrameSize) == 3
    {
    }

    lemma OpenedAt(f: seq<byte>, p: int)
      requires Placed(f, p) == true
      ensures dStage == Init || dStage == GetBlockHeader || dStage == FlushOut ==> HeaderAt(f, p) == true
      ensures dStage == StoreBlockHeader ==> HeaderAt(f, p - tmpInSize) == true
      ensures dStage == CopyDirect ==> InBlock(f, p, p + tmpInTarget + info.ChecksumSize(), true) == true
      ensures dStage == GetBlockChecksum ==> InBlock(f, p, p - tmpInSize + CHECKSUM, true) == true
      ensures dStage == GetCBlock ==> InBlock(f, p, p + tmpInTarget, false) == true
      ensures dStage == StoreCBlock ==> InBlock(f, p, p - tmpInSize + tmpInTarget, false) == true
      ensures dStage == GetSuffix ==> BehindBlocks(f, p) == true
      ensures dStage == StoreSuffix ==> BehindBlocks(f, p - tmpInSize) == true
      ensures dStage == SkipSkippable ==> 8 <= |f| && 8 <= p && p + tmpInTarget == 8 + Le32(f, 4)
    {
      hide HeaderAt, InBlock, BehindBlocks;
    }

    /** One turn of the loop. */
    method Step(ghost r: Run, mem: array<byte>, io0: Call) returns (status: Status, io: Call)
      requires Apart(mem) && At(r, mem[..], io0) == true && io0.Within(mem.Length) && Roomy(r, mem[..], io0) == true
      modifies this, tmpIn, tmpOutBuffer, header, mem
      ensures forall i :: 0 <= i < mem.Length && !(io0.dstPtr <= i < io0.dstEnd) ==> mem[i] == old(mem[i])
      ensures (tmpIn == old(tmpIn) && tmpOutBuffer == old(tmpOutBuffer)) || (fresh(tmpIn) && fresh(tmpOutBuffer))
      ensures home == old(home) && homeSize == old(homeSize) && owed == old(owed)
      ensures Went(r, mem[..], io0, io, io0.SrcLeft(), Rank(old(dStage)), status) == true
    {
      hide *;
      StepParts(r, mem[..], io0);
      ApartParts(mem);
      Opened(r, mem[..], io0);
      OpenedAt(r.frame, r.Read(io0));
      ghost var left, rank := io0.SrcLeft(), Rank(dStage);
      match dStage
      case GetFrameHeader => status, io := DoGetFrameHeader(r, mem, io0, io0, left, rank);
      case StoreFrameHeader => status, io := DoStoreFrameHeader(r, mem, io0, io0, left, rank);
      case Init => status, io := DoInit(r, mem, io0, io0, left, rank);
      case GetBlockHeader => status, io := DoGetBlockHeader(r, mem, io0, io0, left, rank);
      case StoreBlockHeader => status, io := DoStoreBlockHeader(r, mem, io0, io0, left, rank);
      case CopyDirect => status, io := DoCopyDirect(r, mem, io0, io0, left, rank);
      case GetBlockChecksum => status, io := DoGetBlockChecksum(r, mem, io0, io0, left, rank);
      case GetCBlock => status, io := DoGetCBlock(r, mem, io0, io0, left, rank);
      case StoreCBlock => status, io := DoStoreCBlock(r, mem, io0, io0, left, rank);
      case FlushOut => status, io := DoFlushOut(r, mem, io0, io0, left, rank);
      case GetSuffix => status, io := DoGetSuffix(r, mem, io0, io0, left, rank);
      case StoreSuffix => status, io := DoStoreSuffix(r, mem, io0, io0, left, rank);
      case GetSFrameSize => status, io := DoGetSFrameSize(r, mem, io0, io0, left, rank);
      case StoreSFrameSize => status, io := DoStoreSFrameSize(r, mem, io0, io0, left, rank);
      case SkipSkippable => status, io := DoSkipSkippable(r, mem, io0, io0, left, rank);
    }

    /** The loop. It ends, because every turn that goes on takes input or comes to a lower stage. */
    method RunStages(ghost r: Run, mem: array<byte>, io0: Call) returns (status: Status, io: Call)
      requires Apart(mem) && At(r, mem[..], io0) == true && io0.Within(mem.Length) && Roomy(r, mem[..], io0) == true
      modifies this, tmpIn, tmpOutBuffer, header, mem
      ensures forall i :: 0 <= i < mem.Length && !(io0.dstPtr <= i < io0.dstEnd) ==> mem[i] == old(mem[i])
      ensures Apart(mem) && ((tmpIn == old(tmpIn) && tmpOutBuffer == old(tmpOutBuffer)) || (fresh(tmpIn) && fresh(tmpOutBuffer)))
      ensures home == old(home) && homeSize == old(homeSize) && owed == old(owed)
      ensures !status.Again? && io == io0.(srcPtr := io.srcPtr, dstPtr := io.dstPtr) && io0.srcPtr <= io.srcPtr && io0.dstPtr <= io.dstPtr
      ensures match status
              case Fail(e) => r.Rejects(e)
              case Again => true
              case Stop(hint) => if hint == 0 then Finished(r, mem[..], io) == true else At(r, mem[..], io) == true && Resting(dStage, tmpInTarget) && Blocked(io) && io.Within(mem.Length) && (dStage == StoreCBlock ==> Roomy(r, mem[..], io)) && hint == Hint()
    {
      hide At, Finished, Hint;
      io := io0;
      status := Again;
      while status.Again?
        invariant Apart(mem) && ((tmpIn == old(tmpIn) && tmpOutBuffer == old(tmpOutBuffer)) || (fresh(tmpIn) && fresh(tmpOutBuffer)))
        invariant home == old(home) && homeSize == old(homeSize) && owed == old(owed)
        invariant io == io0.(srcPtr := io.srcPtr, dstPtr := io.dstPtr) && io0.srcPtr <= io.srcPtr && io0.dstPtr <= io.dstPtr
        invariant forall i :: 0 <= i < mem.Length && !(io0.dstPtr <= i < io0.dstEnd) ==> mem[i] == old(mem[i])
        invariant match status
                  case Fail(e) => r.Rejects(e)
                  case Again => At(r, mem[..], io) == true && io.Within(mem.Length) && Roomy(r, mem[..], io) == true
                  case Stop(hint) => if hint == 0 then Finished(r, mem[..], io) == true else At(r, mem[..], io) == true && Resting(dStage, tmpInTarget) && Blocked(io) && io.Within(mem.Length) && (dStage == StoreCBlock ==> Roomy(r, mem[..], io)) && hint == Hint()
        decreases status.Again?, io.SrcLeft(), Rank(dStage)
      {
        WithinSource(r, mem[..], io);
        status, io := Step(r, mem, io);
        if status.Again? || (status.Stop? && status.hint != 0) { AtWithin(r, mem[..], io); }
      }
    }

    lemma WithinSource(r: Run, mem: seq<byte>, io: Call)
      requires At(r, mem, io) == true
      ensures io.srcPtr <= |io.src|
    {
      hide InHeader, InInit, OnBlocks, OnRaw, OnPacked, Flushing, OnSuffix, InSkippableSize, InSkippable, Starting, Run.Proper, Stored, SkippableFrame;
    }

    /** At rest between two calls. */
    ghost predicate Waits(r: Run, mem: seq<byte>)
      reads this, tmpIn, tmpOutBuffer, header
    {
      r.pos <= |r.frame| && At(r, mem, Call([], 0, false, 0, 0, 0)) && Resting(dStage, tmpInTarget)
    }

    lemma DictMoves(m1: seq<byte>, m2: seq<byte>, h: seq<byte>, lo1: int, hi1: int, lo2: int, hi2: int)
      requires DictInside(|m1|, lo1, hi1) && DictInside(|m2|, lo2, hi2) && DictBytes(m1) == DictBytes(m2)
      ensures DictKept(m1, h, lo1, hi1) == DictKept(m2, h, lo2, hi2)
    {
      hide EndOf;
    }

    lemma BetweenMoves(d: seq<byte>, t: seq<byte>, m1: seq<byte>, m2: seq<byte>, lo1: int, hi1: int, lo2: int, hi2: int)
      requires DictInside(|m1|, lo1, hi1) && DictInside(|m2|, lo2, hi2) && DictBytes(m1) == DictBytes(m2)
      ensures Between(d, t, m1, lo1, hi1) == Between(d, t, m2, lo2, hi2)
      ensures Starting(d, t, m1, lo1, hi1) == Starting(d, t, m2, lo2, hi2)
    {
      DictMoves(m1, m2, HistoryOf(info, d, t), lo1, hi1, lo2, hi2);
      DictMoves(m1, m2, d, lo1, hi1, lo2, hi2);
      hide DictKept, Tallied, Ready;
    }

    lemma KnownMoves(m1: seq<byte>, m2: seq<byte>, h: seq<byte>, start: nat)
      requires DictInside(|m1|, 0, 0) && DictInside(|m2|, 0, 0) && DictBytes(m1) == DictBytes(m2)
      ensures Known(m1, h, true, start) == Known(m2, h, true, start)
    {
      hide EndOf, Waiting, WaitingIn;
    }

    /** Whether the history can still be referred to. */
    predicate DictNeeded()
      reads this`dStage
    {
      dStage != GetSuffix && dStage != StoreSuffix
    }

    /** The same place in a frame, seen from another call: the output so far may be gone, but not the dictionary. */
    ghost predicate SamePlace(r1: Run, m1: seq<byte>, io1: Call, r2: Run, m2: seq<byte>, io2: Call)
      reads this`dict, this`dictSize, this`tmpOutBuffer, tmpOutBuffer, this`dStage
    {
      && io1.Within(|m1|) && io2.Within(|m2|) && r2.Matches(io2) && r2.Fits(io2) && r2 == r1.(pos := r2.pos, before := r2.before)
      && r1.Read(io1) == r2.Read(io2) && r1.Text(m1, io1) == r2.Text(m2, io2)
      && (DictNeeded() ==> DictInside(|m1|, io1.dstPtr, io1.dstEnd) && DictInside(|m2|, io2.dstPtr, io2.dstEnd) && DictBytes(m1) == DictBytes(m2))
    }

    lemma Moves(r1: Run, m1: seq<byte>, io1: Call, r2: Run, m2: seq<byte>, io2: Call)
      requires At(r1, m1, io1) == true && SamePlace(r1, m1, io1, r2, m2, io2)
      ensures At(r2, m2, io2) == true
    {
      hide Between, Starting, Blocks, RawBlock, PackedBlock, Suffix, SkippableFrame, Frame, ReadHeader, Known, Tallied, Ready, EndOf, Stored, Placed;
      var d, t := r1.dictionary, r1.Text(m1, io1);
      if DictNeeded() {
        BetweenMoves(d, t, m1, m2, io1.dstPtr, io1.dstEnd, io2.dstPtr, io2.dstEnd);
        KnownMoves(m1, m2, d + t, tmpOutStart);
      }
      match dStage
      case GetFrameHeader =>
      case StoreFrameHeader =>
      case Init =>
      case GetBlockHeader =>
      case StoreBlockHeader =>
      case CopyDirect =>
      case GetBlockChecksum =>
      case GetCBlock =>
      case StoreCBlock =>
      case FlushOut =>
      case GetSuffix =>
      case StoreSuffix =>
      case GetSFrameSize =>
      case StoreSFrameSize =>
      case SkipSkippable =>
    }

    // ----- The hint -----

    /** The bytes that a call asks for, from where the parts of the frame end: the rest of the part, in some stages with the next block header. */
    ghost predicate Wants(r: Run, hint: nat)
      reads this`dStage, this`info
    {
      var rest := PartEnd(r.frame, r.pos) - r.pos;
      match dStage
      case StoreFrameHeader => ReadHeader(r.frame).BadHeader? || hint == rest + BLOCK_HEADER
      case CopyDirect => hint == rest + BLOCK_HEADER
      case GetCBlock => hint == rest + BLOCK_HEADER
      case StoreCBlock => hint == rest + info.ChecksumSize() + BLOCK_HEADER
      case GetBlockChecksum => 0 < rest <= CHECKSUM && hint == 1
      case StoreSFrameSize => hint == 8 - r.pos
      case _ => hint == rest
    }

    /** The last block is in front of `p`. */
    static predicate LastBlockBefore(f: seq<byte>, p: nat) { p + BLOCK_HEADER <= |f| && Le32(f, p) == 0 }

    /**
     Where it asks for bytes behind the end of the frame: in front of a skippable frame of less than three bytes; and within
     the last block, if that has a checksum, which is counted twice, and the content has none.
     */
    ghost predicate AsksTooMuch(r: Run)
      reads this`dStage, this`info
    {
      || (dStage == StoreFrameHeader && ReadHeader(r.frame).Skippable? && 8 <= |r.frame| && Le32(r.frame, 4) < 3)
      || (dStage == StoreCBlock && info.blockChecksum && !info.contentChecksum && LastBlockBefore(r.frame, PartEnd(r.frame, r.pos)))
    }

    ghost predicate Hinted(r: Run, hint: nat)
      reads this`dStage, this`info
    {
      Wants(r, hint) && (r.meaning.Complete? ==> (r.pos + hint <= r.meaning.end <==> !AsksTooMuch(r)))
    }

    /** Where the part ends that the context waits in. */
    lemma PartOfBlock(f: seq<byte>, p: nat, e: nat, raw: bool)
      requires InBlock(f, p, e, raw) == true && p < e && p <= |f|
      ensures PartEnd(f, p) == e
    {
      hide ReadHeader;
      var i: nat :| InBlockAt(f, i, p, e, raw);
      HeaderInside(f);
      PartsReached(f, ReadHeader(f).size, info, i, p);
    }

    lemma PartOfHeader(f: seq<byte>, h: nat, p: nat)
      requires HeaderAt(f, h) == true && h <= p < h + BLOCK_HEADER && p <= |f|
      ensures PartEnd(f, p) == h + BLOCK_HEADER
    {
      hide ReadHeader;
      HeaderInside(f);
      PartsReached(f, ReadHeader(f).size, info, h, p);
    }

    lemma PartOfSuffix(f: seq<byte>, h: nat, p: nat)
      requires BehindBlocks(f, h) == true && h <= p <= |f|
      ensures PartEnd(f, p) == h + (if info.contentChecksum then CHECKSUM else 0)
    {
      hide ReadHeader, Le32;
      HeaderInside(f);
      PartsReached(f, ReadHeader(f).size, info, h - BLOCK_HEADER, p);
    }

    /** While the header is stored, it is what the next bytes belong to. */
    static lemma PartOfFrontHeader(f: seq<byte>, p: nat, target: nat)
      requires p < target && p <= |f| && (target == MIN_HEADER || (MIN_HEADER <= p && ReadHeader(f[..p]) == TooShort(target)))
      ensures !ReadHeader(f).BadHeader? ==> PartEnd(f, p) == target
      ensures target != MIN_HEADER ==> !ReadHeader(f).Skippable?
      ensures target != MIN_HEADER && ReadHeader(f).Header? ==> ReadHeader(f).size == target
    {
      hide ReadHeader;
      if target != MIN_HEADER {
        if target <= |f| {
          TooShortEnds(f, p, target);
          ReadHeaderPrefix(f, target);
        } else {
          TooShortStays(f, p, |f|);
          assert f[..|f|] == f;
        }
      }
    }

    lemma WaitsParts(r: Run, mem: seq<byte>)
      requires Waits(r, mem) == true
      ensures r.pos <= |r.frame| && r.Read(Call([], 0, false, 0, 0, 0)) == r.pos && At(r, mem, Call([], 0, false, 0, 0, 0)) == true
      ensures Resting(dStage, tmpInTarget)
    {
      hide At;
    }

    lemma HeaderParts(r: Run, mem: seq<byte>, io: Call)
      requires io.Within(|mem|) && InHeader(r, mem, io) == true
      ensures r.Proper() == true && r.Read(io) == tmpInSize < tmpInTarget && tmpInSize <= |r.frame|
      ensures tmpInTarget == MIN_HEADER || (MIN_HEADER <= tmpInSize && ReadHeader(r.frame[..tmpInSize]) == TooShort(tmpInTarget))
    {
      hide ReadHeader, Starting, Run.Proper;
    }

    lemma SizeParts(r: Run, mem: seq<byte>, io: Call)
      requires io.Within(|mem|) && InSkippableSize(r, mem, io) == true
      ensures r.LeadsTo(SkippableFrame(r.frame)) == true && r.Read(io) == tmpInSize < 8 && tmpInTarget == 8 && MIN_HEADER <= |r.frame|
    {
      hide SkippableFrame, ReadHeader, Starting, Run.LeadsTo, SizeStored;
    }

    lemma SkippingParts(r: Run, mem: seq<byte>, io: Call)
      requires io.Within(|mem|) && InSkippable(r, mem, io) == true
      ensures ReadHeader(r.frame).Skippable? && r.LeadsTo(if r.Read(io) + tmpInTarget > |r.frame| then Incomplete else Complete([], r.Read(io) + tmpInTarget)) == true
    {
      hide ReadHeader, Starting, Run.LeadsTo;
    }

    lemma WantsIn(r: Run, hint: nat, e: nat)
      requires PartEnd(r.frame, r.pos) == e && hint == Hint() && Resting(dStage, tmpInTarget)
      requires dStage == GetFrameHeader ==> r.pos == 0 && e == MIN_HEADER
      requires dStage == StoreFrameHeader ==> tmpInSize < tmpInTarget && (!ReadHeader(r.frame).BadHeader? ==> e == r.pos - tmpInSize + tmpInTarget)
      requires dStage == StoreBlockHeader ==> tmpInSize < BLOCK_HEADER && e == r.pos - tmpInSize + BLOCK_HEADER
      requires dStage == CopyDirect ==> e == r.pos + tmpInTarget + info.ChecksumSize()
      requires dStage == GetBlockChecksum ==> tmpInSize < CHECKSUM && e == r.pos - tmpInSize + CHECKSUM
      requires dStage == GetCBlock ==> e == r.pos + tmpInTarget
      requires dStage == StoreCBlock ==> tmpInSize < tmpInTarget && e == r.pos - tmpInSize + tmpInTarget
      requires dStage == FlushOut ==> e == r.pos + BLOCK_HEADER
      requires dStage == StoreSuffix ==> tmpInSize < CHECKSUM && e == r.pos - tmpInSize + CHECKSUM
      requires dStage == StoreSFrameSize ==> r.pos == tmpInSize < 8 == tmpInTarget
      requires dStage == SkipSkippable ==> e == r.pos + tmpInTarget
      ensures Wants(r, hint) == true
    {
      hide PartEnd, ReadHeader;
    }

    lemma ChecksumBytes()
      ensures (info.ChecksumSize() == if info.blockChecksum then CHECKSUM else 0) && BLOCK_HEADER == CHECKSUM == 4 && MIN_HEADER == 7
    {
    }

    /** What is stored in each stage. */
    lemma StageParts(r: Run, mem: seq<byte>)
      requires Waits(r, mem) == true
      ensures r.pos <= |r.frame| && Resting(dStage, tmpInTarget) && Placed(r.frame, r.pos) == true
      ensures dStage == GetFrameHeader ==> r.pos == 0
      ensures dStage == StoreFrameHeader ==>
        r.pos == tmpInSize < tmpInTarget && (tmpInTarget == MIN_HEADER || (MIN_HEADER <= tmpInSize && ReadHeader(r.frame[..tmpInSize]) == TooShort(tmpInTarget)))
      ensures dStage == StoreBlockHeader ==> tmpInSize < BLOCK_HEADER && tmpInSize <= r.pos
      ensures dStage == GetBlockChecksum ==> tmpInSize < CHECKSUM && tmpInSize <= r.pos && info.blockChecksum
      ensures dStage == GetCBlock ==> 0 < tmpInTarget
      ensures dStage == StoreCBlock ==> tmpInSize < tmpInTarget && tmpInSize <= r.pos
      ensures dStage == StoreSuffix ==> tmpInSize < CHECKSUM && tmpInSize <= r.pos && info.contentChecksum
      ensures dStage == StoreSFrameSize ==> r.pos == tmpInSize < 8 && tmpInTarget == 8
      ensures dStage == SkipSkippable ==> ReadHeader(r.frame).Skippable?
    {
      hide At, Waits, ReadHeader, Placed, InHeader, InSkippableSize, InSkippable, Flushing, Starting, OnBlocks, OnRaw, OnPacked, OnSuffix, Run.LeadsTo, Run.Proper, Frame;
      var io := Call([], 0, false, 0, 0, 0);
      WaitsParts(r, mem);
      Opened(r, mem, io);
      AtWithin(r, mem, io);
      if dStage == StoreFrameHeader { HeaderParts(r, mem, io); }
      if dStage == StoreSFrameSize { SizeParts(r, mem, io); }
      if dStage == SkipSkippable { SkippingParts(r, mem, io); }
    }

    /** What is asked for, by the parts of the frame. */
    lemma IsWanted(r: Run, mem: seq<byte>, hint: nat)
      requires Waits(r, mem) == true && hint == Hint()
      ensures Wants(r, hint) == true
    {
      hide *;
      ChecksumBytes();
      var f, p := r.frame, r.pos;
      StageParts(r, mem);
      OpenedAt(f, p);
      if dStage == GetFrameHeader {
        AtStart(f);
      } else if dStage == StoreFrameHeader {
        PartOfFrontHeader(f, p, tmpInTarget);
      } else if dStage == StoreBlockHeader {
        PartOfHeader(f, p - tmpInSize, p);
      } else if dStage == FlushOut {
        PartOfHeader(f, p, p);
      } else if dStage == SkipSkippable {
        PartOfSkippable(f, p);
      } else if dStage == StoreSuffix {
        PartOfSuffix(f, p - tmpInSize, p);
      } else if dStage != StoreSFrameSize {
        RestingIs();
        BlockWanted(f, p);
      }
      WantsIn(r, hint, PartEnd(f, p));
    }

    lemma RestingIs()
      requires Resting(dStage, tmpInTarget) == true
      ensures dStage != GetSuffix && dStage != Init && dStage != GetBlockHeader && dStage != GetSFrameSize
    {
    }

    lemma BlockWanted(f: seq<byte>, p: nat)
      requires Placed(f, p) == true && p <= |f| && dStage in {CopyDirect, GetBlockChecksum, GetCBlock, StoreCBlock} && Resting(dStage, tmpInTarget)
      requires dStage == GetBlockChecksum ==> tmpInSize < CHECKSUM && tmpInSize <= p
      requires dStage == GetCBlock ==> 0 < tmpInTarget
      requires dStage == StoreCBlock ==> tmpInSize < tmpInTarget && tmpInSize <= p
      ensures PartEnd(f, p) ==
        if dStage == CopyDirect then p + tmpInTarget + info.ChecksumSize()
        else if dStage == GetBlockChecksum then p - tmpInSize + CHECKSUM
        else if dStage == GetCBlock then p + tmpInTarget
        else p - tmpInSize + tmpInTarget
    {
      hide InBlock, PartEnd;
      if dStage == CopyDirect {
        PartOfBlock(f, p, p + tmpInTarget + info.ChecksumSize(), true);
      } else if dStage == GetBlockChecksum {
        PartOfBlock(f, p, p - tmpInSize + CHECKSUM, true);
      } else if dStage == GetCBlock {
        PartOfBlock(f, p, p + tmpInTarget, false);
      } else {
        PartOfBlock(f, p, p - tmpInSize + tmpInTarget, false);
      }
    }

    // ----- The hint and the end of the frame -----

    static lemma HeaderBeforeEnd(r: Run, p: nat, target: nat)
      requires r.Proper() == true && r.meaning.Complete? && p < target && p <= |r.frame|
      requires target == MIN_HEADER || (MIN_HEADER <= p && ReadHeader(r.frame[..p]) == TooShort(target))
      ensures if ReadHeader(r.frame).Skippable? then target == MIN_HEADER && 8 <= |r.frame| && r.meaning.end == 8 + Le32(r.frame, 4) else target + BLOCK_HEADER <= r.meaning.end
    {
      PartOfFrontHeader(r.frame, p, target);
      hide ReadHeader, Blocks, Le32;
      if ReadHeader(r.frame).Header? {
        HeaderInside(r.frame);
        BlocksExtend(r.frame, ReadHeader(r.frame).size, ReadHeader(r.frame).info, r.dictionary, [], r.room);
      }
    }

    lemma BlocksBeforeEnd(r: Run, mem: seq<byte>, io: Call, p: nat)
      requires io.Within(|mem|) && r.meaning.Complete? && (OnBlocks(r, mem, io, p) == true || (Flushing(r, mem, io) == true && p == r.Read(io)))
      ensures p + BLOCK_HEADER <= r.meaning.end
    {
      hide Between, Blocks, Known, Tallied, Ready, EndOf;
      if OnBlocks(r, mem, io, p) {
        BlocksExtend(r.frame, p, info, r.dictionary, r.Text(mem, io), r.room);
      } else {
        BlocksExtend(r.frame, p, info, r.dictionary, r.Text(mem, io) + tmpOutBuffer[tmpOut + tmpOutStart..tmpOut + tmpOutSize], r.room);
      }
    }

    lemma RawBeforeEnd(r: Run, mem: seq<byte>, io: Call, p: nat, n: nat)
      requires io.Within(|mem|) && r.meaning.Complete? && OnRaw(r, mem, io, p, n) == true
      ensures p + n + info.ChecksumSize() + BLOCK_HEADER <= r.meaning.end
    {
      hide Between, RawBlock;
      RawExtend(r.frame, p, n, blockChecksum, info, r.dictionary, r.Text(mem, io), r.room);
    }

    lemma PackedBeforeEnd(r: Run, mem: seq<byte>, io: Call, p: nat, n: nat)
      requires io.Within(|mem|) && r.meaning.Complete? && OnPacked(r, mem, io, p, n) == true
      ensures var e := p + n + info.ChecksumSize();
              && e + BLOCK_HEADER <= r.meaning.end
              && (e + info.ChecksumSize() + BLOCK_HEADER <= r.meaning.end <==> !(info.blockChecksum && !info.contentChecksum && LastBlockBefore(r.frame, e)))
    {
      hide Between, PackedBlock, Le32;
      PackedEnd(r.frame, p, n, info, r.dictionary, r.Text(mem, io), r.room);
    }

    lemma SuffixBeforeEnd(r: Run, mem: seq<byte>, io: Call, p: nat)
      requires io.Within(|mem|) && r.meaning.Complete? && info.contentChecksum && OnSuffix(r, mem, io, p) == true
      ensures r.meaning.end == p + CHECKSUM
    {
      hide Ready, Tallied, ChecksumHolds;
    }

    static lemma SkippableBeforeEnd(r: Run)
      requires r.meaning.Complete? && MIN_HEADER <= |r.frame| && r.LeadsTo(SkippableFrame(r.frame)) == true
      ensures 8 <= r.meaning.end
    {
      hide Le32;
    }

    lemma EndBehind(r: Run, hint: nat, bound: nat)
      requires hint == Hint() && Resting(dStage, tmpInTarget) && r.meaning.Complete?
      requires dStage == StoreFrameHeader ==> r.pos == tmpInSize < tmpInTarget
      requires dStage == StoreFrameHeader ==>
        if ReadHeader(r.frame).Skippable? then tmpInTarget == MIN_HEADER && 8 <= |r.frame| && r.meaning.end == 8 + Le32(r.frame, 4) else tmpInTarget + BLOCK_HEADER <= r.meaning.end
      requires dStage == StoreCBlock ==> tmpInSize < tmpInTarget && PartEnd(r.frame, r.pos) == r.pos - tmpInSize + tmpInTarget == bound
      requires dStage == StoreCBlock ==>
        (bound + info.ChecksumSize() + BLOCK_HEADER <= r.meaning.end <==> !(info.blockChecksum && !info.contentChecksum && LastBlockBefore(r.frame, bound)))
      requires dStage != StoreFrameHeader && dStage != StoreCBlock ==> r.pos + hint <= bound <= r.meaning.end
      ensures r.pos + hint <= r.meaning.end <==> !AsksTooMuch(r)
    {
      hide ReadHeader, PartEnd, LastBlockBefore, Le32;
    }

    lemma FrontBounded(r: Run, mem: seq<byte>)
      requires Waits(r, mem) == true && r.meaning.Complete? && (dStage == GetFrameHeader || dStage == StoreFrameHeader)
      ensures dStage == GetFrameHeader ==> r.pos == 0 && MIN_HEADER <= r.meaning.end
      ensures dStage == StoreFrameHeader ==>
        if ReadHeader(r.frame).Skippable? then tmpInTarget == MIN_HEADER && 8 <= |r.frame| && r.meaning.end == 8 + Le32(r.frame, 4) else tmpInTarget + BLOCK_HEADER <= r.meaning.end
    {
      hide *;
      ChecksumBytes();
      var io := Call([], 0, false, 0, 0, 0);
      StageParts(r, mem);
      WaitsParts(r, mem);
      Opened(r, mem, io);
      AtWithin(r, mem, io);
      if dStage == GetFrameHeader {
        HeaderBeforeEnd(r, 0, MIN_HEADER);
      } else {
        HeaderParts(r, mem, io);
        HeaderBeforeEnd(r, r.pos, tmpInTarget);
      }
    }

    lemma BlocksBounded(r: Run, mem: seq<byte>)
      requires Waits(r, mem) == true && r.meaning.Complete?
      ensures dStage == StoreBlockHeader ==> r.pos - tmpInSize + BLOCK_HEADER <= r.meaning.end
      ensures dStage == CopyDirect ==> r.pos + tmpInTarget + info.ChecksumSize() + BLOCK_HEADER <= r.meaning.end
      ensures dStage == GetBlockChecksum ==> r.pos - tmpInSize + info.ChecksumSize() + BLOCK_HEADER <= r.meaning.end
      ensures dStage == GetCBlock ==> r.pos + tmpInTarget + BLOCK_HEADER <= r.meaning.end
      ensures dStage == FlushOut ==> r.pos + BLOCK_HEADER <= r.meaning.end
      ensures dStage == StoreCBlock && 0 <= r.pos - tmpInSize + tmpInTarget ==>
        var e := r.pos - tmpInSize + tmpInTarget;
        e + info.ChecksumSize() + BLOCK_HEADER <= r.meaning.end <==> !(info.blockChecksum && !info.contentChecksum && LastBlockBefore(r.frame, e))
    {
      hide *;
      ChecksumBytes();
      var io := Call([], 0, false, 0, 0, 0);
      StageParts(r, mem);
      WaitsParts(r, mem);
      Opened(r, mem, io);
      AtWithin(r, mem, io);
      if dStage == StoreBlockHeader {
        BlocksBeforeEnd(r, mem, io, r.pos - tmpInSize);
      } else if dStage == CopyDirect {
        RawBeforeEnd(r, mem, io, r.pos, tmpInTarget);
      } else if dStage == GetBlockChecksum {
        RawBeforeEnd(r, mem, io, r.pos - tmpInSize, 0);
      } else if dStage == GetCBlock {
        PackedBeforeEnd(r, mem, io, r.pos, tmpInTarget - info.ChecksumSize());
      } else if dStage == StoreCBlock {
        PackedBeforeEnd(r, mem, io, r.pos - tmpInSize, tmpInTarget - info.ChecksumSize());
      } else if dStage == FlushOut {
        BlocksBeforeEnd(r, mem, io, r.pos);
      }
    }

    lemma EndBounded(r: Run, mem: seq<byte>)
      requires Waits(r, mem) == true && r.meaning.Complete?
      ensures dStage == StoreSuffix ==> r.meaning.end == r.pos - tmpInSize + CHECKSUM
      ensures dStage == StoreSFrameSize ==> 8 <= r.meaning.end
      ensures dStage == SkipSkippable ==> r.meaning.end == r.pos + tmpInTarget
    {
      hide *;
      var io := Call([], 0, false, 0, 0, 0);
      StageParts(r, mem);
      WaitsParts(r, mem);
      Opened(r, mem, io);
      AtWithin(r, mem, io);
      if dStage == StoreSuffix {
        SuffixBeforeEnd(r, mem, io, r.pos - tmpInSize);
      } else if dStage == StoreSFrameSize {
        SizeParts(r, mem, io);
        SkippableBeforeEnd(r);
      } else if dStage == SkipSkippable {
        SkippingParts(r, mem, io);
        LeadsToEnd(r, r.pos + tmpInTarget);
      }
    }

    lemma OthersBounded(r: Run, mem: seq<byte>)
      requires Waits(r, mem) == true && r.meaning.Complete? && dStage != StoreFrameHeader && dStage != StoreCBlock
      ensures r.pos + Hint() <= r.meaning.end
    {
      hide *;
      ChecksumBytes();
      StageParts(r, mem);
      RestingIs();
      HintIs();
      if dStage == GetFrameHeader {
        FrontBounded(r, mem);
      } else if dStage in {StoreSuffix, StoreSFrameSize, SkipSkippable} {
        EndBounded(r, mem);
      } else {
        BlocksBounded(r, mem);
      }
    }

    /** What is asked for, and where the frame ends. */
    lemma IsBounded(r: Run, mem: seq<byte>, hint: nat)
      requires Waits(r, mem) == true && hint == Hint() && r.meaning.Complete?
      ensures r.pos + hint <= r.meaning.end <==> !AsksTooMuch(r)
    {
      hide *;
      StageParts(r, mem);
      var bound := r.meaning.end;
      if dStage == StoreFrameHeader {
        FrontBounded(r, mem);
      } else if dStage == StoreCBlock {
        BlockWanted(r.frame, r.pos);
        bound := r.pos - tmpInSize + tmpInTarget;
        BlocksBounded(r, mem);
      } else {
        OthersBounded(r, mem);
      }
      EndBehind(r, hint, bound);
    }

    /** Both, for what a call returns. */
    lemma IsHinted(r: Run, mem: seq<byte>, hint: nat)
      requires Waits(r, mem) == true && hint == Hint()
      ensures Hinted(r, hint) == true
    {
      hide *;
      IsWanted(r, mem, hint);
      if r.meaning.Complete? { IsBounded(r, mem, hint); }
      HintedIs(r, hint);
    }

    lemma HintedIs(r: Run, hint: nat)
      requires Wants(r, hint) == true && (r.meaning.Complete? ==> (r.pos + hint <= r.meaning.end <==> !AsksTooMuch(r)))
      ensures Hinted(r, hint) == true
    {
      hide Wants, AsksTooMuch;
    }

    static lemma LeadsToEnd(r: Run, p: nat)
      requires r.meaning.Complete? && r.LeadsTo(if p > |r.frame| then Incomplete else Complete([], p)) == true
      ensures r.meaning.end == p
    {
    }

    lemma HintIs()
      ensures dStage == GetFrameHeader ==> Hint() == MIN_HEADER
      ensures dStage == StoreFrameHeader && tmpInSize < tmpInTarget ==> Hint() == tmpInTarget - tmpInSize + BLOCK_HEADER
      ensures dStage == StoreBlockHeader && tmpInSize < BLOCK_HEADER ==> Hint() == BLOCK_HEADER - tmpInSize
      ensures dStage == CopyDirect ==> Hint() == tmpInTarget + info.ChecksumSize() + BLOCK_HEADER
      ensures dStage == GetBlockChecksum ==> Hint() == 1
      ensures dStage == GetCBlock ==> Hint() == tmpInTarget + BLOCK_HEADER
      ensures dStage == FlushOut ==> Hint() == BLOCK_HEADER
      ensures dStage == StoreSuffix && tmpInSize < CHECKSUM ==> Hint() == CHECKSUM - tmpInSize
      ensures dStage == StoreSFrameSize && tmpInSize < tmpInTarget ==> Hint() == tmpInTarget - tmpInSize
      ensures dStage == SkipSkippable ==> Hint() == tmpInTarget
    {
    }

    static lemma AtStart(f: seq<byte>)
      ensures PartEnd(f, 0) == MIN_HEADER
    {
    }

    static lemma PartOfSkippable(f: seq<byte>, p: nat)
      requires 8 <= p && 8 <= |f| && ReadHeader(f).Skippable?
      ensures PartEnd(f, p) == 8 + Le32(f, 4)
    {
      hide ReadHeader, Le32;
    }

    static lemma HeaderInside(f: seq<byte>)
      requires ReadHeader(f).Header?
      ensures MIN_HEADER <= ReadHeader(f).size
    {
    }

    lemma AtInside(r: Run, mem: seq<byte>, io: Call)
      requires At(r, mem, io) == true
      ensures io.Within(|mem|) && r.Matches(io) && (DictNeeded() ==> DictInside(|mem|, io.dstPtr, io.dstEnd))
    {
      hide Blocks, RawBlock, PackedBlock, Suffix, SkippableFrame, Frame, Stored, ReadHeader, Known, Tallied, Ready, EndOf, Placed;
    }

    // ----- One call -----

    /** The stages in which the history of linked blocks is moved into the decoder's own buffer. */
    predicate MustPreserve(stableDst: bool)
      reads this`info, this`dict, this`dStage
    {
      && info.linked && dict.InMem? && !stableDst
      && dStage in {Init, GetBlockHeader, StoreBlockHeader, CopyDirect, GetBlockChecksum, GetCBlock, StoreCBlock, FlushOut}
    }

    /** "preserve history within tmp whenever necessary", while a block waits. */
    method PreserveFlushing(ghost r: Run, mem: array<byte>, ghost io: Call)
      requires Apart(mem) && io.Within(mem.Length) && Flushing(r, mem[..], io) == true && info.linked && dict.InMem?
      modifies this`dict, this`dictSize, tmpOutBuffer
      ensures dict == InTmp && Flushing(r, mem[..], io) == true
    {
      hide *;
      ApartParts(mem);
      FlushingParts(r, mem[..], io);
      DictInsideAny(mem.Length, io.dstPtr, io.dstEnd);
      ghost var t, a, e := r.Text(mem[..], io), tmpOut + tmpOutStart, tmpOut + tmpOutSize;
      ghost var tmp, whole := tmpOutBuffer[..], t + tmpOutBuffer[a..e];
      MoveHistory(mem, r.dictionary + t);
      DictInsideTmp(mem.Length, io.dstPtr, io.dstEnd);
      SameSlice(tmpOutBuffer[..], tmp, a, e);
      FlushingAgain(r, mem[..], io, Blocks(r.frame, r.Read(io), info, r.dictionary, whole, r.room), whole);
    }

    /** The history moves in front of what waits. */
    method MoveHistory(mem: array<byte>, ghost h: seq<byte>)
      requires mem != tmpOutBuffer && DictInside(mem.Length, 0, 0) && dict.InMem? && Known(mem[..], h, true, tmpOutStart) == true
      modifies this`dict, this`dictSize, tmpOutBuffer
      ensures dict == InTmp && DictInside(mem.Length, 0, 0) && Known(mem[..], h, true, tmpOutStart) == true
      ensures tmpOut + tmpOutSize <= tmpOutBuffer.Length
      ensures forall i :: tmpOut <= i < tmpOut + tmpOutSize ==> tmpOutBuffer[i] == old(tmpOutBuffer[i])
    {
      hide EndOf, Waiting, WaitingIn;
      WaitingBounds(tmpOutBuffer[..], tmpOut, tmpOutSize, tmpOutStart, h);
      var preserveSize := tmpOut;
      PreserveFront(mem, h);
      dict := InTmp;
      dictSize := preserveSize + tmpOutStart;
    }

    /** "preserve history within tmp whenever necessary", otherwise. */
    method PreserveBetween(mem: array<byte>, ghost d: seq<byte>, ghost t: seq<byte>, ghost lo: int, ghost hi: int)
      requires Apart(mem) && Between(d, t, mem[..], lo, hi) == true && info.linked && dict.InMem?
      modifies this`dict, this`dictSize, this`tmpOut, tmpOutBuffer
      ensures dict == InTmp && Between(d, t, mem[..], lo, hi) == true
    {
      hide Between, DictKept, Tallied, Ready;
      BetweenParts(d, t, mem[..], lo, hi);
      ghost var m := mem[..];
      TakeDict(mem, d + t, lo, hi);
      tmpOut := dictSize;
      assert mem[..] == m;
      BetweenAgain(d, t, mem[..], lo, hi);
    }

    method TakeDict(mem: array<byte>, ghost h: seq<byte>, ghost lo: int, ghost hi: int)
      requires Apart(mem) && Ready() == true && DictKept(mem[..], h, lo, hi) == true && info.linked && dict.InMem?
      modifies this`dict, this`dictSize, tmpOutBuffer
      ensures dict == InTmp && DictKept(mem[..], h, lo, hi) == true
    {
      hide EndOf;
      assert WINDOW <= tmpOutBuffer.Length && mem != tmpOutBuffer;
      hide Ready;
      var newDictSize := Min(dictSize, WINDOW);
      ghost var c := mem[dict.at..dict.at + dictSize];
      CutDict(c, newDictSize, h);
      CopyTail(tmpOutBuffer, mem, dict.at, dictSize, newDictSize);
      dict, dictSize := InTmp, newDictSize;
    }

    /** What holds between the parts of a block, besides `Between`. */
    ghost predicate Inside(r: Run, t: seq<byte>, io: Call)
      reads this`dStage, this`info, this`maxBlockSize, this`blockChecksum, this`tmpInSize, this`tmpInTarget, this`tmpIn, tmpIn, header
    {
      match dStage
      case StoreBlockHeader =>
        && tmpInSize < BLOCK_HEADER && Stored(r.frame, tmpIn, tmpInSize, r.Read(io)) && 0 <= r.Read(io) - tmpInSize
        && r.LeadsTo(Blocks(r.frame, r.Read(io) - tmpInSize, info, r.dictionary, t, r.room))
      case CopyDirect => tmpInTarget <= maxBlockSize && r.LeadsTo(RawBlock(r.frame, r.Read(io), tmpInTarget, blockChecksum, info, r.dictionary, t, r.room))
      case GetBlockChecksum =>
        && info.blockChecksum && tmpInSize < CHECKSUM && Stored(r.frame, header, tmpInSize, r.Read(io)) && 0 <= r.Read(io) - tmpInSize
        && r.LeadsTo(RawBlock(r.frame, r.Read(io) - tmpInSize, 0, blockChecksum, info, r.dictionary, t, r.room))
      case GetCBlock =>
        && info.ChecksumSize() < tmpInTarget <= maxBlockSize + info.ChecksumSize()
        && r.LeadsTo(PackedBlock(r.frame, r.Read(io), tmpInTarget - info.ChecksumSize(), info, r.dictionary, t, r.room))
      case StoreCBlock =>
        && info.ChecksumSize() < tmpInTarget <= maxBlockSize + info.ChecksumSize() && tmpInSize < tmpInTarget
        && Stored(r.frame, tmpIn, tmpInSize, r.Read(io)) && 0 <= r.Read(io) - tmpInSize
        && r.LeadsTo(PackedBlock(r.frame, r.Read(io) - tmpInSize, tmpInTarget - info.ChecksumSize(), info, r.dictionary, t, r.room))
      case _ => false
    }

    lemma InsideBlocks(r: Run, mem: seq<byte>, io: Call)
      requires Placed(r.frame, r.Read(io)) == true
      requires io.Within(|mem|) && r.Matches(io) && Buffers() == true && owed == r.Owed() && r.Fits(io)
      requires dStage in {StoreBlockHeader, CopyDirect, GetBlockChecksum, GetCBlock, StoreCBlock}
      ensures At(r, mem, io) ==
        (Between(r.dictionary, r.Text(mem, io), mem, io.dstPtr, io.dstEnd) && Inside(r, r.Text(mem, io), io))
    {
      hide Between, Blocks, RawBlock, PackedBlock, Stored, Run.LeadsTo, HeaderAt, InBlock, BehindBlocks;
    }

    /** The end of LZ4F_decompress. */
    method Preserve(ghost r: Run, mem: array<byte>, ghost io: Call, stableDst: bool)
      requires Apart(mem) && At(r, mem[..], io) == true && Resting(dStage, tmpInTarget)
      modifies this`dict, this`dictSize, this`tmpOut, tmpOutBuffer
      ensures At(r, mem[..], io) == true && Resting(dStage, tmpInTarget) && !MustPreserve(stableDst)
      ensures dict == old(dict) || dict == InTmp
    {
      hide At, Inside, Between, Flushing, Placed;
      if MustPreserve(stableDst) {
        Opened(r, mem[..], io);
        if dStage == FlushOut {
          PreserveFlushing(r, mem, io);
          FlushingAt(r, mem[..], io);
        } else {
          ghost var m := mem[..];
          InsideBlocks(r, m, io);
          PreserveBetween(mem, r.dictionary, r.Text(m, io), io.dstPtr, io.dstEnd);
          InsideBlocks(r, mem[..], io);
        }
      }
    }

    lemma FlushingAt(r: Run, mem: seq<byte>, io: Call)
      requires Placed(r.frame, r.Read(io)) == true
      requires io.Within(|mem|) && r.Matches(io) && Buffers() == true && owed == r.Owed() && r.Fits(io) && dStage == FlushOut && Flushing(r, mem, io) == true
      ensures At(r, mem, io) == true
    {
      hide Flushing, HeaderAt, InBlock, BehindBlocks;
    }

    /** Between two frames; but the counter may hold something yet. */
    ghost predicate Idle()
      reads this`dStage, this`dict, this`dictSize, this`tmpIn, this`tmpOutBuffer, this`maxBufferSize
    {
      dStage == GetFrameHeader && dict == Null && dictSize == 0 && Buffers()
    }

    /** As after LZ4F_createDecompressionContext, or at the end of a frame. */
    ghost predicate Fresh()
      reads this`dStage, this`dict, this`dictSize, this`frameRemainingSize, this`tmpIn, this`tmpOutBuffer, this`maxBufferSize
    {
      Idle() && frameRemainingSize == 0
    }

    /** LZ4F_createDecompressionContext. */
    constructor ()
      ensures Fresh() && fresh(header) && fresh(tmpIn) && fresh(tmpOutBuffer)
    {
      dStage, dict, dictSize, frameRemainingSize := GetFrameHeader, Null, 0, 0;
      info, maxBlockSize, maxBufferSize := Info(true, false, false, 0, 0, 0), 0, 0;
      tmpIn, tmpInSize, tmpInTarget := new byte[0], 0, 0;
      tmpOutBuffer, tmpOut, tmpOutSize, tmpOutStart := new byte[0], 0, 0, 0;
      xxh, blockChecksum, header := [], [], new byte[MAX_HEADER];
      home, homeSize, owed := Null, 0, 0;
    }

    /** Not past the header, where the dictionary can still be given. */
    ghost predicate InFront(r: Run)
      reads this`dStage, this`tmpIn, this`tmpOutBuffer, this`maxBufferSize, this`frameRemainingSize, this`tmpInSize, this`tmpInTarget, header
    {
      && r.Proper() && r.before == [] && r.pos <= |r.frame| && frameRemainingSize == r.left && Buffers()
      && match dStage
         case GetFrameHeader => r.pos == 0
         case StoreFrameHeader =>
           && r.pos == tmpInSize < tmpInTarget <= MAX_HEADER && Stored(r.frame, header, tmpInSize, tmpInSize)
           && (tmpInTarget == MIN_HEADER || (MIN_HEADER <= tmpInSize && ReadHeader(r.frame[..tmpInSize]) == TooShort(tmpInTarget)))
         case _ => false
    }

    /** With its dictionary at hand, a context in front of a frame is ready to go on. */
    lemma FrontWaits(r: Run, mem: seq<byte>)
      requires InFront(r) == true && owed == r.Owed() && AtHome() && DictInside(|mem|, 0, 0) && DictBytes(mem) == r.dictionary
      ensures Waits(r, mem) == true
    {
      hide ReadHeader, Frame, Stored;
      assert r.Text(mem, Call([], 0, false, 0, 0, 0)) == [];
    }

    lemma WaitsInFront(r: Run, mem: seq<byte>)
      requires Waits(r, mem) && (dStage == GetFrameHeader || dStage == StoreFrameHeader)
      ensures InFront(r) == true
    {
      hide ReadHeader, Frame, Stored, DictKept, SkippableFrame;
      assert r.Text(mem, Call([], 0, false, 0, 0, 0)) == r.before;
    }

    /** LZ4F_decompress_usingDict. The dictionary is taken as long as no block has begun. */
    method DecompressUsingDict(ghost r: Run, mem: array<byte>, src: seq<byte>, hasDst: bool, dst: int, dstCapacity: nat,
                               dictionary: Pointer, size: nat, stableDst: bool)
      returns (status: Status, srcSize: nat, dstSize: nat, ghost r': Run)
      requires Apart(mem) && r.pos + |src| <= |r.frame| && src == r.frame[r.pos..r.pos + |src|]
      requires 0 <= dst && dst + dstCapacity <= mem.Length && (!hasDst ==> dstCapacity == 0) && FirstCall(r, hasDst, dstCapacity)
      requires if dStage == GetFrameHeader || dStage == StoreFrameHeader then
                 && InFront(r) == true
                 && match dictionary
                    case Null => size == 0 && r.dictionary == []
                    case InTmp => false
                    case InMem(at) => 0 <= at && at + size <= mem.Length && (at + size <= dst || dst + dstCapacity <= at) && mem[at..at + size] == r.dictionary
               else
                 && Waits(r, mem[..]) == true
                 && (dict.InMem? && DictNeeded() ==> dict.at + dictSize <= dst || dst + dstCapacity <= dict.at)
      modifies this, tmpIn, tmpOutBuffer, header, mem
      ensures forall i :: 0 <= i < mem.Length && !(dst <= i < dst + dstCapacity) ==> mem[i] == old(mem[i])
      ensures Apart(mem) && ((tmpIn == old(tmpIn) && tmpOutBuffer == old(tmpOutBuffer)) || (fresh(tmpIn) && fresh(tmpOutBuffer)))
      ensures srcSize <= |src| && dstSize <= dstCapacity
      ensures Returned(r, r', mem[..], dst, srcSize, dstSize, status) == true
      ensures status.Stop? && status.hint != 0 ==> (srcSize == |src| || (dstSize == dstCapacity && Holding())) && !MustPreserve(stableDst)
      ensures status.Stop? && status.hint != 0 && dStage == StoreCBlock ==> !r.room.Reached(|r'.before|)
      ensures status.Stop? && status.hint != 0 ==> Hinted(r', status.hint) == true
      ensures if old(dStage == GetFrameHeader || dStage == StoreFrameHeader) then home == dictionary && homeSize == size else home == old(home) && homeSize == old(homeSize)
    {
      hide InFront, Waits, Returned, Hinted;
      if dStage != GetFrameHeader && dStage != StoreFrameHeader { PastInit(r, mem[..]); }
      if dStage == GetFrameHeader || dStage == StoreFrameHeader || dStage == Init {
        TakeDictionary(r, mem, dictionary, size);
      }
      status, srcSize, dstSize, r' := Decompress(r, mem, src, hasDst, dst, dstCapacity, stableDst);
    }

    lemma PastInit(r: Run, mem: seq<byte>)
      requires Waits(r, mem)
      ensures dStage != Init
    {
      hide At;
    }

    method TakeDictionary(ghost r: Run, ghost mem: array<byte>, dictionary: Pointer, size: nat)
      requires Apart(mem) && InFront(r) == true
      requires match dictionary
               case Null => size == 0 && r.dictionary == []
               case InTmp => false
               case InMem(at) => 0 <= at && at + size <= mem.Length && mem[at..at + size] == r.dictionary
      modifies this`dict, this`dictSize, this`home, this`homeSize, this`owed
      ensures dict == home == dictionary && dictSize == homeSize == size && Waits(r, mem[..]) == true
    {
      hide InFront, Waits, Run.Owed, Apart, ReadHeader, Frame;
      dict, dictSize := dictionary, size;
      home, homeSize, owed := dict, dictSize, r.Owed();
      FrontWaits(r, mem[..]);
    }

    /** What the caller gets, and what it has to know for the next call. */
    ghost predicate Returned(r: Run, r': Run, mem: seq<byte>, dst: int, srcSize: nat, dstSize: nat, status: Status)
      requires 0 <= dst && dst + dstSize <= |mem|
      reads this, tmpIn, tmpOutBuffer, header
    {
      match status
      case Fail(e) => r' == r && r.Rejects(e)
      case Again => false
      case Stop(hint) =>
        && r' == r.(pos := r.pos + srcSize, before := r.before + mem[dst..dst + dstSize])
        && if hint == 0 then Idle() && r.Leaves(frameRemainingSize) && r.Owed() == 0 && r'.LeadsTo(Complete(r'.before, r'.pos)) else Waits(r', mem)
    }

    /** If the room is limited, it is that of this call, which has to be the first. */
    predicate FirstCall(r: Run, hasDst: bool, dstCapacity: nat)
      reads this`dStage
    {
      r.room.Upto? ==> hasDst && r.room.n == |r.before| + dstCapacity && (dStage == GetFrameHeader || dStage == StoreFrameHeader)
    }

    /** LZ4F_decompress. */
    method Decompress(ghost r: Run, mem: array<byte>, src: seq<byte>, hasDst: bool, dst: int, dstCapacity: nat, stableDst: bool)
      returns (status: Status, srcSize: nat, dstSize: nat, ghost r': Run)
      requires Apart(mem) && Waits(r, mem[..]) == true && FirstCall(r, hasDst, dstCapacity)
      requires r.pos + |src| <= |r.frame| && src == r.frame[r.pos..r.pos + |src|]
      requires 0 <= dst && dst + dstCapacity <= mem.Length && (!hasDst ==> dstCapacity == 0)
      requires dict.InMem? && DictNeeded() ==> dict.at + dictSize <= dst || dst + dstCapacity <= dict.at
      modifies this, tmpIn, tmpOutBuffer, header, mem
      ensures forall i :: 0 <= i < mem.Length && !(dst <= i < dst + dstCapacity) ==> mem[i] == old(mem[i])
      ensures Apart(mem) && ((tmpIn == old(tmpIn) && tmpOutBuffer == old(tmpOutBuffer)) || (fresh(tmpIn) && fresh(tmpOutBuffer)))
      ensures srcSize <= |src| && dstSize <= dstCapacity && home == old(home) && homeSize == old(homeSize) && owed == old(owed)
      ensures Returned(r, r', mem[..], dst, srcSize, dstSize, status) == true
      ensures status.Stop? && status.hint != 0 ==> (srcSize == |src| || (dstSize == dstCapacity && Holding())) && !MustPreserve(stableDst)
      ensures status.Stop? && status.hint != 0 && dStage == StoreCBlock ==> !r.room.Reached(|r'.before|)
      ensures status.Stop? && status.hint != 0 ==> Hinted(r', status.hint) == true
    {
      hide At, Finished, Run.Owed, Run.Fits, FirstCall, Waits, Returned, Resting, Hinted, Hint, MustPreserve;
      var io0 := Call(src, 0, hasDst, dst, dst, dst + dstCapacity);
      Opening(r, io0, hasDst, dstCapacity);
      Enter(r, mem[..], io0);
      AtRoomy(r, mem[..], io0);
      var io;
      status, io := RunStages(r, mem, io0);
      if status.Fail? {
        Reported(r, r, mem[..], dst, 0, 0, status);
        return status, 0, 0, r;
      }
      if status.hint != 0 { Preserve(r, mem, io, stableDst); }
      srcSize, dstSize := io.srcPtr - io0.srcPtr, io.dstPtr - io.dstStart;
      if status.hint == 0 { Done(r, mem[..], io); } else { AtInside(r, mem[..], io); }
      r' := r.(pos := r.Read(io), before := r.Text(mem[..], io));
      if status.hint != 0 {
        Leave(r, r', mem[..], io);
        IsHinted(r', mem[..], status.hint);
      }
      Reported(r, r', mem[..], dst, srcSize, dstSize, status);
    }

    lemma Opening(r: Run, io: Call, hasDst: bool, dstCapacity: nat)
      requires FirstCall(r, hasDst, dstCapacity) == true && io.hasDst == hasDst && io.dstEnd - io.dstStart == dstCapacity
      ensures r.Fits(io) == true
      ensures r.room.Upto? ==> dStage == GetFrameHeader || dStage == StoreFrameHeader
    {
    }

    lemma AtRoomy(r: Run, mem: seq<byte>, io: Call)
      requires At(r, mem, io) == true && (r.room.Upto? ==> dStage == GetFrameHeader || dStage == StoreFrameHeader)
      ensures io.Within(|mem|) && Roomy(r, mem, io) == true
    {
      AtWithin(r, mem, io);
      hide At;
    }

    lemma Reported(r: Run, r': Run, mem: seq<byte>, dst: int, srcSize: nat, dstSize: nat, status: Status)
      requires 0 <= dst && dst + dstSize <= |mem|
      requires match status
               case Fail(e) => r' == r && r.Rejects(e)
               case Again => false
               case Stop(hint) =>
                 && r' == r.(pos := r.pos + srcSize, before := r.before + mem[dst..dst + dstSize])
                 && if hint == 0 then Idle() && r.Leaves(frameRemainingSize) && r.Owed() == 0 && r'.LeadsTo(Complete(r'.before, r'.pos)) else Waits(r', mem) == true
      ensures Returned(r, r', mem, dst, srcSize, dstSize, status) == true
    {
      hide Waits, Idle, Run.Owed, Run.Leaves;
    }

    lemma Enter(r: Run, mem: seq<byte>, io: Call)
      requires Waits(r, mem) == true && io.Within(|mem|) && r.Matches(io) && r.Fits(io) && io.srcPtr == 0 && io.dstPtr == io.dstStart
      requires dict.InMem? && DictNeeded() ==> dict.at + dictSize <= io.dstPtr || io.dstEnd <= dict.at
      ensures At(r, mem, io) == true
    {
      hide At;
      AtInside(r, mem, Call([], 0, false, 0, 0, 0));
      Moves(r, mem, Call([], 0, false, 0, 0, 0), r, mem, io);
    }

    lemma Leave(r: Run, r': Run, mem: seq<byte>, io: Call)
      requires At(r, mem, io) == true && Resting(dStage, tmpInTarget) && io.Within(|mem|) && r' == r.(pos := r.Read(io), before := r.Text(mem, io))
      ensures Waits(r', mem) == true
    {
      hide At;
      AtInside(r, mem, io);
      Moves(r, mem, io, r', mem, Call([], 0, false, 0, 0, 0));
    }

    lemma Done(r: Run, mem: seq<byte>, io: Call)
      requires Finished(r, mem, io)
      ensures Idle() && r.Leaves(frameRemainingSize) && r.Owed() == 0 && io.Within(|mem|) && r.LeadsTo(Complete(r.Text(mem, io), r.Read(io)))
    {
    }
  }

  lemma WithinParts(io: Call, size: int)
    requires io.Within(size)
    ensures io.srcPtr <= |io.src| && 0 <= io.dstStart <= io.dstPtr <= io.dstEnd <= size && (!io.hasDst ==> io.dstStart == io.dstEnd)
    ensures io.SrcLeft() == |io.src| - io.srcPtr && io.DstLeft() == io.dstEnd - io.dstPtr
  {
  }

  lemma StillWithin(io1: Call, io: Call, size: int, n: nat)
    requires io1.Within(size) && n <= io1.DstLeft() && io == io1.(dstPtr := io1.dstPtr + n)
    ensures io.Within(size) && io.DstLeft() == io1.DstLeft() - n && io.SrcLeft() == io1.SrcLeft()
  {
  }

  lemma SameRead(r: Run, io1: Call, io: Call)
    requires io == io1.(dstPtr := io.dstPtr)
    ensures r.Read(io) == r.Read(io1) && (r.Matches(io1) ==> r.Matches(io))
  {
  }

  lemma Lesser(a: int, b: int)
    ensures Min(a, b) == (if a < b then a else b) && BLOCK_HEADER == 4
  {
  }

  lemma FlagIs(w: nat)
    ensures 0 < UNCOMPRESSED_FLAG && 0 <= w % UNCOMPRESSED_FLAG && (0 < w < UNCOMPRESSED_FLAG ==> 0 < w % UNCOMPRESSED_FLAG) && BLOCK_HEADER == 4
  {
  }

  lemma RoomAt(d: int, n: int, size: int)
    requires 0 <= d && 0 <= n && d + n <= size
    ensures Within(d, n, size)
  {
  }

  lemma SizeReached(size: nat, t: nat)
    requires size < U64_SIZE
    ensures (size - t) % U64_SIZE == 0 <==> size == t % U64_SIZE
  {
    var q := (size - t) / U64_SIZE;
    assert size - t == U64_SIZE * q + (size - t) % U64_SIZE;
    assert t == U64_SIZE * (t / U64_SIZE) + t % U64_SIZE;
  }

  lemma ContentKnownToo(r: Run, p: nat, info: Info, d: seq<byte>, t: seq<byte>, c: Outcome, out: seq<byte>, known: bool)
    requires r.LeadsTo(Unpacked(r.frame, p, info, d, t, c, r.room))
    requires if known then c in {Outcome.Unspecified, Output(out)} else !c.Output?
    ensures if known then r.LeadsTo(Blocks(r.frame, p, info, d, t + out, r.room)) == true else r.Flawed(BlockFlaw) == true
  {
    hide Blocks;
  }

  lemma TextAtEnd(r: Run, mem: seq<byte>, io: Call)
    requires io.Within(|mem|)
    ensures var t, k := r.Text(mem, io), io.dstPtr - io.dstStart;
            k <= |t| && t[|t| - k..] == mem[io.dstStart..io.dstPtr]
  {
  }

  /** Output makes the text longer. */
  lemma TextGrows(r: Run, was: seq<byte>, mem: seq<byte>, io1: Call, io: Call, out: seq<byte>)
    requires |was| == |mem| && io1.Within(|mem|) && io.Within(|mem|) && io == io1.(srcPtr := io.srcPtr, dstPtr := io1.dstPtr + |out|)
    requires forall i :: 0 <= i < |mem| && !(io1.dstPtr <= i < io1.dstEnd) ==> mem[i] == was[i]
    requires mem[io1.dstPtr..io1.dstPtr + |out|] == out
    ensures r.Text(mem, io) == r.Text(was, io1) + out
  {
    SameSlice(mem, was, io1.dstStart, io1.dstPtr);
    SplitSlice(mem, io1.dstStart, io1.dstPtr, io.dstPtr);
  }

  lemma SmallRemainder(n: nat)
    requires n < U64_SIZE
    ensures n % U64_SIZE == n
  {
  }

  lemma Remaining(size: nat, t: nat, n: nat)
    ensures ((size - t) % U64_SIZE - n) % U64_SIZE == (size - (t + n)) % U64_SIZE
  {
    assert size - (t + n) == U64_SIZE * ((size - t) / U64_SIZE) + ((size - t) % U64_SIZE - n);
  }

  lemma SelectedLe32(r: Run, io: Call)
    requires r.Matches(io) && io.srcPtr + 4 <= |io.src|
    ensures Le32(io.src, io.srcPtr) == Le32(r.frame, r.Read(io))
  {
    SliceOfSlice(r.frame, r.pos, r.pos + |io.src|, io.srcPtr, io.srcPtr + 4);
    SameLe32(io.src, io.srcPtr, r.frame, r.Read(io));
  }

  /** What has been flushed moves from what is left to the text. */
  lemma FlushedText(r: Run, was: seq<byte>, mem: seq<byte>, io1: Call, io: Call, tmp: seq<byte>, left: seq<byte>, a: nat, n: nat, e: nat)
    requires |was| == |mem| && io1.Within(|mem|) && io.Within(|mem|) && io == io1.(dstPtr := io1.dstPtr + n) && a + n <= e <= |tmp| == |left|
    requires forall i :: 0 <= i < |mem| && !(io1.dstPtr <= i < io1.dstPtr + n) ==> mem[i] == was[i]
    requires mem[io1.dstPtr..io1.dstPtr + n] == tmp[a..a + n] && forall i :: a <= i < e ==> left[i] == tmp[i]
    ensures r.Text(mem, io) == r.Text(was, io1) + tmp[a..a + n] && left[a + n..e] == tmp[a + n..e]
    ensures r.Text(was, io1) + tmp[a..e] == r.Text(mem, io) + left[a + n..e]
  {
    SameSlice(left, tmp, a + n, e);
    SplitSlice(tmp, a, a + n, e);
    SameSlice(mem, was, io1.dstStart, io1.dstPtr);
    SplitSlice(mem, io1.dstStart, io1.dstPtr, io.dstPtr);
  }

  /** Bytes of an uncompressed block that have been handed on are part of the text. */
  lemma RawMoves(r: Run, p: nat, size: nat, fed: seq<byte>, fed': seq<byte>, info: Info, d: seq<byte>, t: seq<byte>, n: nat)
    requires n <= size && p + n <= |r.frame| && r.LeadsTo(RawBlock(r.frame, p, size, fed, info, d, t, r.room))
    requires fed' == if info.blockChecksum then fed + r.frame[p..p + n] else fed
    ensures r.LeadsTo(RawBlock(r.frame, p + n, size - n, fed', info, d, t + r.frame[p..p + n], r.room)) == true
  {
    hide RawBlock;
    var out := r.frame[p..p + n];
    RawBlockStep(r.frame, p, size, fed, info, d, t, n, r.room);
    if !info.blockChecksum {
      FedDoesNotMatter(r.frame, p + n, size - n, fed + out, info, d, t + out, r.room);
      FedDoesNotMatter(r.frame, p + n, size - n, fed', info, d, t + out, r.room);
    }
  }

  /** Input that is stored behind earlier input. */
  lemma ReadOn(r: Run, io: Call, k: nat, n: nat)
    requires r.Matches(io) && io.srcPtr + n <= |io.src| && k <= r.Read(io)
    ensures r.frame[r.Read(io) - k..r.Read(io)] + io.src[io.srcPtr..io.srcPtr + n] == r.frame[r.Read(io) - k..r.Read(io) + n]
  {
    SliceOfSlice(r.frame, r.pos, r.pos + |io.src|, io.srcPtr, io.srcPtr + n);
    SplitSlice(r.frame, r.Read(io) - k, r.Read(io), r.Read(io) + n);
  }
}
