/**
 LZ4F_cctx: the buffering frame encoder, for the compression levels of lz4.c. What it has written and
 what it still holds always add up to its input, and a finished frame is read back as that input.
 Memory of callers and the encoder's own buffer are one address space, and a pointer is an index.
 */
module FrameEncoder {
  import opened Bytes
  import opened BlockFormat
  import BlockEncoding
  import opened MatchFinder
  import opened BlockCompressor
  import opened BlockStream
  import opened EqualBytes
  import opened XxHash
  import opened FrameFormat
  import opened FrameEncoding

  const LZ4HC_CLEVEL_MIN := 3

  class Cctx {
    var prefs: Preferences
    /** The header has been written, and the end has not: cStage is 1. */
    var begun: bool
    var maxBlockSize: nat
    var maxBufferSize: nat
    var tmpBuff: int
    var tmpIn: int
    var tmpInSize: nat
    var totalInSize: nat
    /** The state of the content checksum, as the bytes it has been fed. */
    var xxh: seq<byte>
    var cdict: Stream?
    const stream: Stream
    /** The blocks of this frame so far, and the text that they stand for. */
    ghost var blocks: seq<seq<byte>>
    ghost var text: seq<byte>

    /** LZ4F_createCompressionContext, with the stream that the first frame makes. */
    constructor (hash: seq<byte> -> nat)
      ensures !begun && stream.Initialised() && fresh(stream) && fresh(stream.hashTable)
    {
      prefs := Preferences(true, false, false, 0, 0, 0, 0, false);
      begun, maxBlockSize, maxBufferSize, tmpBuff, tmpIn, tmpInSize, totalInSize := false, 0, 0, 0, 0, 0, 0;
      xxh, cdict, blocks, text := [], null, [], [];
      stream := new Stream(hash);
    }

    // ----- The stream -----

    /** What a decoder of this frame has to be given as its dictionary. */
    ghost function Dictionary(): seq<byte>
      reads this`cdict, cdict
    {
      if cdict == null || cdict.dictSize == 0 then [] else cdict.history
    }

    /** The dictionary has been loaded into a stream of its own, and is in memory. */
    ghost predicate DictReady(mem: seq<byte>)
      reads this`cdict, cdict, if cdict != null then {cdict.hashTable} else {}
    {
      cdict != null ==>
        && cdict != stream && cdict.hashTable != stream.hashTable && (cdict.Loaded() || cdict.dictSize == 0)
        && (cdict.dictSize > 0 ==> cdict.DictEnd() <= |mem| && mem[cdict.dictionary..cdict.DictEnd()] == cdict.history)
    }

    /** The history of linked blocks is at hand; without links, the table can be used again. */
    ghost predicate StreamReady(mem: seq<byte>, linked: bool, history: seq<byte>)
      reads this`cdict, stream, stream.hashTable, stream.dictCtx, if stream.dictCtx != null then {stream.dictCtx.hashTable} else {}
    {
      if linked then
        && stream.Valid() && stream.Intact(mem, 0, 0) && stream.history == history
        && (stream.dictCtx != null ==> stream.dictCtx == cdict && stream.dictionary == NULL)
      else
        stream.Initialised()
    }

    /** The input `[src, src + n)` is apart from what the next block may refer to. */
    ghost predicate Clear(src: int, n: nat)
      reads this`prefs, this`cdict, cdict, stream
    {
      && (prefs.linked ==> Separate(stream.dictionary, stream.dictSize, src, n))
      && (cdict != null ==> Separate(cdict.dictionary, cdict.dictSize, src, n))
    }

    /** LZ4F_initStream, where it is called for a call of LZ4_compress_fast_continue. */
    method InitStream(ghost mem: seq<byte>)
      requires DictReady(mem) == true && stream.Initialised()
      modifies stream, stream.hashTable
      ensures StreamReady(mem, true, Dictionary()) == true && stream.dictionary == NULL && stream.dictSize == 0
    {
      stream.ResetStreamFast();
      stream.AttachDictionary(cdict);
    }

    // ----- One block -----

    /** What a block may refer to. */
    ghost function History(): seq<byte>
      reads this`cdict, cdict, this`prefs, this`text
    {
      if prefs.linked then Dictionary() + text else Dictionary()
    }

    /** LZ4F_compressBlock_continue. */
    method CompressLinked(mem: seq<byte>, src: int, n: nat, dst: array<byte>, dest: int, dstCapacity: nat, acceleration: int, ghost h: seq<byte>)
      returns (cSize: nat)
      requires DictReady(mem) == true && StreamReady(mem, true, h) == true && Separate(stream.dictionary, stream.dictSize, src, n)
      requires cdict != null ==> Separate(cdict.dictionary, cdict.dictSize, src, n)
      requires 0 <= src && src + n <= |mem| && 1 <= n <= 4 * MB && 0 <= dest && dest + dstCapacity <= dst.Length
      modifies stream, stream.hashTable, dst
      ensures forall i :: 0 <= i < dst.Length && !(dest <= i < dest + dstCapacity) ==> dst[i] == old(dst[i])
      ensures cSize <= dstCapacity && (cSize > 0 ==> Represents(dst[dest..dest + cSize], h, mem[src..src + n]))
      ensures Searched(mem, src, n, stream.hash, Clamp(acceleration), dstCapacity, dst[dest..dest + cSize]) == true
      ensures StreamReady(mem, true, h + mem[src..src + n]) == true && stream.Initialised()
      ensures stream.DictEnd() == src + n && stream.dictCtx == null && 0 <= stream.dictionary
      ensures stream.dictionary == src || (old(stream.DictEnd()) == src && old(stream.dictionary) <= stream.dictionary <= src)
    {
      hide Represents, Reusable, Searched;
      NothingInTheWay(mem, src, n, h);
      hide Stream.Intact, Stream.Faithful, Stream.Ambiguous, Stream.Usable;
      var lost;
      cSize, lost := stream.CompressFastContinue(mem, src, n, dst, dest, dstCapacity, acceleration);
    }

    lemma NothingInTheWay(mem: seq<byte>, src: int, n: nat, h: seq<byte>)
      requires DictReady(mem) == true && StreamReady(mem, true, h) == true && Separate(stream.dictionary, stream.dictSize, src, n) && 0 <= src && 1 <= n
      requires cdict != null ==> Separate(cdict.dictionary, cdict.dictSize, src, n)
      ensures stream.Valid() && stream.Intact(mem, src, n) && stream.Faithful(mem, src, n) && !stream.Ambiguous(src, n)
    {
      hide Reusable;
    }

    /** LZ4F_compressBlock, with a dictionary: every block starts from it again. */
    method CompressWithDict(mem: seq<byte>, src: int, n: nat, dst: array<byte>, dest: int, dstCapacity: nat, acceleration: int) returns (cSize: nat)
      requires DictReady(mem) == true && stream.Initialised() && (cdict != null ==> Separate(cdict.dictionary, cdict.dictSize, src, n))
      requires 0 <= src && src + n <= |mem| && 1 <= n <= 4 * MB && 0 <= dest && dest + dstCapacity <= dst.Length
      modifies stream, stream.hashTable, dst
      ensures forall i :: 0 <= i < dst.Length && !(dest <= i < dest + dstCapacity) ==> dst[i] == old(dst[i])
      ensures cSize <= dstCapacity && (cSize > 0 ==> Represents(dst[dest..dest + cSize], Dictionary(), mem[src..src + n]))
      ensures Searched(mem, src, n, stream.hash, Clamp(acceleration), dstCapacity, dst[dest..dest + cSize]) == true
      ensures stream.Initialised()
    {
      hide Represents, Stream.Initialised, StreamReady, Stream.Loaded, Searched;
      InitStream(mem);
      cSize := CompressLinked(mem, src, n, dst, dest, dstCapacity, acceleration, Dictionary());
    }

    /** What a compression level below 1 stands for. */
    function Acceleration(): int
      reads this`prefs
    {
      if prefs.compressionLevel < 0 then -prefs.compressionLevel + 1 else 1
    }

    /** What LZ4F_selectCompression selects: the block that its search arrives at, or 0 if there is no room for that. */
    method CompressBlock(mem: seq<byte>, src: int, n: nat, dst: array<byte>, dest: int, dstCapacity: nat) returns (cSize: nat)
      requires DictReady(mem) == true && StreamReady(mem, prefs.linked, History()) == true && Clear(src, n) == true
      requires 0 <= src && src + n <= |mem| && 1 <= n <= 4 * MB && 0 <= dest && dest + dstCapacity <= dst.Length
      modifies stream, stream.hashTable, dst
      ensures forall i :: 0 <= i < dst.Length && !(dest <= i < dest + dstCapacity) ==> dst[i] == old(dst[i])
      ensures cSize <= dstCapacity && (cSize > 0 ==> Represents(dst[dest..dest + cSize], old(History()), mem[src..src + n]))
      ensures Searched(mem, src, n, stream.hash, Clamp(Acceleration()), dstCapacity, dst[dest..dest + cSize]) == true
      ensures StreamReady(mem, prefs.linked, old(History()) + mem[src..src + n]) == true
      ensures prefs.linked ==> stream.DictEnd() == src + n && stream.dictCtx == null && 0 <= stream.dictionary
      ensures prefs.linked ==>
        stream.dictionary == src || (old(stream.DictEnd()) == src && old(stream.dictionary) <= stream.dictionary <= src)
    {
      hide Represents, Reusable, Stream.Intact, Searched;
      var acceleration := Acceleration();
      if prefs.linked {
        cSize := CompressLinked(mem, src, n, dst, dest, dstCapacity, acceleration, History());
      } else if cdict != null {
        cSize := CompressWithDict(mem, src, n, dst, dest, dstCapacity, acceleration);
      } else {
        stream.AttachDictionary(null);
        cSize := stream.CompressFastExtStateFastReset(mem, src, n, dst, dest, dstCapacity, acceleration);
      }
    }

    /** The header and the data of a block: compressed, if that saves a byte, or else as they are. */
    method PutBlock(mem: seq<byte>, src: int, n: nat, dst: array<byte>, dstPtr: int) returns (cSize: nat, ghost w: nat, ghost answer: seq<byte>)
      requires DictReady(mem) == true && StreamReady(mem, prefs.linked, History()) == true && Clear(src, n) == true
      requires 0 <= src && src + n <= |mem| && 1 <= n <= 4 * MB && 0 <= dstPtr && dstPtr + BLOCK_HEADER + n <= dst.Length
      modifies stream, stream.hashTable, dst
      ensures forall i :: 0 <= i < dst.Length && !(dstPtr <= i < dstPtr + BLOCK_HEADER + n) ==> dst[i] == old(dst[i])
      ensures 0 < cSize <= n && w < U32_SIZE && dst[dstPtr..dstPtr + BLOCK_HEADER] == Bytes32(w)
      ensures var data := dst[dstPtr + BLOCK_HEADER..dstPtr + BLOCK_HEADER + cSize];
              if answer == [] then
                cSize == n && w == n + UNCOMPRESSED_FLAG && data == mem[src..src + n]
              else
                w == cSize && data == answer && Represents(data, old(History()), mem[src..src + n])
      ensures Searched(mem, src, n, stream.hash, Clamp(Acceleration()), n - 1, answer) == true
      ensures StreamReady(mem, prefs.linked, old(History()) + mem[src..src + n]) == true
      ensures prefs.linked ==> stream.DictEnd() == src + n && stream.dictCtx == null && 0 <= stream.dictionary
      ensures prefs.linked ==>
        stream.dictionary == src || (old(stream.DictEnd()) == src && old(stream.dictionary) <= stream.dictionary <= src)
    {
      hide Represents, StreamReady, DictReady, Clear, Bytes32, Searched;
      cSize := CompressBlock(mem, src, n, dst, dstPtr + BLOCK_HEADER, n - 1);
      answer := dst[dstPtr + BLOCK_HEADER..dstPtr + BLOCK_HEADER + cSize];
      ghost var was;
      if cSize == 0 {
        cSize := n;
        w := cSize + UNCOMPRESSED_FLAG;
        Write32(dst, dstPtr, cSize + UNCOMPRESSED_FLAG);
        was := dst[..];
        CopyIn(dst, dstPtr + BLOCK_HEADER, mem, src, n);
        SameSlice(dst[..], was, dstPtr, dstPtr + BLOCK_HEADER);
      } else {
        w := cSize;
        was := dst[..];
        Write32(dst, dstPtr, cSize);
        SameSlice(dst[..], was, dstPtr + BLOCK_HEADER, dstPtr + BLOCK_HEADER + cSize);
      }
    }

    /** A whole block, which stands for its input behind the history. */
    method PutWhole(mem: seq<byte>, src: int, n: nat, dst: array<byte>, dstPtr: int) returns (size: nat, ghost answer: seq<byte>)
      requires DictReady(mem) == true && StreamReady(mem, prefs.linked, History()) == true && Clear(src, n) == true
      requires prefs.Valid() && 0 <= src && src + n <= |mem| && 1 <= n <= prefs.MaxBlockSize() && 0 <= dstPtr && dstPtr + prefs.Cost(n) <= dst.Length
      modifies stream, stream.hashTable, dst
      ensures forall i :: 0 <= i < dst.Length && !(dstPtr <= i < dstPtr + prefs.Cost(n)) ==> dst[i] == old(dst[i])
      ensures size <= prefs.Cost(n) && BlockText(dst[dstPtr..dstPtr + size], prefs.FrameInfo(), old(History())) == Part(mem[src..src + n])
      ensures Searched(mem, src, n, stream.hash, Clamp(Acceleration()), n - 1, answer) == true && |answer| <= n
      ensures dst[dstPtr..dstPtr + size] == BlockFor(mem[src..src + n], answer, prefs.blockChecksum)
      ensures StreamReady(mem, prefs.linked, old(History()) + mem[src..src + n]) == true
      ensures prefs.linked ==> stream.DictEnd() == src + n && stream.dictCtx == null && 0 <= stream.dictionary
      ensures prefs.linked ==>
        stream.dictionary == src || (old(stream.DictEnd()) == src && old(stream.dictionary) <= stream.dictionary <= src)
    {
      hide Represents, StreamReady, DictReady, Clear, BlockText, Bytes32, History, Searched, Checksum;
      ghost var h := History();
      var cSize;
      ghost var w;
      cSize, w, answer := PutBlock(mem, src, n, dst, dstPtr);
      ghost var data := dst[dstPtr + BLOCK_HEADER..dstPtr + BLOCK_HEADER + cSize];
      size := Seal(dst, dstPtr, cSize, w, data, prefs.blockChecksum);
      BlockStands(dst[dstPtr..dstPtr + size], w, data, prefs.FrameInfo(), h, mem[src..src + n]);
    }

    /**
     LZ4F_makeBlock: the block stands for its input behind the text so far, and takes no more than its cost. It is
     stored as it is only if the block that the search arrives at has no fewer bytes; equal bytes never are.
     */
    method MakeBlock(mem: seq<byte>, src: int, n: nat, dst: array<byte>, dstPtr: int) returns (size: nat, ghost answer: seq<byte>)
      requires DictReady(mem) == true && StreamReady(mem, prefs.linked, History()) == true && Clear(src, n) == true
      requires prefs.Valid() && 0 <= src && src + n <= |mem| && 1 <= n <= prefs.MaxBlockSize() && 0 <= dstPtr && dstPtr + prefs.Cost(n) <= dst.Length
      requires TextOf(blocks, prefs.FrameInfo(), Dictionary()) == Part(text)
      modifies this`blocks, this`text, stream, stream.hashTable, dst
      ensures forall i :: 0 <= i < dst.Length && !(dstPtr <= i < dstPtr + prefs.Cost(n)) ==> dst[i] == old(dst[i])
      ensures size <= prefs.Cost(n) && Added(text, old(text), mem, src, src + n) == true
      ensures Searched(mem, src, n, stream.hash, Clamp(Acceleration()), n - 1, answer) == true && |answer| <= n
      ensures dst[dstPtr..dstPtr + size] == BlockFor(mem[src..src + n], answer, prefs.blockChecksum) && blocks == old(blocks) + [dst[dstPtr..dstPtr + size]]
      ensures MIN_LENGTH <= n && AllEqual(mem[src..src + n]) ==> answer != [] && size <= prefs.Cost(EqualBound(n))
      ensures TextOf(blocks, prefs.FrameInfo(), Dictionary()) == Part(text)
      ensures Added(Flatten(blocks), old(Flatten(blocks)), dst[..], dstPtr, dstPtr + size) == true
      ensures StreamReady(mem, prefs.linked, History()) == true && Dictionary() == old(Dictionary())
      ensures prefs.linked ==> stream.DictEnd() == src + n && stream.dictCtx == null && 0 <= stream.dictionary
      ensures prefs.linked ==>
        stream.dictionary == src || (old(stream.DictEnd()) == src && old(stream.dictionary) <= stream.dictionary <= src)
    {
      hide StreamReady, Clear, TextOf, BlockText, Searched, BlockFor, AllEqual, EqualBound;
      ghost var h, d, more := History(), Dictionary(), mem[src..src + n];
      size, answer := PutWhole(mem, src, n, dst, dstPtr);
      if MIN_LENGTH <= n && AllEqual(more) { EqualBlock(mem, src, n, stream.hash, Clamp(Acceleration()), answer, prefs.blockChecksum); }
      OneMoreBlock(blocks, dst[dstPtr..dstPtr + size], prefs.FrameInfo(), d, text, more);
      assert d + text + more == d + (text + more);
      ReadyAgain(mem, prefs.linked, h + more, if prefs.linked then d + (text + more) else d);
      blocks, text := blocks + [dst[dstPtr..dstPtr + size]], text + more;
    }

    /** The block for equal bytes. */
    static lemma EqualBlock(mem: seq<byte>, src: int, n: nat, hash: seq<byte> -> nat, acceleration: int, answer: seq<byte>, checksum: bool)
      requires Searched(mem, src, n, hash, acceleration, n - 1, answer) == true && MIN_LENGTH <= n <= 4 * MB && |answer| <= n
      requires 0 <= src && src + n <= |mem| && AllEqual(mem[src..src + n])
      ensures answer != [] && |BlockFor(mem[src..src + n], answer, checksum)| <= BLOCK_HEADER + (if checksum then CHECKSUM else 0) + EqualBound(n)
    {
      hide Searched, AllEqual, Bytes32, Checksum;
      EqualAnswer(mem, src, n, hash, acceleration, n - 1, answer);
    }

    /** Without links, the history is not kept. */
    lemma ReadyAgain(mem: seq<byte>, linked: bool, h: seq<byte>, h': seq<byte>)
      requires StreamReady(mem, linked, h) == true && (linked ==> h' == h)
      ensures StreamReady(mem, linked, h') == true
    {
    }

    // ----- The state between blocks -----

    /** Input that has not been written yet. */
    ghost function Pending(mem: seq<byte>): seq<byte>
      reads this`tmpIn, this`tmpInSize
    {
      if 0 <= tmpIn && tmpIn + tmpInSize <= |mem| then mem[tmpIn..tmpIn + tmpInSize] else []
    }

    /** The preferences that hold for the frame. */
    ghost predicate Settled()
      reads this`prefs, this`maxBlockSize
    {
      prefs.Valid() && prefs.compressionLevel < LZ4HC_CLEVEL_MIN && maxBlockSize == prefs.MaxBlockSize()
    }

    /** What has been written stands for the text, and the next block can refer to it. */
    ghost predicate Written(mem: seq<byte>)
      requires prefs.Valid()
      reads this`prefs, this`cdict, this`blocks, this`text, cdict, if cdict != null then {cdict.hashTable} else {},
            stream, stream.hashTable, stream.dictCtx, if stream.dictCtx != null then {stream.dictCtx.hashTable} else {}
    {
      && TextOf(blocks, prefs.FrameInfo(), Dictionary()) == Part(text)
      && DictReady(mem) && StreamReady(mem, prefs.linked, History())
    }

    /** The encoder's own buffer: what the stream refers to ends where the next input goes, or is elsewhere. */
    ghost predicate Placed()
      reads this`prefs, this`tmpBuff, this`tmpIn, this`maxBufferSize, this`maxBlockSize, this`cdict, cdict, stream
    {
      && (cdict != null ==> Separate(cdict.dictionary, cdict.dictSize, tmpBuff, maxBufferSize))
      && tmpBuff <= tmpIn <= tmpBuff + maxBufferSize
      && (if prefs.linked then
            64 * KB <= maxBufferSize && (stream.DictEnd() == tmpIn || Separate(stream.dictionary, stream.dictSize, tmpBuff, maxBufferSize))
          else
            tmpIn == tmpBuff)
    }

    /** What the stream refers to is in the encoder's own buffer. */
    ghost predicate Kept()
      reads this`prefs, this`tmpBuff, this`tmpIn, stream
    {
      prefs.linked ==> stream.dictSize == 0 || (tmpBuff <= stream.dictionary && stream.DictEnd() == tmpIn)
    }

    /** The buffer is large enough for what has to be collected. */
    ghost predicate Sized()
      reads this`prefs, this`maxBlockSize, this`maxBufferSize
    {
      prefs.autoFlush || maxBlockSize + (if prefs.linked then 128 * KB else 0) <= maxBufferSize
    }

    /** The buffer is in memory, and has room for the block that is being collected. */
    ghost predicate Roomy(size: int)
      reads this`tmpBuff, this`tmpIn, this`maxBufferSize, this`maxBlockSize
    {
      0 <= tmpBuff <= tmpIn && tmpIn + maxBlockSize <= tmpBuff + maxBufferSize <= size
    }

    /** Memory may change where nothing is referred to. */
    lemma MemChanged(m1: seq<byte>, m2: seq<byte>, lo: int, hi: int)
      requires prefs.Valid() && Written(m1) == true && |m1| == |m2| && lo <= hi
      requires forall i :: 0 <= i < |m1| && !(lo <= i < hi) ==> m2[i] == m1[i]
      requires prefs.linked ==> Separate(stream.dictionary, stream.dictSize, lo, hi - lo)
      requires cdict != null ==> Separate(cdict.dictionary, cdict.dictSize, lo, hi - lo)
      ensures Written(m2) == true
    {
      hide TextOf, Reusable, Stream.Usable;
      DictElsewhere(m1, m2, lo, hi);
      if prefs.linked { StreamElsewhere(m1, m2, lo, hi, History()); }
    }

    lemma DictElsewhere(m1: seq<byte>, m2: seq<byte>, lo: int, hi: int)
      requires DictReady(m1) == true && |m1| == |m2| && lo <= hi && (forall i :: 0 <= i < |m1| && !(lo <= i < hi) ==> m2[i] == m1[i])
      requires cdict != null ==> Separate(cdict.dictionary, cdict.dictSize, lo, hi - lo)
      ensures DictReady(m2) == true
    {
      if cdict != null && cdict.dictSize > 0 { SameSlice(m2, m1, cdict.dictionary, cdict.DictEnd()); }
    }

    lemma StreamElsewhere(m1: seq<byte>, m2: seq<byte>, lo: int, hi: int, h: seq<byte>)
      requires StreamReady(m1, true, h) == true && |m1| == |m2| && lo <= hi && (forall i :: 0 <= i < |m1| && !(lo <= i < hi) ==> m2[i] == m1[i])
      requires Separate(stream.dictionary, stream.dictSize, lo, hi - lo)
      requires cdict != null ==> Separate(cdict.dictionary, cdict.dictSize, lo, hi - lo)
      ensures StreamReady(m2, true, h) == true
    {
      hide Reusable, Stream.Usable;
      if stream.dictCtx != null { SameSlice(m2, m1, stream.dictCtx.dictionary, stream.dictCtx.DictEnd()); }
    }

    /** The input of a call is in memory, and neither in the encoder's buffer nor right behind it. */
    ghost predicate Apart(size: int, src: int, n: nat)
      reads this`tmpBuff, this`maxBufferSize
    {
      0 <= src && src + n <= size && (src + n <= tmpBuff || tmpBuff + maxBufferSize < src)
    }

    // ----- LZ4F_compressUpdate, step by step -----

    /** Input goes behind what has been collected. */
    method Collect(mem: array<byte>, src: int, n: nat)
      requires prefs.Valid() && Written(mem[..]) == true && Placed() == true && Apart(mem.Length, src, n) == true
      requires Roomy(mem.Length) == true && tmpInSize + n <= maxBlockSize
      modifies this`tmpInSize, mem
      ensures Written(mem[..]) == true && tmpInSize == old(tmpInSize) + n
      ensures Pending(mem[..]) == old(Pending(mem[..]) + mem[src..src + n])
      ensures forall i :: 0 <= i < mem.Length && !(tmpBuff <= i < tmpBuff + maxBufferSize) ==> mem[i] == old(mem[i])
    {
      hide Written, Placed;
      ghost var was, at := mem[..], tmpIn + tmpInSize;
      assert Pending(was) == was[tmpIn..at];
      Extend(mem, tmpIn, tmpIn + tmpInSize, src, n);
      ghost var now := mem[..];
      ApartFromTmp(at, at + n);
      MemChanged(was, now, at, at + n);
      tmpInSize := tmpInSize + n;
      assert Pending(now) == now[tmpIn..at + n];
    }

    lemma ApartFromTmp(lo: int, hi: int)
      requires Placed() == true && tmpIn <= lo <= hi <= tmpBuff + maxBufferSize
      ensures prefs.linked ==> Separate(stream.dictionary, stream.dictSize, lo, hi - lo)
      ensures cdict != null ==> Separate(cdict.dictionary, cdict.dictSize, lo, hi - lo)
    {
    }

    /** What has been collected becomes a block. */
    method EmitTmp(mem: seq<byte>, dst: array<byte>, dstPtr: int, ghost src: int, ghost n: nat) returns (size: nat)
      requires Settled() == true && Written(mem) == true && Placed() == true && Roomy(|mem|) == true && 1 <= tmpInSize <= maxBlockSize
      requires 0 <= dstPtr && dstPtr + prefs.Cost(tmpInSize) <= dst.Length
      requires Apart(|mem|, src, n) == true && Clear(src, n) == true
      modifies this`tmpIn, this`tmpInSize, this`blocks, this`text, stream, stream.hashTable, dst
      ensures forall i :: 0 <= i < dst.Length && !(dstPtr <= i < dstPtr + prefs.Cost(old(tmpInSize))) ==> dst[i] == old(dst[i])
      ensures size <= prefs.Cost(old(tmpInSize)) && Added(Flatten(blocks), old(Flatten(blocks)), dst[..], dstPtr, dstPtr + size) == true
      ensures Written(mem) == true && Placed() == true && text == old(text + Pending(mem)) && tmpInSize == 0 && Dictionary() == old(Dictionary())
      ensures Clear(src, n) == true && (prefs.linked ==> stream.DictEnd() == tmpIn && 0 <= stream.dictionary && 0 < stream.dictSize && stream.dictCtx == null)
      ensures old(Kept()) ==> Kept() == true
    {
      hide TextOf, StreamReady, DictReady, Flatten, Searched, BlockFor, AllEqual, EqualBound;
      WrittenBounds(mem);
      ghost var answer;
      size, answer := MakeBlock(mem, tmpIn, tmpInSize, dst, dstPtr);
      if prefs.linked { tmpIn := tmpIn + tmpInSize; }
      tmpInSize := 0;
    }

    lemma WrittenBounds(mem: seq<byte>)
      requires prefs.Valid() && Written(mem) == true
      ensures prefs.linked ==> 0 <= stream.dictSize && NULL <= stream.dictionary
      ensures cdict != null ==> cdict != stream && cdict.hashTable != stream.hashTable
    {
      hide TextOf;
    }

    /** The first `n` of `all` bytes of input become a block where they are. */
    method EmitSrc(mem: seq<byte>, src: int, n: nat, ghost all: nat, dst: array<byte>, dstPtr: int) returns (size: nat)
      requires Settled() == true && Written(mem) == true && Placed() == true && 1 <= n <= maxBlockSize && n <= all
      requires 0 <= dstPtr && dstPtr + prefs.Cost(n) <= dst.Length
      requires Apart(|mem|, src, all) == true && Clear(src, all) == true
      modifies this`blocks, this`text, stream, stream.hashTable, dst
      ensures forall i :: 0 <= i < dst.Length && !(dstPtr <= i < dstPtr + prefs.Cost(n)) ==> dst[i] == old(dst[i])
      ensures size <= prefs.Cost(n) && Added(Flatten(blocks), old(Flatten(blocks)), dst[..], dstPtr, dstPtr + size) == true
      ensures Written(mem) == true && Added(text, old(text), mem, src, src + n) == true && Dictionary() == old(Dictionary())
      ensures Clear(src + n, all - n) == true && Saved() == true && Placed() == true
    {
      hide TextOf, StreamReady, DictReady, Flatten, Searched, BlockFor, AllEqual, EqualBound;
      WrittenBounds(mem);
      ghost var answer;
      size, answer := MakeBlock(mem, src, n, dst, dstPtr);
    }

    /** The last block came from the input: the stream refers to it, and not to the encoder's buffer. */
    ghost predicate Saved()
      reads this`prefs, this`tmpBuff, this`maxBufferSize, stream
    {
      prefs.linked ==>
        && Separate(stream.dictionary, stream.dictSize, tmpBuff, maxBufferSize)
        && 0 <= stream.dictionary && 0 < stream.dictSize && stream.dictCtx == null
    }

    /** All of the input that fills blocks, `q` of them, becomes blocks where it is. */
    method EmitBlocks(mem: seq<byte>, src: int, n: nat, dst: array<byte>, dstPtr: int, ghost q: nat) returns (taken: nat, size: nat)
      requires Settled() == true && Written(mem) == true && Placed() == true && q * maxBlockSize <= n < (q + 1) * maxBlockSize
      requires 0 <= dstPtr && dstPtr + q * prefs.Cost(maxBlockSize) <= dst.Length
      requires Apart(|mem|, src, n) == true && Clear(src, n) == true
      modifies this`blocks, this`text, stream, stream.hashTable, dst
      ensures taken == q * maxBlockSize && size <= q * prefs.Cost(maxBlockSize)
      ensures forall i :: 0 <= i < dst.Length && !(dstPtr <= i < dstPtr + q * prefs.Cost(maxBlockSize)) ==> dst[i] == old(dst[i])
      ensures Added(Flatten(blocks), old(Flatten(blocks)), dst[..], dstPtr, dstPtr + size) == true
      ensures Written(mem) == true && Added(text, old(text), mem, src, src + taken) == true && Dictionary() == old(Dictionary())
      ensures Clear(src + taken, n - taken) == true && Placed() == true && (q > 0 ==> Saved() == true)
    {
      hide *;
      SettledSize();
      ApartRest(|mem|, src, n, 0);
      AddedNothing(Flatten(blocks), dst[..], dstPtr);
      AddedNothing(text, mem, src);
      taken, size := 0, 0;
      ghost var k := 0;
      ghost var cost, d, f, t := prefs.Cost(maxBlockSize), Dictionary(), Flatten(blocks), text;
      while n - taken >= maxBlockSize
        invariant 0 <= k <= q && taken == k * maxBlockSize <= n && size <= k * cost
        invariant Written(mem) == true && Placed() == true && Clear(src + taken, n - taken) == true && (k > 0 ==> Saved() == true)
        invariant forall i :: 0 <= i < dst.Length && !(dstPtr <= i < dstPtr + q * cost) ==> dst[i] == old(dst[i])
        invariant Added(Flatten(blocks), f, dst[..], dstPtr, dstPtr + size) == true && Added(text, t, mem, src, src + taken) == true && Dictionary() == d
        decreases n - taken
      {
        BlocksLeft(k, q, n, maxBlockSize, cost);
        var more := EmitNext(mem, src, n, taken, dst, dstPtr, size, f, t);
        taken, size, k := taken + maxBlockSize, size + more, k + 1;
      }
      NoneLeft(k, q, n, maxBlockSize, taken);
    }

    lemma ApartRest(size: int, src: int, n: nat, taken: nat)
      requires Apart(size, src, n) == true && taken <= n
      ensures 0 <= src && src + n <= size && Apart(size, src + taken, n - taken) == true
    {
    }

    lemma SettledSize()
      requires Settled() == true
      ensures 1 <= maxBlockSize && prefs.Valid()
    {
    }

    /** One block more. */
    method EmitNext(mem: seq<byte>, src: int, n: nat, taken: nat, dst: array<byte>, dstPtr: int, size: nat, ghost f: seq<byte>, ghost t: seq<byte>)
      returns (more: nat)
      requires Settled() == true && Written(mem) == true && Placed() == true && taken + maxBlockSize <= n
      requires 0 <= dstPtr && dstPtr + size + prefs.Cost(maxBlockSize) <= dst.Length
      requires Apart(|mem|, src, n) == true && Clear(src + taken, n - taken) == true
      requires Added(Flatten(blocks), f, dst[..], dstPtr, dstPtr + size) == true && Added(text, t, mem, src, src + taken) == true
      modifies this`blocks, this`text, stream, stream.hashTable, dst
      ensures more <= prefs.Cost(maxBlockSize) && Dictionary() == old(Dictionary())
      ensures forall i :: 0 <= i < dst.Length && !(dstPtr + size <= i < dstPtr + size + prefs.Cost(maxBlockSize)) ==> dst[i] == old(dst[i])
      ensures Added(Flatten(blocks), f, dst[..], dstPtr, dstPtr + (size + more)) == true && Added(text, t, mem, src, src + (taken + maxBlockSize)) == true
      ensures Written(mem) == true && Clear(src + (taken + maxBlockSize), n - (taken + maxBlockSize)) == true && Placed() == true && Saved() == true
    {
      hide *;
      SettledSize();
      ApartRest(|mem|, src, n, taken);
      ghost var was, w, x := dst[..], Flatten(blocks), text;
      more := EmitSrc(mem, src + taken, maxBlockSize, n - taken, dst, dstPtr + size);
      AddedMore(f, w, Flatten(blocks), was, dst[..], dstPtr, dstPtr + size, dstPtr + (size + more));
      AddedMore(t, x, text, mem, mem, src, src + taken, src + (taken + maxBlockSize));
    }

    /** LZ4F_localSaveDict: the end of the history moves to the front of the encoder's buffer. It is never empty. */
    method LocalSaveDict(mem: array<byte>) returns (realDictSize: nat)
      requires Settled() == true && Written(mem[..]) == true && Placed() == true && prefs.linked && tmpInSize == 0
      requires 0 <= tmpBuff && tmpBuff + maxBufferSize <= mem.Length && 0 < stream.dictSize && stream.dictCtx == null
      modifies this`tmpIn, stream`dictionary, stream`dictSize, mem
      ensures 0 < realDictSize <= 64 * KB && tmpIn == tmpBuff + realDictSize && Written(mem[..]) == true && Placed() == true && Kept() == true
      ensures forall i :: 0 <= i < mem.Length && !(tmpBuff <= i < tmpBuff + maxBufferSize) ==> mem[i] == old(mem[i])
    {
      hide TextOf, Reusable, Stream.Usable, Stream.Loaded;
      ghost var was := mem[..];
      WrittenBounds(was);
      realDictSize := stream.SaveDict(mem, tmpBuff, 64 * KB);
      tmpIn := tmpBuff + realDictSize;
      DictElsewhere(was, mem[..], tmpBuff, tmpBuff + maxBufferSize);
    }

    /** "preserve dictionary if necessary" and "keep tmpIn within limits". */
    method KeepDict(mem: array<byte>, last: LastBlock, stableSrc: bool) returns (ok: bool)
      requires Settled() == true && Written(mem[..]) == true && Placed() == true && Sized() == true && (tmpInSize > 0 ==> last == NotDone)
      requires match last
               case NotDone => !prefs.autoFlush ==> Roomy(mem.Length) == true
               case FromTmpBuffer => prefs.linked ==> stream.DictEnd() == tmpIn && 0 < stream.dictSize && stream.dictCtx == null
               case FromSrcBuffer => Saved() == true
      requires BufferAt(mem.Length, stableSrc) == true
      modifies this`tmpIn, stream`dictionary, stream`dictSize, mem
      ensures ok && Written(mem[..]) == true && Placed() == true && (!prefs.autoFlush ==> Roomy(mem.Length) == true) && (last == NotDone ==> tmpIn == old(tmpIn) && mem[..] == old(mem[..]))
      ensures forall i :: 0 <= i < mem.Length && !(tmpBuff <= i < tmpBuff + maxBufferSize) ==> mem[i] == old(mem[i])
      ensures !stableSrc && (last == FromSrcBuffer || old(Kept())) ==> Kept() == true
    {
      hide Written;
      var realDictSize;
      if prefs.linked && last == FromSrcBuffer {
        if stableSrc {
          tmpIn := tmpBuff;
        } else {
          realDictSize := LocalSaveDict(mem);
          if realDictSize == 0 { return false; }
        }
      }
      if tmpIn + maxBlockSize > tmpBuff + maxBufferSize && !prefs.autoFlush {
        realDictSize := LocalSaveDict(mem);
      }
      ok := true;
    }

    /** "complete tmp buffer": input joins what has been collected, and if that fills a block, it is written. */
    method CompleteTmp(mem: array<byte>, src: int, n: nat, dst: array<byte>, dstPtr: int) returns (taken: nat, size: nat, last: LastBlock)
      requires Settled() == true && Written(mem[..]) == true && Placed() == true && Roomy(mem.Length) == true && 1 <= tmpInSize < maxBlockSize && mem != dst
      requires Apart(mem.Length, src, n) == true && Clear(src, n) == true
      requires 0 <= dstPtr <= dst.Length && (maxBlockSize <= tmpInSize + n ==> dstPtr + prefs.Cost(maxBlockSize) <= dst.Length)
      modifies this`tmpIn, this`tmpInSize, this`blocks, this`text, stream, stream.hashTable, dst, mem
      ensures taken == Min(n, maxBlockSize - old(tmpInSize)) && tmpInSize == (if taken + old(tmpInSize) < maxBlockSize then taken + old(tmpInSize) else 0)
      ensures last == (if taken + old(tmpInSize) < maxBlockSize then NotDone else FromTmpBuffer)
      ensures size <= (if last == NotDone then 0 else prefs.Cost(maxBlockSize))
      ensures forall i :: 0 <= i < dst.Length && !(last != NotDone && dstPtr <= i < dstPtr + prefs.Cost(maxBlockSize)) ==> dst[i] == old(dst[i])
      ensures forall i :: 0 <= i < mem.Length && !(tmpBuff <= i < tmpBuff + maxBufferSize) ==> mem[i] == old(mem[i])
      ensures dstPtr + size <= dst.Length && Added(Flatten(blocks), old(Flatten(blocks)), dst[..], dstPtr, dstPtr + size) == true
      ensures Added(text + Pending(mem[..]), old(text + Pending(mem[..])), old(mem[..]), src, src + taken) == true
      ensures Written(mem[..]) == true && Placed() == true && Clear(src, n) == true && Dictionary() == old(Dictionary()) && (old(Kept()) ==> Kept() == true)
      ensures last == NotDone ==> Roomy(mem.Length) == true
      ensures last == FromTmpBuffer && prefs.linked ==> stream.DictEnd() == tmpIn && 0 < stream.dictSize && stream.dictCtx == null
    {
      hide Written, Placed, Clear, Pending, Flatten, Dictionary, Kept;
      ghost var t, pending, more := text, Pending(mem[..]), mem[src..src + Min(n, maxBlockSize - tmpInSize)];
      assert t + pending + more == t + (pending + more);
      var sizeToCopy := maxBlockSize - tmpInSize;
      if sizeToCopy > n {
        Collect(mem, src, n);
        taken, size, last := n, 0, NotDone;
        assert dst[dstPtr..dstPtr] == [];
      } else {
        Collect(mem, src, sizeToCopy);
        taken, last := sizeToCopy, FromTmpBuffer;
        size := EmitTmp(mem[..], dst, dstPtr, src, n);
        NothingPending(mem[..]);
      }
    }

    lemma NothingPending(mem: seq<byte>)
      requires tmpInSize == 0
      ensures Pending(mem) == [] && text + Pending(mem) == text
    {
    }

    predicate StreamStays(dictionary: int, dictSize: int, dictCtx: Stream?)
      reads stream
    {
      stream.dictionary == dictionary && stream.dictSize == dictSize && stream.dictCtx == dictCtx
    }

    /** What the blocks of `q` whole block sizes and a rest of `r` bytes take at most. */
    function Needs(q: nat, r: nat): nat
      reads this`prefs, this`maxBlockSize
    {
      q * prefs.Cost(maxBlockSize) + if prefs.autoFlush && r > 0 then prefs.Cost(r) else 0
    }

    /** "compress full blocks", and "compress remaining input" if nothing is to be kept back. */
    method EmitInput(mem: seq<byte>, src: int, n: nat, dst: array<byte>, dstPtr: int, before: LastBlock, ghost q: nat, ghost r: nat)
      returns (taken: nat, size: nat, last: LastBlock)
      requires Settled() == true && Written(mem) == true && Placed() == true && n == q * maxBlockSize + r && r < maxBlockSize
      requires 0 <= dstPtr && dstPtr + Needs(q, r) <= dst.Length && Apart(|mem|, src, n) == true && Clear(src, n) == true
      modifies this`blocks, this`text, stream, stream.hashTable, dst
      ensures taken == (if prefs.autoFlush then n else n - r) && size <= Needs(q, r)
      ensures last == (if q > 0 || (prefs.autoFlush && r > 0) then FromSrcBuffer else before)
      ensures forall i :: 0 <= i < dst.Length && !(dstPtr <= i < dstPtr + Needs(q, r)) ==> dst[i] == old(dst[i])
      ensures Added(Flatten(blocks), old(Flatten(blocks)), dst[..], dstPtr, dstPtr + size) == true && Added(text, old(text), mem, src, src + taken) == true
      ensures Written(mem) == true && Placed() == true && Dictionary() == old(Dictionary()) && (last == FromSrcBuffer && taken > 0 ==> Saved() == true)
      ensures q > 0 || (prefs.autoFlush && r > 0) || StreamStays(old(stream.dictionary), old(stream.dictSize), old(stream.dictCtx)) == true
    {
      hide Written, Placed, Clear, Flatten, Dictionary, Saved, Preferences.Cost;
      ghost var f, t := Flatten(blocks), text;
      last := before;
      WholeBlocksIn(n, maxBlockSize, q, r);
      if n < maxBlockSize {
        taken, size := 0, 0;
        assert dst[dstPtr..dstPtr] == [] && mem[src..src] == [];
      } else {
        taken, size := EmitBlocks(mem, src, n, dst, dstPtr, q);
        last := FromSrcBuffer;
      }
      if prefs.autoFlush && taken < n {
        var more := EmitRest(mem, src, n, taken, dst, dstPtr, size, f, t);
        taken, size, last := n, size + more, FromSrcBuffer;
      }
    }

    /** The rest of the input becomes a block. */
    method EmitRest(mem: seq<byte>, src: int, n: nat, taken: nat, dst: array<byte>, dstPtr: int, size: nat, ghost f: seq<byte>, ghost t: seq<byte>)
      returns (more: nat)
      requires Settled() == true && Written(mem) == true && Placed() == true && taken < n <= taken + maxBlockSize
      requires 0 <= dstPtr && dstPtr + size + prefs.Cost(n - taken) <= dst.Length
      requires Apart(|mem|, src, n) == true && Clear(src + taken, n - taken) == true
      requires Added(Flatten(blocks), f, dst[..], dstPtr, dstPtr + size) == true && Added(text, t, mem, src, src + taken) == true
      modifies this`blocks, this`text, stream, stream.hashTable, dst
      ensures more <= prefs.Cost(n - taken) && Dictionary() == old(Dictionary())
      ensures forall i :: 0 <= i < dst.Length && !(dstPtr + size <= i < dstPtr + size + prefs.Cost(n - taken)) ==> dst[i] == old(dst[i])
      ensures Added(Flatten(blocks), f, dst[..], dstPtr, dstPtr + (size + more)) == true && Added(text, t, mem, src, src + n) == true
      ensures Written(mem) == true && Placed() == true && Saved() == true
    {
      hide *;
      ApartRest(|mem|, src, n, taken);
      ghost var was, w, x := dst[..], Flatten(blocks), text;
      more := EmitSrc(mem, src + taken, n - taken, n - taken, dst, dstPtr + size);
      AddedMore(f, w, Flatten(blocks), was, dst[..], dstPtr, dstPtr + size, dstPtr + (size + more));
      AddedMore(t, x, text, mem, mem, src, src + taken, src + n);
    }

    /** All blocks of one call: first the one that has been begun, then those that the input fills. */
    method EmitAll(mem: array<byte>, src: int, n: nat, dst: array<byte>, dstPtr: int, ghost q: nat, ghost r: nat)
      returns (taken: nat, size: nat, last: LastBlock)
      requires Settled() == true && Written(mem[..]) == true && Placed() == true && tmpInSize < maxBlockSize && mem != dst
      requires if prefs.autoFlush then tmpInSize == 0 else Roomy(mem.Length) == true
      requires tmpInSize + n == q * maxBlockSize + r && r < maxBlockSize
      requires 0 <= dstPtr && dstPtr + Needs(q, r) <= dst.Length && Apart(mem.Length, src, n) == true && Clear(src, n) == true
      modifies this`tmpIn, this`tmpInSize, this`blocks, this`text, stream, stream.hashTable, dst, mem
      ensures taken <= n && size <= Needs(q, r) && (tmpInSize > 0 ==> last == NotDone && taken == n)
      ensures tmpInSize + (n - taken) < maxBlockSize && (prefs.autoFlush ==> taken == n && tmpInSize == 0)
      ensures forall i :: 0 <= i < dst.Length && !(dstPtr <= i < dstPtr + Needs(q, r)) ==> dst[i] == old(dst[i])
      ensures forall i :: 0 <= i < mem.Length && !(tmpBuff <= i < tmpBuff + maxBufferSize) ==> mem[i] == old(mem[i])
      ensures Added(Flatten(blocks), old(Flatten(blocks)), dst[..], dstPtr, dstPtr + size) == true
      ensures Added(text + Pending(mem[..]), old(text + Pending(mem[..])), old(mem[..]), src, src + taken) == true
      ensures Written(mem[..]) == true && Placed() == true && Dictionary() == old(Dictionary())
      ensures match last
              case NotDone => (old(Kept()) ==> Kept() == true) && (!prefs.autoFlush ==> Roomy(mem.Length) == true)
              case FromTmpBuffer =>
                (old(Kept()) ==> Kept() == true) && (prefs.linked ==> stream.DictEnd() == tmpIn && 0 < stream.dictSize && stream.dictCtx == null)
              case FromSrcBuffer => Saved() == true
    {
      hide Written, Placed, Clear, Flatten, Dictionary, Needs, Pending, Saved, Settled;
      ghost var was, f, t := mem[..], Flatten(blocks), text + Pending(mem[..]);
      ghost var q1;
      taken, size, last, q1 := EmitFirst(mem, src, n, dst, dstPtr, q, r);
      ghost var now := mem[..];
      if tmpInSize == 0 {
        ClearRest(src, n, taken);
        taken, size, last := EmitMore(mem, src, n, dst, dstPtr, taken, size, last, q1, r, f, t);
        NothingPending(now);
        assert mem[..] == now;
        SameInput(was, now, src, n, taken);
      }
    }

    /** The block that has been begun, if there is one; `q1` blocks are left to be filled. */
    method EmitFirst(mem: array<byte>, src: int, n: nat, dst: array<byte>, dstPtr: int, ghost q: nat, ghost r: nat)
      returns (taken: nat, size: nat, last: LastBlock, ghost q1: nat)
      requires Settled() == true && Written(mem[..]) == true && Placed() == true && tmpInSize < maxBlockSize && mem != dst
      requires if prefs.autoFlush then tmpInSize == 0 else Roomy(mem.Length) == true
      requires tmpInSize + n == q * maxBlockSize + r && r < maxBlockSize
      requires 0 <= dstPtr && dstPtr + Needs(q, r) <= dst.Length && Apart(mem.Length, src, n) == true && Clear(src, n) == true
      modifies this`tmpIn, this`tmpInSize, this`blocks, this`text, stream, stream.hashTable, dst, mem
      ensures taken <= n && last in {NotDone, FromTmpBuffer} && (prefs.autoFlush ==> tmpInSize == 0)
      ensures if tmpInSize > 0 then
          last == NotDone && taken == n && size <= Needs(q, r) && tmpInSize < maxBlockSize
        else
          n - taken == q1 * maxBlockSize + r && size + Needs(q1, r) <= Needs(q, r) && Added(text, old(text + Pending(mem[..])), mem[..], src, src + taken) == true
      ensures forall i :: 0 <= i < dst.Length && !(dstPtr <= i < dstPtr + Needs(q, r)) ==> dst[i] == old(dst[i])
      ensures forall i :: 0 <= i < mem.Length && !(tmpBuff <= i < tmpBuff + maxBufferSize) ==> mem[i] == old(mem[i])
      ensures dstPtr + size <= dst.Length && Added(Flatten(blocks), old(Flatten(blocks)), dst[..], dstPtr, dstPtr + size) == true
      ensures Added(text + Pending(mem[..]), old(text + Pending(mem[..])), old(mem[..]), src, src + taken) == true
      ensures Written(mem[..]) == true && Placed() == true && Clear(src, n) == true && Dictionary() == old(Dictionary()) && (old(Kept()) ==> Kept() == true)
      ensures last == NotDone && !prefs.autoFlush ==> Roomy(mem.Length) == true
      ensures last == FromTmpBuffer && prefs.linked ==> stream.DictEnd() == tmpIn && 0 < stream.dictSize && stream.dictCtx == null
    {
      hide Written, Placed, Clear, Flatten, Dictionary, Preferences.Cost, Pending, Kept;
      ghost var was, t := mem[..], text + Pending(mem[..]);
      taken, size, last, q1 := 0, 0, NotDone, q;
      if tmpInSize > 0 {
        BlocksInCall(tmpInSize, n, maxBlockSize, prefs.Cost(maxBlockSize), q, r);
        taken, size, last := CompleteTmp(mem, src, n, dst, dstPtr);
        SameInput(was, mem[..], src, n, taken);
        if last != NotDone { q1 := q - 1; NothingPending(mem[..]); }
      } else {
        NothingPending(was);
        NoInputYet(dst[..], dstPtr, was, src);
      }
    }

    lemma SameInput(was: seq<byte>, now: seq<byte>, src: int, n: nat, taken: nat)
      requires Apart(|was|, src, n) == true && |was| == |now| && taken <= n
      requires forall i :: 0 <= i < |was| && !(tmpBuff <= i < tmpBuff + maxBufferSize) ==> now[i] == was[i]
      ensures now[src..src + taken] == was[src..src + taken]
    {
    }

    lemma ClearRest(src: int, n: nat, taken: nat)
      requires Clear(src, n) == true && taken <= n
      ensures Clear(src + taken, n - taken) == true
    {
    }

    /** The blocks that the rest of the input fills. */
    method EmitMore(mem: array<byte>, src: int, n: nat, dst: array<byte>, dstPtr: int, taken0: nat, size0: nat, before: LastBlock,
                    ghost q: nat, ghost r: nat, ghost f: seq<byte>, ghost t: seq<byte>)
      returns (taken: nat, size: nat, last: LastBlock)
      requires mem != dst && Settled() == true && Written(mem[..]) == true && Placed() == true && tmpInSize == 0 && taken0 <= n && n - taken0 == q * maxBlockSize + r && r < maxBlockSize
      requires 0 <= dstPtr && dstPtr + size0 + Needs(q, r) <= dst.Length && Apart(mem.Length, src, n) == true && Clear(src + taken0, n - taken0) == true
      requires Added(Flatten(blocks), f, dst[..], dstPtr, dstPtr + size0) == true && Added(text, t, mem[..], src, src + taken0) == true
      modifies this`blocks, this`text, stream, stream.hashTable, dst
      ensures taken == (if prefs.autoFlush then n else n - r) && size <= size0 + Needs(q, r)
      ensures last == (if q > 0 || (prefs.autoFlush && r > 0) then FromSrcBuffer else before)
      ensures forall i :: 0 <= i < dst.Length && !(dstPtr + size0 <= i < dstPtr + size0 + Needs(q, r)) ==> dst[i] == old(dst[i])
      ensures Added(Flatten(blocks), f, dst[..], dstPtr, dstPtr + size) == true && Added(text, t, mem[..], src, src + taken) == true
      ensures Written(mem[..]) == true && Placed() == true && Dictionary() == old(Dictionary())
      ensures if q > 0 || (prefs.autoFlush && r > 0) then Saved() == true else StreamStays(old(stream.dictionary), old(stream.dictSize), old(stream.dictCtx)) == true
    {
      hide *;
      ApartRest(mem.Length, src, n, taken0);
      ghost var was, w, x, m := dst[..], Flatten(blocks), text, mem[..];
      var more, cost;
      more, cost, last := EmitInput(mem[..], src + taken0, n - taken0, dst, dstPtr + size0, before, q, r);
      taken, size := taken0 + more, size0 + cost;
      assert mem[..] == m;
      AddedMore(f, w, Flatten(blocks), was, dst[..], dstPtr, dstPtr + size0, dstPtr + size);
      AddedMore(t, x, text, m, m, src, src + taken0, src + taken);
    }

    // ----- Whole calls -----

    /**
     Between two calls: what has been written stands for the text, and the text with what has been
     collected is the input.
     */
    ghost predicate Holds(mem: seq<byte>, input: seq<byte>)
      reads this, cdict, if cdict != null then {cdict.hashTable} else {},
            stream, stream.hashTable, stream.dictCtx, if stream.dictCtx != null then {stream.dictCtx.hashTable} else {}
    {
      && begun && Settled() && Written(mem) && Placed() && Sized() && tmpInSize < maxBlockSize
      && (if prefs.autoFlush then tmpInSize == 0 else Roomy(|mem|))
      && input == text + Pending(mem) && Counted(input)
    }

    /** The content checksum and the size have kept up with the input. */
    ghost predicate Counted(input: seq<byte>)
      reads this`prefs, this`xxh, this`totalInSize
    {
      && (prefs.contentChecksum ==> xxh == input)
      && (prefs.contentSize != 0 ==> totalInSize == |input| % U64_SIZE)
    }

    /** The buffer is in memory, unless this call has no use for it. */
    predicate BufferAt(size: int, stableSrc: bool)
      reads this`prefs, this`tmpBuff, this`maxBufferSize
    {
      (prefs.autoFlush && (stableSrc || !prefs.linked)) || (0 <= tmpBuff && tmpBuff + maxBufferSize <= size)
    }

    /** Input is taken: some of it is written, and the rest is collected. */
    method Consume(mem: array<byte>, src: int, n: nat, dst: array<byte>, dstPtr: int, stableSrc: bool, ghost q: nat, ghost r: nat)
      returns (size: nat, ok: bool)
      requires Settled() == true && Written(mem[..]) == true && Placed() == true && Sized() == true && tmpInSize < maxBlockSize && mem != dst
      requires if prefs.autoFlush then tmpInSize == 0 else Roomy(mem.Length) == true
      requires tmpInSize + n == q * maxBlockSize + r && r < maxBlockSize && BufferAt(mem.Length, stableSrc) == true
      requires 0 <= dstPtr && dstPtr + Needs(q, r) <= dst.Length && Apart(mem.Length, src, n) == true && Clear(src, n) == true
      modifies this`tmpIn, this`tmpInSize, this`blocks, this`text, stream, stream.hashTable, dst, mem
      ensures ok && size <= Needs(q, r) && Dictionary() == old(Dictionary())
      ensures forall i :: 0 <= i < dst.Length && !(dstPtr <= i < dstPtr + Needs(q, r)) ==> dst[i] == old(dst[i])
      ensures forall i :: 0 <= i < mem.Length && !(tmpBuff <= i < tmpBuff + maxBufferSize) ==> mem[i] == old(mem[i])
      ensures Added(Flatten(blocks), old(Flatten(blocks)), dst[..], dstPtr, dstPtr + size) == true
      ensures Added(text + Pending(mem[..]), old(text + Pending(mem[..])), old(mem[..]), src, src + n) == true
      ensures Written(mem[..]) == true && Placed() == true && tmpInSize < maxBlockSize
      ensures if prefs.autoFlush then tmpInSize == 0 else Roomy(mem.Length) == true
      ensures !stableSrc && old(Kept()) ==> Kept() == true
    {
      hide Written, Placed, Clear, Flatten, Dictionary, Needs, Pending, Kept;
      ghost var was, t, d := mem[..], text + Pending(mem[..]), Dictionary();
      var taken, last;
      taken, size, last := EmitAll(mem, src, n, dst, dstPtr, q, r);
      WrittenBounds(mem[..]);
      ghost var out := dst[..];
      SplitSlice(was, src, src + taken, src + n);
      assert t + was[src..src + taken] + was[src + taken..src + n] == t + was[src..src + n];
      assert was[src + n..src + n] == [];
      ok := KeepAndCollect(mem, src, n, taken, last, stableSrc, was);
      assert dst[..] == out;
    }

    /** The end of a call: the history is kept, and so is the rest of the input. */
    method KeepAndCollect(mem: array<byte>, src: int, n: nat, taken: nat, last: LastBlock, stableSrc: bool, ghost was: seq<byte>)
      returns (ok: bool)
      requires Settled() == true && Written(mem[..]) == true && Placed() == true && Sized() == true && taken <= n && tmpInSize + (n - taken) < maxBlockSize
      requires (prefs.autoFlush ==> taken == n && tmpInSize == 0) && (tmpInSize > 0 ==> last == NotDone && taken == n)
      requires match last
               case NotDone => !prefs.autoFlush ==> Roomy(mem.Length) == true
               case FromTmpBuffer => prefs.linked ==> stream.DictEnd() == tmpIn && 0 < stream.dictSize && stream.dictCtx == null
               case FromSrcBuffer => Saved() == true
      requires BufferAt(mem.Length, stableSrc) == true && Apart(mem.Length, src, n) == true
      requires |was| == mem.Length && forall i :: 0 <= i < mem.Length && !(tmpBuff <= i < tmpBuff + maxBufferSize) ==> mem[i] == was[i]
      modifies this`tmpIn, this`tmpInSize, stream`dictionary, stream`dictSize, mem
      ensures ok && Written(mem[..]) == true && Placed() == true && tmpInSize < maxBlockSize
      ensures forall i :: 0 <= i < mem.Length && !(tmpBuff <= i < tmpBuff + maxBufferSize) ==> mem[i] == was[i]
      ensures if prefs.autoFlush then tmpInSize == 0 else Roomy(mem.Length) == true
      ensures Pending(mem[..]) == old(Pending(mem[..])) + was[src + taken..src + n]
      ensures !stableSrc && (last == FromSrcBuffer || old(Kept())) ==> Kept() == true
    {
      hide *;
      SettledSize();
      ghost var pending := Pending(mem[..]);
      if tmpInSize == 0 { NothingPending(mem[..]); }
      ok := KeepDict(mem, last, stableSrc);
      if tmpInSize == 0 { NothingPending(mem[..]); }
      assert Pending(mem[..]) == pending;
      ApartRest(mem.Length, src, n, taken);
      if taken < n {
        SameInput(was, mem[..], src + taken, n - taken, n - taken);
        Collect(mem, src + taken, n - taken);
      }
    }

    lemma NeedsBound(srcSize: nat, q: nat, r: nat)
      requires Settled() == true && tmpInSize < maxBlockSize && Countable(srcSize + 4 * MB)
      requires tmpInSize + srcSize == q * maxBlockSize + r && r < maxBlockSize
      ensures Needs(q, r) + prefs.FrameEnd() <= BoundInternal(srcSize, prefs, tmpInSize)
    {
      hide BoundInternal;
      BoundParts(srcSize, prefs, tmpInSize, q, r);
    }

    /** LZ4F_compressUpdate. */
    method CompressUpdate(mem: array<byte>, dst: array<byte>, dstBuffer: int, dstCapacity: nat, srcBuffer: int, srcSize: nat, stableSrc: bool, ghost input: seq<byte>)
      returns (reply: Reply)
      requires mem != dst && 0 <= dstBuffer && dstBuffer + dstCapacity <= dst.Length && Countable(srcSize + 4 * MB)
      requires begun ==> Holds(mem[..], input) == true && BufferAt(mem.Length, stableSrc) == true && Apart(mem.Length, srcBuffer, srcSize) == true && Clear(srcBuffer, srcSize) == true
      modifies this`tmpIn, this`tmpInSize, this`blocks, this`text, this`xxh, this`totalInSize, stream, stream.hashTable, dst, mem
      ensures (reply == Failed(Generic) <==> !begun) && reply != Failed(FrameSizeWrong)
      ensures reply == Failed(DstMaxSizeTooSmall) <==> begun && dstCapacity < old(BoundInternal(srcSize, prefs, tmpInSize))
      ensures reply.Size? <==> begun && old(BoundInternal(srcSize, prefs, tmpInSize)) <= dstCapacity
      ensures forall i :: 0 <= i < dst.Length && !(dstBuffer <= i < dstBuffer + dstCapacity) ==> dst[i] == old(dst[i])
      ensures forall i :: 0 <= i < mem.Length && !(tmpBuff <= i < tmpBuff + maxBufferSize) ==> mem[i] == old(mem[i])
      ensures match reply
              case Failed(_) => mem[..] == old(mem[..]) && dst[..] == old(dst[..]) && blocks == old(blocks) && (begun ==> Holds(mem[..], input) == true)
              case Size(n) =>
                && n + prefs.FrameEnd() <= old(BoundInternal(srcSize, prefs, tmpInSize))
                && Holds(mem[..], input + old(mem[srcBuffer..srcBuffer + srcSize])) == true && Dictionary() == old(Dictionary())
                && Added(Flatten(blocks), old(Flatten(blocks)), dst[..], dstBuffer, dstBuffer + n) == true
                && (!stableSrc && old(Kept()) ==> Kept() == true)
    {
      hide *;
      if !begun { return Failed(Generic); }
      HoldsParts(mem[..], input);
      if dstCapacity < BoundInternal(srcSize, prefs, tmpInSize) { return Failed(DstMaxSizeTooSmall); }
      var n := Update(mem, dst, dstBuffer, srcBuffer, srcSize, stableSrc, input);
      reply := Size(n);
    }

    /** A call that has the room it needs. */
    method Update(mem: array<byte>, dst: array<byte>, dstBuffer: int, srcBuffer: int, srcSize: nat, stableSrc: bool, ghost input: seq<byte>)
      returns (size: nat)
      requires mem != dst && 0 <= dstBuffer && Countable(srcSize + 4 * MB) && Holds(mem[..], input) == true
      requires dstBuffer + BoundInternal(srcSize, prefs, tmpInSize) - prefs.FrameEnd() <= dst.Length
      requires BufferAt(mem.Length, stableSrc) == true && Apart(mem.Length, srcBuffer, srcSize) == true && Clear(srcBuffer, srcSize) == true
      modifies this`tmpIn, this`tmpInSize, this`blocks, this`text, this`xxh, this`totalInSize, stream, stream.hashTable, dst, mem
      ensures size + prefs.FrameEnd() <= old(BoundInternal(srcSize, prefs, tmpInSize))
      ensures forall i :: 0 <= i < dst.Length && !(dstBuffer <= i < dstBuffer + old(BoundInternal(srcSize, prefs, tmpInSize) - prefs.FrameEnd())) ==> dst[i] == old(dst[i])
      ensures forall i :: 0 <= i < mem.Length && !(tmpBuff <= i < tmpBuff + maxBufferSize) ==> mem[i] == old(mem[i])
      ensures Holds(mem[..], input + old(mem[srcBuffer..srcBuffer + srcSize])) == true && Dictionary() == old(Dictionary())
      ensures Added(Flatten(blocks), old(Flatten(blocks)), dst[..], dstBuffer, dstBuffer + size) == true && (!stableSrc && old(Kept()) ==> Kept() == true)
    {
      hide *;
      HoldsParts(mem[..], input);
      ghost var q, r := Divide(tmpInSize + srcSize, maxBlockSize);
      NeedsBound(srcSize, q, r);
      ghost var was := mem[..];
      var ok;
      size, ok := Consume(mem, srcBuffer, srcSize, dst, dstBuffer, stableSrc, q, r);
      ghost var m, out := mem[..], dst[..];
      ApartRest(mem.Length, srcBuffer, srcSize, 0);
      SameInput(was, m, srcBuffer, srcSize, srcSize);
      WrittenBounds(m);
      Count(mem[srcBuffer..srcBuffer + srcSize], input);
      assert mem[..] == m && dst[..] == out;
      HoldsAgain(m, input, was, srcBuffer, srcSize);
    }

    lemma HoldsParts(mem: seq<byte>, input: seq<byte>)
      requires Holds(mem, input) == true
      ensures begun && Settled() == true && 1 <= maxBlockSize && prefs.Valid() && Written(mem) == true && Placed() == true && Sized() == true
      ensures tmpInSize < maxBlockSize && (if prefs.autoFlush then tmpInSize == 0 else Roomy(|mem|) == true)
      ensures input == text + Pending(mem) && Counted(input) == true
    {
      hide Written, Placed, Pending, Counted;
    }

    lemma HoldsAgain(mem: seq<byte>, input: seq<byte>, was: seq<byte>, src: int, n: nat)
      requires begun && Settled() == true && prefs.Valid() && Written(mem) == true && Placed() == true && Sized() == true
      requires tmpInSize < maxBlockSize && (if prefs.autoFlush then tmpInSize == 0 else Roomy(|mem|) == true)
      requires Added(text + Pending(mem), input, was, src, src + n) == true && Counted(input + was[src..src + n]) == true
      ensures Holds(mem, input + was[src..src + n]) == true
    {
      hide Written, Placed, Pending, Counted;
    }

    /** The checksum and the size take notice of input. */
    method Count(bytes: seq<byte>, ghost input: seq<byte>)
      requires Counted(input) == true
      modifies this`xxh, this`totalInSize
      ensures Counted(input + bytes) == true
    {
      if prefs.contentChecksum { xxh := xxh + bytes; }
      SumWraps(totalInSize, |input|, |bytes|);
      totalInSize := (totalInSize + |bytes|) % U64_SIZE;
    }

    lemma NoClearance(mem: seq<byte>)
      requires Roomy(|mem|) == true
      ensures 0 <= tmpBuff && Apart(|mem|, tmpBuff, 0) == true && Clear(tmpBuff, 0) == true && BufferAt(|mem|, false) == true
    {
    }

    /** LZ4F_flush: everything that has been collected is written. */
    method Flush(mem: array<byte>, dst: array<byte>, dstBuffer: int, dstCapacity: nat, ghost input: seq<byte>) returns (reply: Reply)
      requires mem != dst && 0 <= dstBuffer && dstBuffer + dstCapacity <= dst.Length && (begun ==> Holds(mem[..], input) == true)
      modifies this`tmpIn, this`tmpInSize, this`blocks, this`text, stream, stream.hashTable, dst, mem
      ensures forall i :: 0 <= i < dst.Length && !(dstBuffer <= i < dstBuffer + dstCapacity) ==> dst[i] == old(dst[i])
      ensures forall i :: 0 <= i < mem.Length && !(tmpBuff <= i < tmpBuff + maxBufferSize) ==> mem[i] == old(mem[i])
      ensures reply == Failed(Generic) <==> !begun && old(tmpInSize) > 0
      ensures reply != Failed(FrameSizeWrong)
      ensures reply.Size? <==> old(tmpInSize) == 0 || (begun && old(tmpInSize) + BLOCK_HEADER + CHECKSUM <= dstCapacity)
      ensures reply == Failed(DstMaxSizeTooSmall) <==> begun && 0 < old(tmpInSize) && dstCapacity < old(tmpInSize) + BLOCK_HEADER + CHECKSUM
      ensures match reply
              case Failed(_) =>
                && mem[..] == old(mem[..]) && dst[..] == old(dst[..]) && blocks == old(blocks) && tmpInSize == old(tmpInSize)
                && (begun ==> Holds(mem[..], input) == true)
              case Size(n) =>
                && n <= dstCapacity && n <= (if old(tmpInSize) > 0 then old(prefs.Cost(tmpInSize)) else 0)
                && tmpInSize == 0 && Added(Flatten(blocks), old(Flatten(blocks)), dst[..], dstBuffer, dstBuffer + n) == true
                && (begun ==> Holds(mem[..], input) == true && Dictionary() == old(Dictionary()) && (old(Kept()) ==> Kept()))
    {
      hide *;
      if tmpInSize == 0 {
        AddedNothing(Flatten(blocks), dst[..], dstBuffer);
        return Size(0);
      }
      if !begun { return Failed(Generic); }
      if dstCapacity < tmpInSize + BLOCK_HEADER + CHECKSUM { return Failed(DstMaxSizeTooSmall); }
      CostFits(tmpInSize, dstCapacity);
      var n := FlushTmp(mem, dst, dstBuffer, input);
      reply := Size(n);
    }

    lemma CostFits(n: nat, dstCapacity: nat)
      requires n + BLOCK_HEADER + CHECKSUM <= dstCapacity
      ensures prefs.Cost(n) <= dstCapacity
    {
    }

    /** What has been collected is written. */
    method FlushTmp(mem: array<byte>, dst: array<byte>, dstBuffer: int, ghost input: seq<byte>) returns (size: nat)
      requires mem != dst && 0 <= dstBuffer && 0 < tmpInSize && dstBuffer + prefs.Cost(tmpInSize) <= dst.Length && Holds(mem[..], input) == true
      modifies this`tmpIn, this`tmpInSize, this`blocks, this`text, stream, stream.hashTable, dst, mem
      ensures forall i :: 0 <= i < dst.Length && !(dstBuffer <= i < dstBuffer + prefs.Cost(old(tmpInSize))) ==> dst[i] == old(dst[i])
      ensures forall i :: 0 <= i < mem.Length && !(tmpBuff <= i < tmpBuff + maxBufferSize) ==> mem[i] == old(mem[i])
      ensures size <= prefs.Cost(old(tmpInSize)) && tmpInSize == 0
      ensures Added(Flatten(blocks), old(Flatten(blocks)), dst[..], dstBuffer, dstBuffer + size) == true
      ensures Holds(mem[..], input) == true && Dictionary() == old(Dictionary()) && (old(Kept()) ==> Kept() == true)
    {
      hide *;
      HoldsParts(mem[..], input);
      NoClearance(mem[..]);
      size := EmitTmp(mem[..], dst, dstBuffer, tmpBuff, 0);
      ghost var out := dst[..];
      WrittenBounds(mem[..]);
      NothingPending(mem[..]);
      KeepWithin(mem);
      NothingPending(mem[..]);
      assert dst[..] == out;
      HoldsFlushed(mem[..], input);
    }

    /** "keep tmpIn within limits". */
    method KeepWithin(mem: array<byte>)
      requires Settled() == true && Written(mem[..]) == true && Placed() == true && Sized() == true && tmpInSize == 0 && !prefs.autoFlush
      requires BufferAt(mem.Length, false) == true && (prefs.linked ==> stream.DictEnd() == tmpIn && 0 < stream.dictSize && stream.dictCtx == null)
      modifies this`tmpIn, stream`dictionary, stream`dictSize, mem
      ensures Written(mem[..]) == true && Placed() == true && Roomy(mem.Length) == true
      ensures forall i :: 0 <= i < mem.Length && !(tmpBuff <= i < tmpBuff + maxBufferSize) ==> mem[i] == old(mem[i])
      ensures old(Kept()) ==> Kept() == true
    {
      hide Written;
      if tmpIn + maxBlockSize > tmpBuff + maxBufferSize {
        var realDictSize := LocalSaveDict(mem);
        tmpIn := tmpBuff + realDictSize;
      }
    }

    lemma HoldsFlushed(mem: seq<byte>, input: seq<byte>)
      requires begun && Settled() == true && prefs.Valid() && Written(mem) == true && Placed() == true && Sized() == true
      requires tmpInSize == 0 && !prefs.autoFlush && Roomy(|mem|) == true && input == text + Pending(mem) && Counted(input) == true
      ensures Holds(mem, input) == true
    {
      hide Written, Placed, Pending, Counted;
      SettledSize();
    }

    /** What the frame comes to, if it ends here. */
    ghost predicate Ended(input: seq<byte>)
      reads this`prefs, this`cdict, this`blocks, this`begun, cdict
    {
      && !begun && prefs.Valid() && TextOf(blocks, prefs.FrameInfo(), Dictionary()) == Part(input)
      && (prefs.contentSize != 0 ==> prefs.contentSize == |input| % U64_SIZE)
    }

    /** LZ4F_compressEnd: what has been collected, the end mark, and the content checksum. */
    method CompressEnd(mem: array<byte>, dst: array<byte>, dstBuffer: int, dstCapacity: nat, ghost input: seq<byte>) returns (reply: Reply)
      requires mem != dst && 0 <= dstBuffer && dstBuffer + dstCapacity <= dst.Length && begun && Holds(mem[..], input) == true
      modifies this`begun, this`maxBufferSize, this`tmpIn, this`tmpInSize, this`blocks, this`text, stream, stream.hashTable, dst, mem
      ensures forall i :: 0 <= i < dst.Length && !(dstBuffer <= i < dstBuffer + dstCapacity) ==> dst[i] == old(dst[i])
      ensures forall i :: 0 <= i < mem.Length && !(tmpBuff <= i < tmpBuff + old(maxBufferSize)) ==> mem[i] == old(mem[i])
      ensures dstCapacity >= old(BoundInternal(0, prefs, tmpInSize)) ==> reply != Failed(DstMaxSizeTooSmall)
      ensures reply == Failed(FrameSizeWrong) ==> prefs.contentSize != 0 && prefs.contentSize != |input| % U64_SIZE
      ensures match reply
              case Failed(e) => e == DstMaxSizeTooSmall || e == FrameSizeWrong
              case Size(n) =>
                && n <= dstCapacity && Ended(input) == true && Dictionary() == old(Dictionary())
                && n <= (if old(tmpInSize) > 0 then old(prefs.Cost(tmpInSize)) else 0) + prefs.FrameEnd()
                && Added(Flatten(blocks) + SuffixBytes(prefs.FrameInfo(), input), old(Flatten(blocks)), dst[..], dstBuffer, dstBuffer + n) == true
    {
      hide *;
      HoldsParts(mem[..], input);
      EndBound(tmpInSize);
      reply := Flush(mem, dst, dstBuffer, dstCapacity, input);
      if reply.Failed? { return; }
      HoldsParts(mem[..], input);
      var flushSize := reply.n;
      WrittenText(mem[..], input);
      ghost var f, was := Flatten(blocks), dst[..];
      var size, ok := PutSuffix(dst, dstBuffer + flushSize, dstCapacity - flushSize, input);
      if !ok { return Failed(DstMaxSizeTooSmall); }
      AddedMore(old(Flatten(blocks)), f, f + SuffixBytes(prefs.FrameInfo(), input), was, dst[..], dstBuffer, dstBuffer + flushSize, dstBuffer + flushSize + size);
      SizeAnnounced(input);
      begun := false;
      maxBufferSize := 0;
      if prefs.contentSize != 0 {
        if prefs.contentSize != totalInSize { return Failed(FrameSizeWrong); }
      }
      EndedNow(mem[..], input);
      reply := Size(flushSize + size);
    }

    lemma EndBound(n: nat)
      requires prefs.Valid() && n < maxBlockSize && Settled() == true
      ensures n > 0 ==> n + BLOCK_HEADER + CHECKSUM <= BoundInternal(0, prefs, n)
      ensures (if n > 0 then prefs.Cost(n) else 0) + prefs.FrameEnd() <= BoundInternal(0, prefs, n)
    {
      hide BoundInternal;
      BoundParts(0, prefs, n, 0, n);
    }

    /** When nothing is left, the text is the input. */
    lemma WrittenText(mem: seq<byte>, input: seq<byte>)
      requires prefs.Valid() && Written(mem) == true && tmpInSize == 0 && input == text + Pending(mem)
      ensures TextOf(blocks, prefs.FrameInfo(), Dictionary()) == Part(input)
    {
      hide TextOf, DictReady, StreamReady;
      NothingPending(mem);
    }

    lemma SizeAnnounced(input: seq<byte>)
      requires Counted(input) == true
      ensures prefs.contentSize != 0 ==> totalInSize == |input| % U64_SIZE
    {
    }

    lemma EndedNow(mem: seq<byte>, input: seq<byte>)
      requires !begun && prefs.Valid() && TextOf(blocks, prefs.FrameInfo(), Dictionary()) == Part(input)
      requires prefs.contentSize != 0 ==> prefs.contentSize == |input| % U64_SIZE
      ensures Ended(input) == true
    {
      hide TextOf;
    }

    /** The end mark and the content checksum. */
    method PutSuffix(dst: array<byte>, at: int, dstCapacity: int, ghost input: seq<byte>) returns (size: nat, ok: bool)
      requires 0 <= at && 0 <= dstCapacity && at + dstCapacity <= dst.Length && prefs.Valid() && Counted(input) == true
      modifies dst
      ensures forall i :: 0 <= i < dst.Length && !(at <= i < at + dstCapacity) ==> dst[i] == old(dst[i])
      ensures ok == (prefs.FrameEnd() <= dstCapacity) && (ok ==> size == prefs.FrameEnd())
      ensures ok ==> forall front: seq<byte> :: Added(front + SuffixBytes(prefs.FrameInfo(), input), front, dst[..], at, at + size)
    {
      hide *;
      ok := prefs.FrameEnd() <= dstCapacity;
      size := WriteSuffix(dst, at, dstCapacity, prefs.contentChecksum, xxh);
      FrameEndSize();
      if ok { SuffixAdded(dst[..], at, size, input); }
    }

    lemma FrameEndSize()
      ensures prefs.FrameEnd() == if prefs.contentChecksum then 8 else 4
    {
    }

    lemma SuffixAdded(dst: seq<byte>, at: int, size: nat, input: seq<byte>)
      requires prefs.Valid() && Counted(input) == true && 0 <= at && at + size <= |dst|
      requires dst[at..at + size] == Bytes32(0) + (if prefs.contentChecksum then Bytes32(Checksum(xxh)) else [])
      ensures forall front: seq<byte> :: Added(front + SuffixBytes(prefs.FrameInfo(), input), front, dst, at, at + size)
    {
      hide Bytes32, Checksum;
    }

    /** How much memory a new frame takes: none, if the buffer of an earlier one is large enough. */
    function NewSize(p: Preferences): nat
      requires p.Valid()
      reads this`maxBufferSize
    {
      if maxBufferSize < p.BufferSize() then p.BufferSize() else 0
    }

    /** A new buffer, at `place`, if the old one is too small. */
    method Allocate(mem: array<byte>, place: int)
      requires prefs.Valid() && 0 <= place && place + NewSize(prefs) <= mem.Length
      modifies this`tmpBuff, this`maxBufferSize, mem
      ensures if old(NewSize(prefs)) > 0 then
          tmpBuff == place && maxBufferSize == prefs.BufferSize() == old(NewSize(prefs))
        else
          tmpBuff == old(tmpBuff) && maxBufferSize == old(maxBufferSize) >= prefs.BufferSize()
      ensures forall i :: 0 <= i < mem.Length && !(place <= i < place + old(NewSize(prefs))) ==> mem[i] == old(mem[i])
    {
      var requiredBuffSize := prefs.BufferSize();
      if maxBufferSize < requiredBuffSize {
        maxBufferSize := 0;
        tmpBuff := place;
        forall i | place <= i < place + requiredBuffSize { mem[i] := 0; }
        maxBufferSize := requiredBuffSize;
      }
    }

    /** LZ4F_compressBegin_usingCDict. New memory for the buffer is taken from `place`. */
    method CompressBegin(mem: array<byte>, dst: array<byte>, dstBuffer: int, dstCapacity: nat, cdict: Stream?, preferences: Preferences, place: int)
      returns (reply: Reply)
      requires mem != dst && 0 <= dstBuffer && dstBuffer + dstCapacity <= dst.Length
      requires preferences.Valid() && preferences.compressionLevel < LZ4HC_CLEVEL_MIN && stream.Initialised() == true
      requires DictFits(mem[..], cdict, place, NewSize(preferences)) == true
      requires 0 <= place && place + NewSize(preferences) <= mem.Length
      requires preferences.autoFlush || (0 <= tmpBuff && tmpBuff + maxBufferSize <= mem.Length)
      modifies this, stream, stream.hashTable, dst, mem
      ensures reply == Failed(DstMaxSizeTooSmall) <==> dstCapacity < MAX_HEADER
      ensures forall i :: 0 <= i < dst.Length && !(dstBuffer <= i < dstBuffer + dstCapacity) ==> dst[i] == old(dst[i])
      ensures match reply
              case Failed(e) => e == DstMaxSizeTooSmall && mem[..] == old(mem[..]) && dst[..] == old(dst[..])
              case Size(n) =>
                && prefs == preferences && this.cdict == cdict && n <= MAX_HEADER && blocks == [] && text == []
                && dst[dstBuffer..dstBuffer + n] == HeaderBytes(prefs.FrameInfo())
                && Holds(mem[..], []) == true && Kept() == true && tmpInSize == 0 && (prefs.linked ==> stream.dictSize == 0)
                && BufferFrom(old(tmpBuff), old(maxBufferSize), place, old(NewSize(preferences))) == true
      ensures forall i :: 0 <= i < mem.Length && !(place <= i < place + old(NewSize(preferences))) ==> mem[i] == old(mem[i])
    {
      hide Holds, Kept, HeaderBytes, DictFits, Stream.Initialised, Preferences.FrameInfo;
      if dstCapacity < MAX_HEADER { return Failed(DstMaxSizeTooSmall); }
      Start(mem, cdict, preferences, place);
      ghost var m := mem[..];
      var n := PutHeader(dst, dstBuffer, prefs.FrameInfo());
      assert mem[..] == m;
      reply := Size(n);
    }

    /** Everything but the header. */
    method Start(mem: array<byte>, cdict: Stream?, preferences: Preferences, place: int)
      requires preferences.Valid() && preferences.compressionLevel < LZ4HC_CLEVEL_MIN && stream.Initialised() == true
      requires DictFits(mem[..], cdict, place, NewSize(preferences)) == true && 0 <= place && place + NewSize(preferences) <= mem.Length
      requires preferences.autoFlush || (0 <= tmpBuff && tmpBuff + maxBufferSize <= mem.Length)
      modifies this, stream, stream.hashTable, mem
      ensures prefs == preferences && this.cdict == cdict && blocks == [] && text == []
      ensures Holds(mem[..], []) == true && Kept() == true && tmpInSize == 0 && (prefs.linked ==> stream.dictSize == 0)
      ensures BufferFrom(old(tmpBuff), old(maxBufferSize), place, old(NewSize(preferences))) == true
      ensures forall i :: 0 <= i < mem.Length && !(place <= i < place + old(NewSize(preferences))) ==> mem[i] == old(mem[i])
    {
      hide *;
      this.prefs := preferences;
      maxBlockSize := prefs.MaxBlockSize();
      this.cdict := cdict;
      DictGiven(mem[..], place, NewSize(preferences));
      SettledNow();
      Reserve(mem, place);
      StartCounts();
      ghost var m := mem[..];
      StartStream(m);
      Beginning(m);
    }

    /** Nothing has been collected or counted. */
    method StartCounts()
      modifies this`begun, this`tmpIn, this`tmpInSize, this`xxh, this`totalInSize, this`blocks, this`text
      ensures begun && blocks == [] && text == [] && xxh == [] && tmpInSize == 0 && tmpIn == tmpBuff && (prefs.contentSize != 0 ==> totalInSize == 0)
    {
      tmpIn, tmpInSize, xxh := tmpBuff, 0, [];
      blocks, text := [], [];
      if prefs.contentSize != 0 { totalInSize := 0; }
      begun := true;
    }

    /** The buffer is large enough, and apart from the dictionary. */
    ghost predicate Reserved(size: int)
      reads this`prefs, this`maxBlockSize, this`tmpBuff, this`maxBufferSize, this`cdict, cdict
    {
      && prefs.Valid() && prefs.BufferSize() <= maxBufferSize && (prefs.autoFlush || (0 <= tmpBuff && tmpBuff + maxBufferSize <= size))
      && (cdict != null ==> Separate(cdict.dictionary, cdict.dictSize, tmpBuff, maxBufferSize))
    }

    method Reserve(mem: array<byte>, place: int)
      requires prefs.Valid() && DictReady(mem[..]) == true && 0 <= place && place + NewSize(prefs) <= mem.Length
      requires prefs.autoFlush || (0 <= tmpBuff && tmpBuff + maxBufferSize <= mem.Length)
      requires cdict != null ==>
        Separate(cdict.dictionary, cdict.dictSize, tmpBuff, maxBufferSize) && Separate(cdict.dictionary, cdict.dictSize, place, NewSize(prefs))
      modifies this`tmpBuff, this`maxBufferSize, mem
      ensures DictReady(mem[..]) == true && Reserved(mem.Length) == true
      ensures BufferFrom(old(tmpBuff), old(maxBufferSize), place, old(NewSize(prefs))) == true
      ensures forall i :: 0 <= i < mem.Length && !(place <= i < place + old(NewSize(prefs))) ==> mem[i] == old(mem[i])
    {
      hide DictReady, Preferences.BufferSize;
      ghost var was, size := mem[..], NewSize(prefs);
      Allocate(mem, place);
      DictElsewhere(was, mem[..], place, place + size);
    }

    lemma SettledNow()
      requires prefs.Valid() && prefs.compressionLevel < LZ4HC_CLEVEL_MIN && maxBlockSize == prefs.MaxBlockSize()
      ensures Settled() == true
    {
    }

    /** LZ4F_initStream, for linked blocks; otherwise it is left to every block. */
    method StartStream(ghost mem: seq<byte>)
      requires DictReady(mem) == true && stream.Initialised() == true
      modifies stream, stream.hashTable
      ensures DictReady(mem) == true && StreamReady(mem, prefs.linked, Dictionary()) == true && (prefs.linked ==> stream.dictSize == 0)
      ensures Dictionary() == old(Dictionary())
    {
      hide Stream.Initialised, Stream.Loaded;
      if prefs.linked { InitStream(mem); }
    }

    /** The buffer is the old one, or the new one. */
    predicate BufferFrom(oldBuff: int, oldSize: nat, place: int, newSize: nat)
      reads this`tmpBuff, this`maxBufferSize
    {
      if newSize > 0 then tmpBuff == place && maxBufferSize == newSize else tmpBuff == oldBuff && maxBufferSize == oldSize
    }

    /** A dictionary that a frame may be begun with: it is apart from the old buffer and from the new one. */
    ghost predicate DictFits(mem: seq<byte>, cdict: Stream?, place: int, newSize: nat)
      reads this`tmpBuff, this`maxBufferSize, cdict, if cdict != null then {cdict.hashTable} else {}
    {
      cdict != null ==>
        && cdict != stream && cdict.hashTable != stream.hashTable && (cdict.Loaded() || cdict.dictSize == 0)
        && (cdict.dictSize > 0 ==> cdict.DictEnd() <= |mem| && mem[cdict.dictionary..cdict.DictEnd()] == cdict.history)
        && Separate(cdict.dictionary, cdict.dictSize, tmpBuff, maxBufferSize) && Separate(cdict.dictionary, cdict.dictSize, place, newSize)
    }

    lemma DictGiven(mem: seq<byte>, place: int, newSize: nat)
      requires DictFits(mem, cdict, place, newSize) == true
      ensures DictReady(mem) == true
      ensures cdict != null ==> cdict != stream && cdict.hashTable != stream.hashTable
      ensures cdict != null ==> Separate(cdict.dictionary, cdict.dictSize, tmpBuff, maxBufferSize) && Separate(cdict.dictionary, cdict.dictSize, place, newSize)
    {
    }

    /** The state at the front of a frame. */
    lemma Beginning(mem: seq<byte>)
      requires begun && Settled() == true && DictReady(mem) == true && StreamReady(mem, prefs.linked, Dictionary()) == true
      requires blocks == [] && text == [] && xxh == [] && tmpInSize == 0 && tmpIn == tmpBuff && (prefs.contentSize != 0 ==> totalInSize == 0)
      requires Reserved(|mem|) == true && (prefs.linked ==> stream.dictSize == 0)
      ensures Holds(mem, []) == true && Kept() == true
    {
      hide DictReady, StreamReady;
      assert Dictionary() + text == Dictionary();
      NothingPending(mem);
    }

    // ----- A frame in one call -----

    /** The preferences that LZ4F_compressFrame_usingCDict replaces those of its caller with. */
    static method AdjustPreferences(preferences: Preferences, srcSize: nat) returns (prefs: Preferences)
      requires preferences.Valid() && srcSize < U64_SIZE && Countable(srcSize)
      ensures prefs.Valid() && Adjusted(prefs, preferences, srcSize)
      ensures CompressFrameBound(srcSize, prefs) == CompressFrameBound(srcSize, preferences)
    {
      hide BoundInternal;
      prefs := preferences;
      if prefs.contentSize != 0 { prefs := prefs.(contentSize := srcSize); }
      SameBound(srcSize, preferences, prefs);
      var id := OptimalBSID(prefs.blockSizeID, srcSize);
      FrameBoundSame(srcSize, prefs, id);
      ghost var q := prefs.(blockSizeID := id);
      prefs := prefs.(blockSizeID := id, autoFlush := true);
      if srcSize <= prefs.MaxBlockSize() { prefs := prefs.(linked := false); }
      SameBound(srcSize, q, prefs);
    }

    static lemma AdjustedParts(p: Preferences, preferences: Preferences, srcSize: nat)
      requires p.Valid() && preferences.Valid() && Adjusted(p, preferences, srcSize) == true
      ensures p.autoFlush && p.contentSize in {0, srcSize} && p.compressionLevel == preferences.compressionLevel
      ensures Headed(p.FrameInfo(), preferences, srcSize) == true
    {
      AdjustedHeader(p, preferences, srcSize);
    }

    static lemma SameBound(srcSize: nat, p: Preferences, q: Preferences)
      requires p.Valid() && q == p.(linked := q.linked, contentSize := q.contentSize, autoFlush := q.autoFlush) && q.Valid()
      ensures CompressFrameBound(srcSize, q) == CompressFrameBound(srcSize, p)
    {
    }

    /** What has to be free for the buffer of such a frame. */
    function FrameRoom(): nat
      reads this`maxBufferSize
    {
      if maxBufferSize < 64 * KB then 64 * KB else 0
    }

    /** The input, the dictionary, the old buffer and the new one are apart. */
    ghost predicate FrameFits(mem: seq<byte>, src: int, n: nat, cdict: Stream?, place: int)
      reads this`tmpBuff, this`maxBufferSize, cdict, if cdict != null then {cdict.hashTable} else {}
    {
      && 0 <= place && place + FrameRoom() <= |mem| && 0 <= src && src + n <= |mem|
      && (src + n <= tmpBuff || tmpBuff + maxBufferSize < src) && (FrameRoom() == 0 || src + n <= place || place + FrameRoom() < src)
      && DictFits(mem, cdict, place, FrameRoom()) && (cdict != null ==> Separate(cdict.dictionary, cdict.dictSize, src, n))
    }

    /**
     LZ4F_compressFrame_usingCDict: with the room that LZ4F_compressFrameBound asks for, and only then,
     it succeeds, and a decoder that is given the dictionary reads the input back.
     */
    method CompressFrameUsingCDict(mem: array<byte>, dst: array<byte>, dstBuffer: int, dstCapacity: nat, srcBuffer: int, srcSize: nat,
                                   cdict: Stream?, preferences: Preferences, place: int)
      returns (reply: Reply)
      requires mem != dst && 0 <= dstBuffer && dstBuffer + dstCapacity <= dst.Length && Countable(srcSize + 4 * MB)
      requires preferences.Valid() && preferences.compressionLevel < LZ4HC_CLEVEL_MIN && stream.Initialised() == true
      requires FrameFits(mem[..], srcBuffer, srcSize, cdict, place) == true
      modifies this, stream, stream.hashTable, dst, mem
      ensures forall i :: 0 <= i < dst.Length && !(dstBuffer <= i < dstBuffer + dstCapacity) ==> dst[i] == old(dst[i])
      ensures if dstCapacity < CompressFrameBound(srcSize, preferences) then
          reply == Failed(DstMaxSizeTooSmall)
        else
          && reply.Size? && reply.n <= CompressFrameBound(srcSize, preferences) && this.cdict == cdict
          && Frame(dst[dstBuffer..dstBuffer + reply.n], Dictionary()) == Complete(old(mem[srcBuffer..srcBuffer + srcSize]), reply.n)
          && ReadHeader(dst[dstBuffer..dstBuffer + reply.n]).Header?
          && Headed(ReadHeader(dst[dstBuffer..dstBuffer + reply.n]).info, preferences, srcSize) == true
    {
      hide *;
      CountableIsSmall(srcSize);
      var prefs := AdjustPreferences(preferences, srcSize);
      AdjustedParts(prefs, preferences, srcSize);
      if dstCapacity < CompressFrameBound(srcSize, prefs) { return Failed(DstMaxSizeTooSmall); }
      var n := EncodeFrame(mem, dst, dstBuffer, dstCapacity, srcBuffer, srcSize, cdict, prefs, place);
      reply := Size(n);
    }

    static lemma CountableIsSmall(n: nat)
      requires Countable(n + 4 * MB)
      ensures n < U64_SIZE && Countable(n)
    {
    }

    /** Header, input and end, with preferences that have been adjusted. */
    method EncodeFrame(mem: array<byte>, dst: array<byte>, dstBuffer: int, dstCapacity: nat, srcBuffer: int, srcSize: nat,
                       cdict: Stream?, preferences: Preferences, place: int)
      returns (n: nat)
      requires mem != dst && 0 <= dstBuffer && dstBuffer + dstCapacity <= dst.Length && Countable(srcSize + 4 * MB)
      requires preferences.Valid() && preferences.compressionLevel < LZ4HC_CLEVEL_MIN && stream.Initialised() == true
      requires preferences.autoFlush && preferences.contentSize in {0, srcSize} && CompressFrameBound(srcSize, preferences) <= dstCapacity
      requires FrameFits(mem[..], srcBuffer, srcSize, cdict, place) == true
      modifies this, stream, stream.hashTable, dst, mem
      ensures forall i :: 0 <= i < dst.Length && !(dstBuffer <= i < dstBuffer + dstCapacity) ==> dst[i] == old(dst[i])
      ensures n <= CompressFrameBound(srcSize, preferences) && this.cdict == cdict
      ensures Frame(dst[dstBuffer..dstBuffer + n], Dictionary()) == Complete(old(mem[srcBuffer..srcBuffer + srcSize]), n)
      ensures ReadHeader(dst[dstBuffer..dstBuffer + n]).Header? && ReadHeader(dst[dstBuffer..dstBuffer + n]).info == preferences.FrameInfo()
    {
      hide *;
      ghost var was := mem[..];
      FrameRoomIsEnough(was, srcBuffer, srcSize, cdict, preferences, place);
      ghost var input := was[srcBuffer..srcBuffer + srcSize];
      FrameBoundParts(srcSize, preferences);
      CountableIsSmall(srcSize);
      ghost var room, newRoom := NewSize(preferences), FrameRoom();
      ghost var oldBuff, oldSize := tmpBuff, maxBufferSize;
      var reply := CompressBegin(mem, dst, dstBuffer, dstCapacity, cdict, preferences, place);
      var h := reply.n;
      FrameApart(was, mem[..], srcBuffer, srcSize, place, oldBuff, oldSize, room, newRoom);
      HoldsParts(mem[..], []);
      ghost var head := dst[..];
      n := UpdateAndEnd(mem, dst, dstBuffer + h, dstCapacity - h, srcBuffer, srcSize, input);
      FrameMade(head, dst[..], dstBuffer, h, n, input);
      n := h + n;
    }

    lemma FrameRoomIsEnough(mem: seq<byte>, src: int, n: nat, cdict: Stream?, p: Preferences, place: int)
      requires p.Valid() && p.autoFlush && FrameFits(mem, src, n, cdict, place) == true
      ensures 0 <= place && place + NewSize(p) <= |mem| && DictFits(mem, cdict, place, NewSize(p)) == true
      ensures NewSize(p) <= FrameRoom() && 0 <= src && src + n <= |mem|
      ensures (src + n <= tmpBuff || tmpBuff + maxBufferSize < src)
      ensures FrameRoom() == 0 || src + n <= place || place + FrameRoom() < src
      ensures cdict != null ==> cdict != stream && Separate(cdict.dictionary, cdict.dictSize, src, n) == true
    {
    }

    static lemma FrameBoundParts(srcSize: nat, p: Preferences)
      requires p.Valid() && p.autoFlush
      ensures CompressFrameBound(srcSize, p) == MAX_HEADER + BoundInternal(srcSize, p, 0) && p == p.(autoFlush := true)
      ensures 19 == MAX_HEADER
    {
      hide BoundInternal;
    }

    /** After the header, the input is where it was, and apart from everything that matters. */
    lemma FrameApart(was: seq<byte>, mem: seq<byte>, src: int, n: nat, place: int, oldBuff: int, oldSize: nat, newSize: nat, newRoom: nat)
      requires |was| == |mem| && 0 <= src && src + n <= |mem| && newSize <= newRoom
      requires (src + n <= oldBuff || oldBuff + oldSize < src) && (newRoom == 0 || src + n <= place || place + newRoom < src)
      requires cdict != null ==> Separate(cdict.dictionary, cdict.dictSize, src, n) == true
      requires BufferFrom(oldBuff, oldSize, place, newSize) == true && Holds(mem, []) == true && Kept() == true && tmpInSize == 0 && text == []
      requires forall i :: 0 <= i < |mem| && !(place <= i < place + newSize) ==> mem[i] == was[i]
      requires prefs.linked ==> stream.dictSize == 0
      ensures Apart(|mem|, src, n) == true && Clear(src, n) == true && mem[src..src + n] == was[src..src + n]
    {
      hide Holds, Kept;
    }

    /** Input and end, behind a header that has just been written. */
    method UpdateAndEnd(mem: array<byte>, dst: array<byte>, at: int, dstCapacity: nat, srcBuffer: int, srcSize: nat, ghost input: seq<byte>)
      returns (size: nat)
      requires mem != dst && 0 <= at && at + dstCapacity <= dst.Length && Countable(srcSize + 4 * MB) && srcSize < U64_SIZE
      requires begun && Holds(mem[..], []) == true && blocks == [] && prefs.Valid() && prefs.autoFlush && tmpInSize == 0
      requires Apart(mem.Length, srcBuffer, srcSize) == true && Clear(srcBuffer, srcSize) == true && 0 <= srcBuffer && srcBuffer + srcSize <= mem.Length
      requires input == mem[srcBuffer..srcBuffer + srcSize] && prefs.contentSize in {0, srcSize}
      requires BoundInternal(srcSize, prefs, 0) <= dstCapacity
      modifies this, stream, stream.hashTable, dst, mem
      ensures forall i :: 0 <= i < dst.Length && !(at <= i < at + dstCapacity) ==> dst[i] == old(dst[i])
      ensures size <= BoundInternal(srcSize, old(prefs), 0) && prefs == old(prefs) && cdict == old(cdict) && Dictionary() == old(Dictionary())
      ensures Ended(input) == true && Added(Flatten(blocks) + SuffixBytes(prefs.FrameInfo(), input), [], dst[..], at, at + size) == true
    {
      hide *;
      StableIsFine(mem.Length);
      var reply := CompressUpdate(mem, dst, at, dstCapacity, srcBuffer, srcSize, true, []);
      var n := reply.n;
      assert [] + input == input;
      AutoFlushed(mem[..], input);
      NoBlocks();
      ghost var was, w := dst[..], Flatten(blocks);
      reply := CompressEnd(mem, dst, at + n, dstCapacity - n, input);
      size := n + reply.n;
      AddedMore([], w, Flatten(blocks) + SuffixBytes(prefs.FrameInfo(), input), was, dst[..], at, at + n, at + size);
    }

    lemma StableIsFine(size: int)
      requires prefs.autoFlush
      ensures BufferAt(size, true) == true
    {
    }

    static lemma NoBlocks()
      ensures Flatten([]) == []
    {
    }

    /** With automatic flushing nothing is kept back, and the end takes what it takes. */
    lemma AutoFlushed(mem: seq<byte>, input: seq<byte>)
      requires Holds(mem, input) == true && prefs.autoFlush
      ensures tmpInSize == 0 && BoundInternal(0, prefs, 0) == prefs.FrameEnd()
    {
      hide Written, Placed, BoundInternal;
      BoundParts(0, prefs, 0, 0, 0);
    }

    /** A header, blocks and an end that lie behind each other. */
    lemma FrameMade(head: seq<byte>, now: seq<byte>, at: int, h: nat, n: nat, input: seq<byte>)
      requires Ended(input) == true && prefs.Valid() && 0 <= at && at + h + n <= |now| == |head|
      requires head[at..at + h] == HeaderBytes(prefs.FrameInfo())
      requires forall i :: at <= i < at + h ==> now[i] == head[i]
      requires Added(Flatten(blocks) + SuffixBytes(prefs.FrameInfo(), input), [], now, at + h, at + h + n) == true
      ensures Frame(now[at..at + h + n], Dictionary()) == Complete(input, h + n)
      ensures ReadHeader(now[at..at + h + n]).Header? && ReadHeader(now[at..at + h + n]).info == prefs.FrameInfo()
    {
      EndedParts(input);
      hide *;
      var info := prefs.FrameInfo();
      var f := FrameJoined(head, now, at, h, n, HeaderBytes(info), Flatten(blocks), SuffixBytes(info, input));
      FrameReadBack(info, blocks, Dictionary(), input, f);
    }

    lemma EndedParts(input: seq<byte>)
      requires Ended(input) == true
      ensures prefs.Valid() && prefs.FrameInfo().Valid() && TextOf(blocks, prefs.FrameInfo(), Dictionary()) == Part(input)
      ensures prefs.FrameInfo().contentSize != 0 ==> prefs.FrameInfo().contentSize == |input| % U64_SIZE
    {
      hide TextOf;
    }

    static lemma FrameJoined(was: seq<byte>, now: seq<byte>, at: int, h: nat, n: nat, head: seq<byte>, body: seq<byte>, tail: seq<byte>) returns (f: seq<byte>)
      requires 0 <= at && at + h + n <= |now| == |was| && was[at..at + h] == head
      requires forall i :: at <= i < at + h ==> now[i] == was[i]
      requires Added(body + tail, [], now, at + h, at + h + n) == true
      ensures f == now[at..at + h + n] == head + body + tail && |f| == h + n
    {
      f := now[at..at + h + n];
      GrownSlice(was, now, at, at + h, at + h + n);
      assert now[at + h..at + h + n] == body + tail;
      assert head + (body + tail) == head + body + tail;
    }

    // ----- Memory that the caller uses again -----

    /** What the stream refers to is apart from everything that is apart from the buffer. */
    lemma KeptIsClear(mem: seq<byte>, input: seq<byte>, at: int, n: nat)
      requires Holds(mem, input) == true && Kept() == true && Apart(|mem|, at, n) == true
      requires cdict != null ==> Separate(cdict.dictionary, cdict.dictSize, at, n) == true
      ensures Clear(at, n) == true
    {
      hide Written, Pending, Counted;
    }

    /** The caller may use its memory for other things, but for the dictionary, if no input had to stay. */
    lemma HoldsElsewhere(m1: seq<byte>, m2: seq<byte>, input: seq<byte>, at: int, n: nat)
      requires Holds(m1, input) == true && Kept() == true && Apart(|m1|, at, n) == true && |m1| == |m2|
      requires forall i :: 0 <= i < |m1| && !(at <= i < at + n) ==> m2[i] == m1[i]
      requires cdict != null ==> Separate(cdict.dictionary, cdict.dictSize, at, n)
      ensures Holds(m2, input) == true
    {
      hide Holds, Kept, Written, Counted, Settled, Sized;
      KeptIsClear(m1, input, at, n);
      HoldsParts(m1, input);
      MemChanged(m1, m2, at, at + n);
      if tmpInSize == 0 {
        NothingPending(m1);
        NothingPending(m2);
      } else {
        SameSlice(m2, m1, tmpIn, tmpIn + tmpInSize);
      }
      HoldsFrom(m2, input);
    }

    lemma HoldsFrom(mem: seq<byte>, input: seq<byte>)
      requires begun && Settled() == true && prefs.Valid() && Written(mem) == true && Placed() == true && Sized() == true
      requires tmpInSize < maxBlockSize && (if prefs.autoFlush then tmpInSize == 0 else Roomy(|mem|) == true)
      requires input == text + Pending(mem) && Counted(input) == true
      ensures Holds(mem, input) == true
    {
      hide Written, Placed, Pending, Counted;
    }
  }

  datatype Error = Generic | DstMaxSizeTooSmall | FrameSizeWrong

  /** A size, or an error code. */
  datatype Reply = Size(n: nat) | Failed(error: Error)

  /** LZ4F_lastBlockStatus. */
  datatype LastBlock = NotDone | FromTmpBuffer | FromSrcBuffer

  predicate Separate(a: int, m: int, b: int, n: int) { m == 0 || n == 0 || a + m <= b || b + n <= a }

  /** LZ4F_writeLE32. */
  method Write32(dst: array<byte>, at: int, v: nat)
    requires 0 <= at && at + 4 <= dst.Length && v < U32_SIZE
    modifies dst
    ensures dst[at..at + 4] == Bytes32(v)
    ensures forall i :: 0 <= i < dst.Length && !(at <= i < at + 4) ==> dst[i] == old(dst[i])
  {
    dst[at], dst[at + 1], dst[at + 2], dst[at + 3] := v % 256, v / 256 % 256, v / 65536 % 256, v / 16777216;
  }

  /** memcpy from the input. */
  method CopyIn(dst: array<byte>, at: int, src: seq<byte>, s: int, n: nat)
    requires 0 <= at && at + n <= dst.Length && 0 <= s && s + n <= |src|
    modifies dst
    ensures dst[at..at + n] == src[s..s + n]
    ensures forall i :: 0 <= i < dst.Length && !(at <= i < at + n) ==> dst[i] == old(dst[i])
  {
    forall i | 0 <= i < n { dst[at + i] := src[s + i]; }
    assert forall i :: at <= i < at + n ==> dst[i] == src[i - at + s];
  }

  /** The checksum of a block that is in place, if there is to be one. */
  method Seal(dst: array<byte>, dstPtr: int, cSize: nat, ghost w: nat, ghost data: seq<byte>, crcFlag: bool) returns (size: nat)
    requires 0 <= dstPtr && dstPtr + BLOCK_HEADER + cSize + (if crcFlag then CHECKSUM else 0) <= dst.Length && w < U32_SIZE
    requires dst[dstPtr..dstPtr + BLOCK_HEADER] == Bytes32(w) && dst[dstPtr + BLOCK_HEADER..dstPtr + BLOCK_HEADER + cSize] == data
    modifies dst
    ensures size == BLOCK_HEADER + cSize + (if crcFlag then CHECKSUM else 0)
    ensures forall i :: 0 <= i < dst.Length && !(dstPtr <= i < dstPtr + size) ==> dst[i] == old(dst[i])
    ensures dst[dstPtr..dstPtr + size] == Bytes32(w) + data + (if crcFlag then Bytes32(Checksum(data)) else [])
  {
    hide Bytes32, Hash32;
    ghost var was := dst[..];
    var end := dstPtr + BLOCK_HEADER + cSize;
    size := BLOCK_HEADER + cSize;
    if crcFlag {
      WriteChecksum(dst, end, dst[dstPtr + BLOCK_HEADER..end]);
      size := size + CHECKSUM;
    }
    Sealed(was, dst[..], dstPtr, cSize, size, w, data, if crcFlag then Bytes32(Checksum(data)) else []);
  }

  lemma Sealed(was: seq<byte>, now: seq<byte>, p: int, cSize: nat, size: nat, w: nat, data: seq<byte>, crc: seq<byte>)
    requires w < U32_SIZE && 0 <= p && size == BLOCK_HEADER + cSize + |crc| && p + size <= |was| == |now|
    requires was[p..p + BLOCK_HEADER] == Bytes32(w) && was[p + BLOCK_HEADER..p + BLOCK_HEADER + cSize] == data
    requires forall i :: p <= i < p + BLOCK_HEADER + cSize ==> now[i] == was[i]
    requires now[p + BLOCK_HEADER + cSize..p + size] == crc
    ensures now[p..p + size] == Bytes32(w) + data + crc
  {
    hide Bytes32;
    var a, b := p + BLOCK_HEADER, p + BLOCK_HEADER + cSize;
    SameSlice(now, was, p, a);
    SameSlice(now, was, a, b);
    SplitSlice(now, p, a, b);
    SplitSlice(now, p, b, p + size);
  }

  /** A block in either form is what it should be. */
  lemma BlockStands(b: seq<byte>, w: nat, data: seq<byte>, info: Info, h: seq<byte>, text: seq<byte>)
    requires 0 < |data| <= |text| <= info.MaxBlockSize() && w < U32_SIZE
    requires b == Bytes32(w) + data + (if info.blockChecksum then Bytes32(Checksum(data)) else [])
    requires if w == |data| then Represents(data, h, text) else w == |data| + UNCOMPRESSED_FLAG && data == text
    ensures BlockText(b, info, h) == Part(text)
  {
    hide Represents, BlockText, Bytes32, Checksum;
    if w == |data| {
      PackedText(b, data, info, h, text);
    } else {
      RawText(b, data, info, h);
    }
  }

  /** A stretch of a buffer has been added behind `front`. */
  ghost predicate Added(whole: seq<byte>, front: seq<byte>, buffer: seq<byte>, a: int, b: int) {
    0 <= a <= b <= |buffer| && whole == front + buffer[a..b]
  }

  lemma AddedNothing(front: seq<byte>, buffer: seq<byte>, a: int)
    requires 0 <= a <= |buffer|
    ensures Added(front, front, buffer, a, a) == true && Added(front, front, buffer, a, a + 0) == true
  {
  }

  /** What was added in two steps. The first stretch may be in an earlier state of the buffer. */
  lemma AddedMore(front: seq<byte>, w1: seq<byte>, w2: seq<byte>, was: seq<byte>, now: seq<byte>, a: int, b: int, c: int)
    requires Added(w1, front, was, a, b) == true && Added(w2, w1, now, b, c) == true && |was| == |now| && forall i :: a <= i < b ==> now[i] == was[i]
    ensures Added(w2, front, now, a, c) == true
  {
    GrownSlice(was, now, a, b, c);
  }

  lemma GrownSlice(was: seq<byte>, now: seq<byte>, a: int, b: int, c: int)
    requires 0 <= a <= b <= c <= |now| == |was| && forall i :: a <= i < b ==> now[i] == was[i]
    ensures now[a..c] == was[a..b] + now[b..c]
  {
  }

  lemma BlocksLeft(k: nat, q: nat, n: nat, b: nat, cost: nat)
    requires n < (q + 1) * b && (k + 1) * b <= n
    ensures k < q && (k + 1) * cost <= q * cost && k * cost + cost == (k + 1) * cost && k * b + b == (k + 1) * b
  {
    if k >= q {
      Multiply(q + 1, k + 1, b);
      assert false;
    }
    Multiply(k + 1, q, cost);
  }

  lemma NoneLeft(k: nat, q: nat, n: nat, b: nat, taken: nat)
    requires k <= q && q * b <= n && taken == k * b && n - taken < b
    ensures k == q
  {
    if k < q {
      Multiply(k + 1, q, b);
      assert false;
    }
  }

  lemma WholeBlocksIn(n: nat, b: nat, q: nat, r: nat)
    requires n == q * b + r && r < b
    ensures n < (q + 1) * b && (q == 0 <==> n < b)
  {
    if q > 0 { Multiply(1, q, b); }
  }

  lemma NoInputYet(dst: seq<byte>, at: int, mem: seq<byte>, src: int)
    requires 0 <= at <= |dst| && 0 <= src <= |mem|
    ensures dst[at..at + 0] == [] && mem[src..src + 0] == []
  {
  }

  /** The blocks of a call, if the first one has been begun. */
  lemma BlocksInCall(had: nat, n: nat, b: nat, cost: nat, q: nat, r: nat)
    requires 0 < had < b && had + n == q * b + r && r < b
    ensures had + n < b <==> q == 0
    ensures q > 0 ==> n - (b - had) == (q - 1) * b + r && q * cost == (q - 1) * cost + cost
    ensures q == 0 ==> r == had + n
  {
    if q > 0 {
      Multiply(1, q, b);
      Together(q - 1, cost, 0);
      Together(q - 1, b, 0);
    }
  }

  /** Bytes go behind what is in `[a, b)`. */
  method Extend(mem: array<byte>, ghost a: int, b: int, src: int, n: nat)
    requires 0 <= a <= b && b + n <= mem.Length && 0 <= src && src + n <= mem.Length
    modifies mem
    ensures mem[..][a..b + n] == old(mem[..][a..b] + mem[src..src + n])
    ensures forall i :: 0 <= i < mem.Length && !(b <= i < b + n) ==> mem[i] == old(mem[i])
  {
    ghost var was := mem[..];
    MoveBytes(mem, b, src, n);
    GrownSlice(was, mem[..], a, b, b + n);
  }

  lemma SumWraps(total: nat, m: nat, n: nat)
    ensures total == m % U64_SIZE ==> (total + n) % U64_SIZE == (m + n) % U64_SIZE
  {
    var k := m / U64_SIZE;
    assert m == U64_SIZE * k + m % U64_SIZE;
  }

  /** The end mark, and the content checksum behind it, as far as there is room. */
  method WriteSuffix(dst: array<byte>, at: int, dstCapacity: int, contentChecksum: bool, xxh: seq<byte>) returns (size: nat)
    requires 0 <= at && 0 <= dstCapacity && at + dstCapacity <= dst.Length
    modifies dst
    ensures forall i :: 0 <= i < dst.Length && !(at <= i < at + dstCapacity) ==> dst[i] == old(dst[i])
    ensures (if contentChecksum then 8 else 4) <= dstCapacity ==>
      && size == (if contentChecksum then 8 else 4)
      && dst[..][at..at + size] == Bytes32(0) + (if contentChecksum then Bytes32(Checksum(xxh)) else [])
  {
    hide Bytes32, Checksum;
    if dstCapacity < 4 { return 0; }
    Write32(dst, at, 0);
    size := 4;
    if contentChecksum {
      if dstCapacity < 8 { return; }
      ghost var was := dst[..];
      WriteChecksum(dst, at + size, xxh);
      size := size + 4;
      GrownSlice(was, dst[..], at, at + 4, at + 8);
    }
  }

  /** The checksum of some bytes, as it is stored. */
  method WriteChecksum(dst: array<byte>, at: int, s: seq<byte>)
    requires 0 <= at && at + CHECKSUM <= dst.Length
    modifies dst
    ensures dst[at..at + CHECKSUM] == Bytes32(Checksum(s))
    ensures forall i :: 0 <= i < dst.Length && !(at <= i < at + CHECKSUM) ==> dst[i] == old(dst[i])
  {
    hide Bytes32, Hash32;
    var digest := XXH32(s, 0);
    Write32(dst, at, digest as nat);
  }

  /** LZ4F_writeLE64. */
  method Write64(dst: array<byte>, at: int, v: nat)
    requires 0 <= at && at + 8 <= dst.Length && v < U64_SIZE
    modifies dst
    ensures dst[at..at + 8] == Bytes64(v)
    ensures forall i :: 0 <= i < dst.Length && !(at <= i < at + 8) ==> dst[i] == old(dst[i])
  {
    hide Bytes32;
    Write32(dst, at, v % U32_SIZE);
    ghost var was := dst[..];
    Write32(dst, at + 4, v / U32_SIZE);
    GrownSlice(was, dst[..], at, at + 4, at + 8);
  }

  /** The descriptor of a frame, behind its magic number. */
  method PutDescriptor(dst: array<byte>, at: int, info: Info) returns (n: nat)
    requires info.Valid() && 0 <= at && at + 14 <= dst.Length
    modifies dst
    ensures n <= 14 && dst[..][at..at + n] == Descriptor(info)
    ensures forall i :: 0 <= i < dst.Length && !(at <= i < at + n) ==> dst[i] == old(dst[i])
  {
    hide Bytes32, Bytes64, Flags;
    dst[at], dst[at + 1] := Flags(info), 16 * info.blockSizeID;
    n := 2;
    assert dst[..][at..at + 2] == [Flags(info), 16 * info.blockSizeID];
    if info.contentSize > 0 {
      ghost var was := dst[..];
      Write64(dst, at + n, info.contentSize);
      GrownSlice(was, dst[..], at, at + n, at + n + 8);
      n := n + 8;
    }
    if info.dictID > 0 {
      ghost var was := dst[..];
      Write32(dst, at + n, info.dictID);
      GrownSlice(was, dst[..], at, at + n, at + n + 4);
      n := n + 4;
    }
  }

  /** The header of a frame. */
  method PutHeader(dst: array<byte>, at: int, info: Info) returns (n: nat)
    requires info.Valid() && 0 <= at && at + MAX_HEADER <= dst.Length
    modifies dst
    ensures n <= MAX_HEADER && dst[at..at + n] == HeaderBytes(info)
    ensures forall i :: 0 <= i < dst.Length && !(at <= i < at + n) ==> dst[i] == old(dst[i])
  {
    hide Bytes32, Descriptor, Hash32, LowByte;
    Write32(dst, at, MAGIC);
    ghost var was := dst[..];
    var size := PutDescriptor(dst, at + 4, info);
    GrownSlice(was, dst[..], at, at + 4, at + 4 + size);
    was := dst[..];
    ghost var desc := Descriptor(info);
    var xxh := XXH32(dst[at + 4..at + 4 + size], 0);
    dst[at + 4 + size] := LowByte(xxh >> 8);
    n := 4 + size + 1;
    GrownSlice(was, dst[..], at, at + 4 + size, at + n);
    assert dst[..][at + 4 + size..at + n] == [HeaderChecksum(desc)];
  }

  /** A place that nothing occupies, with room for the buffer that LZ4F_compressFrame pretends to have. */
  const NOWHERE := -5 * MB - 1

  /** LZ4F_compressFrame, with a context on the stack: no buffer is ever allocated or used. */
  method CompressFrame(hash: seq<byte> -> nat, mem: array<byte>, dst: array<byte>, dstBuffer: int, dstCapacity: nat, srcBuffer: int, srcSize: nat,
                       preferences: Preferences)
    returns (reply: Reply)
    requires mem != dst && 0 <= dstBuffer && dstBuffer + dstCapacity <= dst.Length && Countable(srcSize + 4 * MB)
    requires preferences.Valid() && preferences.compressionLevel < LZ4HC_CLEVEL_MIN && 0 <= srcBuffer && srcBuffer + srcSize <= mem.Length
    modifies dst, mem
    ensures forall i :: 0 <= i < dst.Length && !(dstBuffer <= i < dstBuffer + dstCapacity) ==> dst[i] == old(dst[i])
    ensures if dstCapacity < CompressFrameBound(srcSize, preferences) then
        reply == Failed(DstMaxSizeTooSmall)
      else
        && reply.Size? && reply.n <= CompressFrameBound(srcSize, preferences)
        && Frame(dst[dstBuffer..dstBuffer + reply.n], []) == Complete(old(mem[srcBuffer..srcBuffer + srcSize]), reply.n)
        && ReadHeader(dst[dstBuffer..dstBuffer + reply.n]).Header?
        && Headed(ReadHeader(dst[dstBuffer..dstBuffer + reply.n]).info, preferences, srcSize) == true
  {
    hide Frame, BoundInternal, Stream.Initialised;
    var cctx := new Cctx(hash);
    cctx.maxBufferSize := 5 * MB;
    cctx.tmpBuff := NOWHERE;
    reply := cctx.CompressFrameUsingCDict(mem, dst, dstBuffer, dstCapacity, srcBuffer, srcSize, null, preferences, 0);
  }

  /** LZ4F_createCDict: the last 64 KB of a dictionary, copied to `content` and loaded into a stream of their own. */
  method CreateCDict(hash: seq<byte> -> nat, mem: array<byte>, dictBuffer: int, dictSize: nat, content: int) returns (cdict: Stream)
    requires 0 <= dictBuffer && dictBuffer + dictSize <= mem.Length && 0 <= content && content + Min(dictSize, 64 * KB) <= mem.Length
    modifies mem
    ensures fresh(cdict) && fresh(cdict.hashTable) && (cdict.Loaded() || cdict.dictSize == 0)
    ensures if dictSize < 8 then cdict.dictSize == 0 else
        && cdict.dictionary == content && cdict.dictSize == Min(dictSize, 64 * KB)
        && cdict.history == mem[content..content + cdict.dictSize] == old(mem[dictBuffer + dictSize - Min(dictSize, 64 * KB)..dictBuffer + dictSize])
    ensures forall i :: 0 <= i < mem.Length && !(content <= i < content + Min(dictSize, 64 * KB)) ==> mem[i] == old(mem[i])
  {
    hide Stream.Valid, Stream.Intact;
    var dictStart, size := dictBuffer, dictSize;
    if size > 64 * KB {
      dictStart := dictStart + (size - 64 * KB);
      size := 64 * KB;
    }
    MoveBytes(mem, content, dictStart, size);
    cdict := new Stream(hash);
    var loaded, _ := cdict.LoadDict(mem[..], content, size);
  }
}
