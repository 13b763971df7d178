/**
 What the frame encoder writes, as values: headers, blocks and the end of a frame, and what a decoder
 makes of them. The size bounds are here as well.
 */
module FrameEncoding {
  import opened Bytes
  import opened BlockFormat
  import opened BlockCompressor
  import opened XxHash
  import opened FrameFormat

  // ----- Integers -----

  /** A 32-bit integer in little-endian order. */
  function Bytes32(v: nat): (s: seq<byte>)
    requires v < U32_SIZE
    ensures |s| == 4
  {
    [v % 256, v / 256 % 256, v / 65536 % 256, v / 16777216]
  }

  lemma Digits32(v: nat)
    requires v < U32_SIZE
    ensures Bytes32(v) == [v % 256, v / 256 % 256, v / 65536 % 256, v / 16777216]
    ensures v == v % 256 + 256 * (v / 256 % 256) + 65536 * (v / 65536 % 256) + 16777216 * (v / 16777216)
  {
  }

  lemma ReadBack32(f: seq<byte>, i: nat, v: nat)
    requires v < U32_SIZE && i + 4 <= |f| && f[i..i + 4] == Bytes32(v)
    ensures Le32(f, i) == v
  {
    hide Bytes32;
    Digits32(v);
    FourBytes(f, i, v % 256, v / 256 % 256, v / 65536 % 256, v / 16777216);
  }

  lemma FourBytes(f: seq<byte>, i: nat, b0: int, b1: int, b2: int, b3: int)
    requires i + 4 <= |f| && f[i..i + 4] == [b0, b1, b2, b3]
    ensures Le32(f, i) == b0 + 256 * b1 + 65536 * b2 + 16777216 * b3
  {
    var b := f[i..i + 4];
    assert f[i] == b[0] && f[i + 1] == b[1] && f[i + 2] == b[2] && f[i + 3] == b[3];
  }

  function Bytes64(v: nat): (s: seq<byte>)
    requires v < U64_SIZE
    ensures |s| == 8
  {
    Bytes32(v % U32_SIZE) + Bytes32(v / U32_SIZE)
  }

  lemma ReadBack64(f: seq<byte>, i: nat, v: nat)
    requires v < U64_SIZE && i + 8 <= |f| && f[i..i + 8] == Bytes64(v)
    ensures Le64(f, i) == v
  {
    hide Le32;
    var b := f[i..i + 8];
    assert f[i..i + 4] == b[..4] == Bytes32(v % U32_SIZE);
    assert f[i + 4..i + 8] == b[4..] == Bytes32(v / U32_SIZE);
    ReadBack32(f, i, v % U32_SIZE);
    ReadBack32(f, i + 4, v / U32_SIZE);
  }

  /** A checksum as it is stored. */
  function Checksum(s: seq<byte>): (v: nat)
    ensures v < U32_SIZE
  {
    Hash32(0, s) as nat
  }

  lemma ChecksumReadBack(s: seq<byte>)
    ensures IsChecksum(Checksum(s), s)
  {
    hide Hash32;
  }

  // ----- Headers -----

  function BoolBit(b: bool): byte { if b then 1 else 0 }

  function Flags(info: Info): (b: byte) {
    64 + 32 * BoolBit(!info.linked) + 16 * BoolBit(info.blockChecksum) + 8 * BoolBit(info.contentSize > 0)
    + 4 * BoolBit(info.contentChecksum) + BoolBit(info.dictID > 0)
  }

  /** The cast of a 32-bit value to a byte. */
  function LowByte(x: bv32): (b: byte) {
    SmallBits(x);
    SmallValue(x & 0xFF);
    (x & 0xFF) as byte
  }

  lemma SmallBits(x: bv32)
    ensures x & 0xFF <= 0xFF
  {
  }

  lemma SmallValue(x: bv32)
    requires x <= 0xFF
    ensures x as nat < 256
  {
  }

  lemma LowByteBack(x: bv32)
    ensures LowByte(x) as bv32 == x & 0xFF
  {
    var y := x & 0xFF;
    SmallBits(x);
    SmallValue(y);
    BitsBack(y);
    assert LowByte(x) == y as nat;
  }

  lemma BitsBack(x: bv32)
    ensures (x as nat) as bv32 == x
  {
  }

  /** LZ4F_headerChecksum. */
  function HeaderChecksum(s: seq<byte>): (b: byte) {
    LowByte(Hash32(0, s) >> 8)
  }

  /** The fields that the header checksum is made from. */
  function Descriptor(info: Info): (s: seq<byte>)
    requires info.Valid()
  {
    [Flags(info), 16 * info.blockSizeID]
    + (if info.contentSize > 0 then Bytes64(info.contentSize) else [])
    + (if info.dictID > 0 then Bytes32(info.dictID) else [])
  }

  /** A frame header. */
  function HeaderBytes(info: Info): (s: seq<byte>)
    requires info.Valid()
  {
    Bytes32(MAGIC) + Descriptor(info) + [HeaderChecksum(Descriptor(info))]
  }

  /** A header is read back as what it was made from. */
  lemma HeaderReadBack(info: Info)
    requires info.Valid()
    ensures ReadHeader(HeaderBytes(info)) == Header(info, |HeaderBytes(info)|)
    ensures |HeaderBytes(info)| <= MAX_HEADER
  {
    hide Bytes32, Bytes64, HeaderChecksum, HeaderChecksumHolds, Le32, Le64;
    var f, desc := HeaderBytes(info), Descriptor(info);
    var flg := Flags(info);
    FlagsReadBack(info);
    assert f[..4] == Bytes32(MAGIC) && f[0..4] == f[..4];
    ReadBack32(f, 0, MAGIC);
    assert f[4] == desc[0] == flg && f[5] == desc[1] == 16 * info.blockSizeID;
    if info.contentSize > 0 {
      assert f[6..14] == desc[2..10] == Bytes64(info.contentSize);
      ReadBack64(f, 6, info.contentSize);
    }
    if info.dictID > 0 {
      assert f[|f| - 5..|f| - 1] == desc[|desc| - 4..] == Bytes32(info.dictID);
      ReadBack32(f, |f| - 5, info.dictID);
    }
    HeaderChecksumReadBack(f, desc);
  }

  lemma FlagsReadBack(info: Info)
    ensures var flg := Flags(info);
            && flg / 64 == 1 && (flg / 32 % 2 == 0) == info.linked && (flg / 16 % 2 == 1) == info.blockChecksum
            && (flg / 8 % 2 == 1) == (info.contentSize > 0) && (flg / 4 % 2 == 1) == info.contentChecksum
            && flg / 2 % 2 == 0 && (flg % 2 == 1) == (info.dictID > 0)
  {
  }

  lemma HeaderChecksumReadBack(f: seq<byte>, desc: seq<byte>)
    requires |desc| >= 2 && f == Bytes32(MAGIC) + desc + [HeaderChecksum(desc)]
    ensures HeaderChecksumHolds(f, |f|)
  {
    hide Hash32, Bytes32, LowByte;
    assert f[4..|f| - 1] == desc;
    LowByteBack(Hash32(0, desc) >> 8);
  }

  // ----- Blocks -----

  /** What blocks add up to, if they are blocks. */
  datatype Part = Part(text: seq<byte>) | NotBlocks

  /** The text of one block with its header and its checksum, behind the history `h`. */
  function BlockText(b: seq<byte>, info: Info, h: seq<byte>): (r: Part) {
    if |b| < BLOCK_HEADER then NotBlocks
    else
      var w := Le32(b, 0);
      var n := w % UNCOMPRESSED_FLAG;
      if w == 0 || n > info.MaxBlockSize() || |b| != BLOCK_HEADER + n + info.ChecksumSize() then NotBlocks
      else
        var data := b[BLOCK_HEADER..BLOCK_HEADER + n];
        if info.blockChecksum && !ChecksumHolds(b, BLOCK_HEADER + n, data) then NotBlocks
        else if w >= UNCOMPRESSED_FLAG then Part(data)
        else
          match Content(data, h, info.MaxBlockSize())
          case Output(o) => Part(o)
          case _ => NotBlocks
  }

  /** A block as it is written: its header, its data and a checksum. */
  function BlockBytes(w: nat, data: seq<byte>, checksum: bool): seq<byte>
    requires w < U32_SIZE
  {
    Bytes32(w) + data + (if checksum then Bytes32(Checksum(data)) else [])
  }

  /** The block for `text`: compressed as `answer`, or, if there is none, as it is. */
  function BlockFor(text: seq<byte>, answer: seq<byte>, checksum: bool): seq<byte>
    requires |text| <= 4 * MB && |answer| <= 4 * MB
  {
    if answer == [] then BlockBytes(|text| + UNCOMPRESSED_FLAG, text, checksum) else BlockBytes(|answer|, answer, checksum)
  }

  /** The text of blocks, one after the other. */
  function TextOf(blocks: seq<seq<byte>>, info: Info, d: seq<byte>): (r: Part) {
    if blocks == [] then Part([])
    else
      match TextOf(blocks[..|blocks| - 1], info, d)
      case NotBlocks => NotBlocks
      case Part(t) =>
        match BlockText(blocks[|blocks| - 1], info, HistoryOf(info, d, t))
        case NotBlocks => NotBlocks
        case Part(o) => Part(t + o)
  }

  lemma OneMoreBlock(blocks: seq<seq<byte>>, b: seq<byte>, info: Info, d: seq<byte>, t: seq<byte>, o: seq<byte>)
    requires TextOf(blocks, info, d) == Part(t) && BlockText(b, info, HistoryOf(info, d, t)) == Part(o)
    ensures TextOf(blocks + [b], info, d) == Part(t + o) && Flatten(blocks + [b]) == Flatten(blocks) + b
  {
    hide BlockText;
    assert (blocks + [b])[..|blocks|] == blocks;
  }

  /** A block whose content compression has made. */
  lemma PackedText(b: seq<byte>, data: seq<byte>, info: Info, h: seq<byte>, text: seq<byte>)
    requires Represents(data, h, text) && |text| <= info.MaxBlockSize() && 0 < |data| <= info.MaxBlockSize()
    requires b == Bytes32(|data|) + data + (if info.blockChecksum then Bytes32(Checksum(data)) else [])
    ensures BlockText(b, info, h) == Part(text)
  {
    hide Decode, EndConditions, Bytes32, Le32, IsChecksum, Checksum;
    BlockFields(b, |data|, data, info);
    assert (h + text)[|h|..] == text;
  }

  /** A block that is stored as it is. */
  lemma RawText(b: seq<byte>, data: seq<byte>, info: Info, h: seq<byte>)
    requires 0 < |data| <= info.MaxBlockSize()
    requires b == Bytes32(|data| + UNCOMPRESSED_FLAG) + data + (if info.blockChecksum then Bytes32(Checksum(data)) else [])
    ensures BlockText(b, info, h) == Part(data)
  {
    hide Content, Bytes32, Le32, IsChecksum, Checksum;
    BlockFields(b, |data| + UNCOMPRESSED_FLAG, data, info);
  }

  lemma BlockFields(b: seq<byte>, w: nat, data: seq<byte>, info: Info)
    requires w < U32_SIZE && b == Bytes32(w) + data + (if info.blockChecksum then Bytes32(Checksum(data)) else [])
    ensures |b| == BLOCK_HEADER + |data| + info.ChecksumSize() && Le32(b, 0) == w && b[BLOCK_HEADER..BLOCK_HEADER + |data|] == data
    ensures info.blockChecksum ==> ChecksumHolds(b, BLOCK_HEADER + |data|, data)
  {
    hide Bytes32, Le32, IsChecksum, Checksum;
    assert b[0..4] == Bytes32(w);
    ReadBack32(b, 0, w);
    if info.blockChecksum {
      assert b[4 + |data|..4 + |data| + 4] == Bytes32(Checksum(data));
      ReadBack32(b, 4 + |data|, Checksum(data));
      ChecksumReadBack(data);
    }
  }

  /** A decoder that meets blocks goes on behind them, with their text. */
  lemma {:induction false} DecoderPasses(f: seq<byte>, i: nat, blocks: seq<seq<byte>>, info: Info, d: seq<byte>)
    requires TextOf(blocks, info, d).Part? && i + |Flatten(blocks)| <= |f| && f[i..i + |Flatten(blocks)|] == Flatten(blocks)
    ensures Blocks(f, i, info, d, [], Unlimited) == Blocks(f, i + |Flatten(blocks)|, info, d, TextOf(blocks, info, d).text, Unlimited)
    decreases |blocks|
  {
    hide Blocks, BlockText;
    if blocks != [] {
      var first, b := blocks[..|blocks| - 1], blocks[|blocks| - 1];
      var m := i + |Flatten(first)|;
      assert f[i..m] == Flatten(blocks)[..|Flatten(first)|] == Flatten(first);
      assert f[m..m + |b|] == Flatten(blocks)[|Flatten(first)|..] == b;
      DecoderPasses(f, i, first, info, d);
      DecoderPassesOne(f, m, b, info, d, TextOf(first, info, d).text);
    }
  }

  lemma DecoderPassesOne(f: seq<byte>, i: nat, b: seq<byte>, info: Info, d: seq<byte>, t: seq<byte>)
    requires i + |b| <= |f| && f[i..i + |b|] == b && BlockText(b, info, HistoryOf(info, d, t)).Part?
    ensures Blocks(f, i, info, d, t, Unlimited) == Blocks(f, i + |b|, info, d, t + BlockText(b, info, HistoryOf(info, d, t)).text, Unlimited)
  {
    hide Blocks, Content, Le32, IsChecksum;
    var n := Le32(b, 0) % UNCOMPRESSED_FLAG;
    var a := i + BLOCK_HEADER;
    SliceOfSlice(f, i, i + |b|, 0, 4);
    SameLe32(b, 0, f, i);
    SliceOfSlice(f, i, i + |b|, 4, 4 + n);
    if info.blockChecksum {
      SliceOfSlice(f, i, i + |b|, 4 + n, 8 + n);
      SameLe32(b, 4 + n, f, a + n);
    }
    assert [] + f[a..a + n] == f[a..a + n];
    BlocksStep(f, i, info, d, t, Unlimited);
  }

  /** The end mark and the content checksum. */
  function SuffixBytes(info: Info, text: seq<byte>): (s: seq<byte>) {
    Bytes32(0) + (if info.contentChecksum then Bytes32(Checksum(text)) else [])
  }

  /** A header, blocks and an end make a frame, which a decoder reads back. */
  lemma FrameReadBack(info: Info, blocks: seq<seq<byte>>, d: seq<byte>, text: seq<byte>, f: seq<byte>)
    requires info.Valid() && TextOf(blocks, info, d) == Part(text)
    requires info.contentSize != 0 ==> info.contentSize == |text| % U64_SIZE
    requires f == HeaderBytes(info) + Flatten(blocks) + SuffixBytes(info, text)
    ensures Frame(f, d) == Complete(text, |f|) && ReadHeader(f) == Header(info, |HeaderBytes(info)|)
  {
    hide HeaderBytes, Bytes32, Le32, Checksum, IsChecksum, ReadHeader, Blocks;
    var head, body := HeaderBytes(info), Flatten(blocks);
    HeaderReadBack(info);
    assert f[..|head|] == head;
    ReadHeaderPrefix(f, |head|);
    assert f[|head|..|head| + |body|] == body;
    DecoderPasses(f, |head|, blocks, info, d);
    EndReadBack(f, |head| + |body|, info, d, text);
  }

  lemma EndReadBack(f: seq<byte>, p: nat, info: Info, d: seq<byte>, text: seq<byte>)
    requires p <= |f| && f[p..] == SuffixBytes(info, text)
    requires info.contentSize != 0 ==> info.contentSize == |text| % U64_SIZE
    ensures Blocks(f, p, info, d, text, Unlimited) == Complete(text, |f|)
  {
    hide Bytes32, Le32, Checksum, IsChecksum;
    assert f[p..p + 4] == f[p..][..4] == Bytes32(0);
    ReadBack32(f, p, 0);
    if info.contentChecksum {
      assert f[p + 4..p + 8] == f[p..][4..] == Bytes32(Checksum(text));
      ReadBack32(f, p + 4, Checksum(text));
      ChecksumReadBack(text);
    }
  }

  // ----- Preferences -----

  /** LZ4F_preferences_t, with the part of LZ4F_frameInfo_t that the encoder reads. */
  datatype Preferences = Preferences(linked: bool, blockChecksum: bool, contentChecksum: bool, contentSize: nat, dictID: nat,
                                     blockSizeID: nat, compressionLevel: int, autoFlush: bool)
  {
    predicate Valid() {
      && contentSize < U64_SIZE && dictID < U32_SIZE && (blockSizeID == 0 || 4 <= blockSizeID <= 7)
    }

    /** What the header says. */
    function FrameInfo(): (i: Info)
      requires Valid()
      ensures i.Valid() && i.MaxBlockSize() == MaxBlockSize()
    {
      Info(linked, blockChecksum, contentChecksum, contentSize, if blockSizeID == 0 then DEFAULT_BLOCK_SIZE_ID else blockSizeID, dictID)
    }

    function MaxBlockSize(): (n: nat)
      ensures BlockSize(n)
    {
      BlockSizeOf(blockSizeID)
    }

    /** The size of the buffer that a frame needs: without automatic flushing, room for a block is part of it. */
    function BufferSize(): nat
      requires blockSizeID == 0 || 4 <= blockSizeID <= 7
    {
      if autoFlush then (if linked then 64 * KB else 0) else MaxBlockSize() + (if linked then 128 * KB else 0)
    }

    function FrameEnd(): nat { BLOCK_HEADER + (if contentChecksum then CHECKSUM else 0) }

    /** What a block of `n` bytes takes at most. */
    function Cost(n: nat): nat { BLOCK_HEADER + (if blockChecksum then CHECKSUM else 0) + n }
  }

  const DEFAULT_BLOCK_SIZE_ID := 4

  // ----- Bounds -----

  /** LZ4F_compressBound_internal. */
  function BoundInternal(srcSize: nat, prefs: Preferences, alreadyBuffered: nat): (n: nat)
    requires prefs.Valid()
  {
    var flush := prefs.autoFlush || srcSize == 0;
    var blockSize := prefs.MaxBlockSize();
    var maxSrcSize := srcSize + Min(alreadyBuffered, blockSize - 1);
    var lastBlockSize := if flush then Rest(maxSrcSize, blockSize) else 0;
    BlocksCost(WholeBlocks(maxSrcSize, blockSize), lastBlockSize, blockSize, prefs.Cost(0)) + prefs.FrameEnd()
  }

  function WholeBlocks(n: nat, blockSize: nat): nat
    requires blockSize > 0
  {
    n / blockSize
  }

  function Rest(n: nat, blockSize: nat): nat
    requires blockSize > 0
  {
    n % blockSize
  }

  /** What blocks take, at `overhead` bytes more for each than its content. Their number is a 32-bit value. */
  function BlocksCost(whole: nat, lastBlockSize: nat, blockSize: nat, overhead: nat): nat {
    var nbFullBlocks := whole % U32_SIZE;
    var nbBlocks := (nbFullBlocks + if lastBlockSize > 0 then 1 else 0) % U32_SIZE;
    overhead * nbBlocks + blockSize * nbFullBlocks + lastBlockSize
  }

  /** LZ4F_compressBound. */
  function UpdateBound(srcSize: nat, prefs: Preferences): (n: nat)
    requires prefs.Valid()
  {
    BoundInternal(srcSize, prefs, if prefs.autoFlush then 0 else U64_SIZE - 1)
  }

  /** LZ4F_compressFrameBound. */
  function CompressFrameBound(srcSize: nat, prefs: Preferences): (n: nat)
    requires prefs.Valid()
  {
    MAX_HEADER + BoundInternal(srcSize, prefs.(autoFlush := true), 0)
  }

  /** Sizes for which the number of blocks fits in 32 bits: less than 256 TB. */
  predicate Countable(n: nat) { n < (U32_SIZE - 1) * 64 * KB }

  lemma WholeAndRest(n: nat, b: nat, q: nat, r: nat)
    requires BlockSize(b) && n == q * b + r && r < b
    ensures WholeBlocks(n, b) == q && Rest(n, b) == r
  {
    if b == 64 * KB {
    } else if b == 256 * KB {
    } else if b == 1 * MB {
    } else {
    }
  }

  lemma Multiply(a: nat, b: nat, c: nat)
    requires a <= b
    ensures a * c <= b * c
  {
  }

  lemma FewBlocks(n: nat, b: nat, q: nat, r: nat)
    requires 64 * KB <= b && n == q * b + r && Countable(n)
    ensures q < U32_SIZE - 1
  {
    Multiply(64 * KB, b, q);
  }

  lemma Together(q: nat, cost: nat, b: nat)
    ensures cost * q + b * q == q * (cost + b) && cost * (q + 1) == cost * q + cost
  {
  }

  /** The bound in terms of whole blocks and what they cost. */
  lemma BoundParts(srcSize: nat, prefs: Preferences, buffered: nat, blocks: nat, rest: nat)
    requires prefs.Valid() && buffered < prefs.MaxBlockSize() && Countable(srcSize + buffered)
    requires srcSize + buffered == blocks * prefs.MaxBlockSize() + rest && rest < prefs.MaxBlockSize()
    ensures var last := if prefs.autoFlush || srcSize == 0 then rest else 0;
            BoundInternal(srcSize, prefs, buffered) ==
              blocks * prefs.Cost(prefs.MaxBlockSize()) + (if last > 0 then prefs.Cost(last) else 0) + prefs.FrameEnd()
  {
    hide Preferences.MaxBlockSize, Preferences.FrameEnd, Countable, WholeBlocks, Rest, BlocksCost;
    var b, n, cost := prefs.MaxBlockSize(), srcSize + buffered, prefs.Cost(0);
    WholeAndRest(n, b, blocks, rest);
    FewBlocks(n, b, blocks, rest);
    FewBlocksCost(blocks, rest, b, cost);
    FewBlocksCost(blocks, 0, b, cost);
    assert prefs.Cost(b) == cost + b;
  }

  lemma FewBlocksCost(q: nat, last: nat, b: nat, cost: nat)
    requires q < U32_SIZE - 1
    ensures BlocksCost(q, last, b, cost) == q * (cost + b) + (if last > 0 then cost + last else 0)
  {
    Together(q, cost, b);
  }

  /** More in the buffer does not make the bound smaller. */
  lemma BoundGrows(srcSize: nat, prefs: Preferences, buffered: nat, more: nat)
    requires prefs.Valid() && buffered <= more < prefs.MaxBlockSize() && Countable(srcSize + more)
    ensures BoundInternal(srcSize, prefs, buffered) <= BoundInternal(srcSize, prefs, more)
  {
    hide BoundInternal, Preferences.MaxBlockSize, Preferences.FrameEnd;
    var b := prefs.MaxBlockSize();
    var q1, r1 := Divide(srcSize + buffered, b);
    var q2, r2 := Divide(srcSize + more, b);
    BoundParts(srcSize, prefs, buffered, q1, r1);
    BoundParts(srcSize, prefs, more, q2, r2);
    Quotients(srcSize + buffered, srcSize + more, b, q1, r1, q2, r2);
    Multiply(q1, q2, prefs.Cost(b));
    if q1 < q2 { Together(q1, prefs.Cost(b), 0); Multiply(q1 + 1, q2, prefs.Cost(b)); }
  }

  /** LZ4F_compressBound is enough for a call, whatever has been collected before it. */
  lemma UpdateBoundCovers(srcSize: nat, prefs: Preferences, buffered: nat)
    requires prefs.Valid() && buffered < prefs.MaxBlockSize() && (prefs.autoFlush ==> buffered == 0) && Countable(srcSize + 4 * MB)
    ensures BoundInternal(srcSize, prefs, buffered) <= UpdateBound(srcSize, prefs)
  {
    if !prefs.autoFlush {
      BoundGrows(srcSize, prefs, buffered, prefs.MaxBlockSize() - 1);
      hide BlocksCost, WholeBlocks, Rest;
      assert Min(U64_SIZE - 1, prefs.MaxBlockSize() - 1) == Min(prefs.MaxBlockSize() - 1, prefs.MaxBlockSize() - 1);
    }
  }

  lemma Quotients(m: nat, n: nat, b: nat, q1: nat, r1: nat, q2: nat, r2: nat)
    requires m <= n && m == q1 * b + r1 && n == q2 * b + r2 && r1 < b && r2 < b
    ensures q1 <= q2 && (q1 == q2 ==> r1 <= r2)
  {
    if q1 > q2 {
      Multiply(q2 + 1, q1, b);
      assert false;
    }
  }

  lemma Divide(n: nat, b: nat) returns (q: nat, r: nat)
    requires 0 < b
    ensures n == q * b + r && r < b
  {
    q, r := n / b, n % b;
  }

  /** LZ4F_optimalBSID: the smallest size that holds the input in one block, but none larger than requested. */
  method OptimalBSID(requestedBSID: nat, srcSize: nat) returns (id: nat)
    requires requestedBSID == 0 || 4 <= requestedBSID <= 7
    ensures Adequate(id, requestedBSID, srcSize)
  {
    var proposedBSID, maxBlockSize := 4, 64 * KB;
    while requestedBSID > proposedBSID
      invariant 4 <= proposedBSID && maxBlockSize == BlockSizeOf(proposedBSID) && (requestedBSID >= 4 ==> proposedBSID <= requestedBSID)
      decreases requestedBSID - proposedBSID
    {
      if srcSize <= maxBlockSize { return proposedBSID; }
      proposedBSID := proposedBSID + 1;
      maxBlockSize := 4 * maxBlockSize;
    }
    id := requestedBSID;
  }

  /** The preferences that a frame made in one call is made with. */
  predicate Adjusted(p: Preferences, preferences: Preferences, srcSize: nat) {
    && p == preferences.(autoFlush := true, contentSize := p.contentSize, blockSizeID := p.blockSizeID, linked := p.linked)
    && p.contentSize == (if preferences.contentSize == 0 then 0 else srcSize)
    && Adequate(p.blockSizeID, preferences.blockSizeID, srcSize) && p.linked == (preferences.linked && srcSize > p.MaxBlockSize())
  }

  /** What the header of such a frame says. */
  predicate Headed(info: Info, preferences: Preferences, srcSize: nat) {
    && info.dictID == preferences.dictID && info.contentSize == (if preferences.contentSize == 0 then 0 else srcSize)
    && info.blockChecksum == preferences.blockChecksum && info.contentChecksum == preferences.contentChecksum
    && Adequate(info.blockSizeID, if preferences.blockSizeID == 0 then DEFAULT_BLOCK_SIZE_ID else preferences.blockSizeID, srcSize)
    && info.linked == (preferences.linked && srcSize > info.MaxBlockSize())
  }

  lemma AdjustedHeader(p: Preferences, preferences: Preferences, srcSize: nat)
    requires p.Valid() && preferences.Valid() && Adjusted(p, preferences, srcSize)
    ensures Headed(p.FrameInfo(), preferences, srcSize)
  {
  }

  /** The requested size, or a smaller one that holds the input in one block. */
  predicate Adequate(id: nat, requestedBSID: nat, srcSize: nat) {
    id == requestedBSID || (4 <= id < requestedBSID <= 7 && srcSize <= BlockSizeOf(id))
  }

  /** The bound for a whole frame is the same for the block size that is asked for and for the one that is taken. */
  lemma FrameBoundSame(srcSize: nat, prefs: Preferences, id: nat)
    requires prefs.Valid() && Adequate(id, prefs.blockSizeID, srcSize) && Countable(srcSize)
    ensures CompressFrameBound(srcSize, prefs.(blockSizeID := id)) == CompressFrameBound(srcSize, prefs)
  {
    hide BoundInternal;
    var p, q := prefs.(autoFlush := true), prefs.(blockSizeID := id, autoFlush := true);
    if id != prefs.blockSizeID {
      BoundParts(srcSize, p, 0, 0, srcSize);
      if srcSize < q.MaxBlockSize() {
        BoundParts(srcSize, q, 0, 0, srcSize);
      } else {
        BoundParts(srcSize, q, 0, 1, 0);
      }
    }
  }
}
