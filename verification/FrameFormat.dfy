/**
 The meaning of an LZ4 frame, as the LZ4 Frame Format Description gives it: a reference decoder that
 sees the whole input at once. The resumable decoder and the encoder are proved against it.
 */
module FrameFormat {
  import opened Bytes
  import opened BlockFormat
  import opened XxHash

  const MAGIC := 0x184D_2204
  const MAGIC_SKIPPABLE := 0x184D_2A50
  const UNCOMPRESSED_FLAG := 0x8000_0000
  const MIN_HEADER := 7
  const MAX_HEADER := 19
  const BLOCK_HEADER := 4
  const CHECKSUM := 4

  /** The sizes that blocks can have at most. */
  predicate BlockSize(n: int) { n == 64 * KB || n == 256 * KB || n == 1 * MB || n == 4 * MB }

  /** LZ4F_getBlockSize; 0 stands for the default. */
  function BlockSizeOf(blockSizeID: nat): (n: nat)
    ensures BlockSize(n)
  {
    if blockSizeID == 7 then 4 * MB else if blockSizeID == 6 then 1 * MB else if blockSizeID == 5 then 256 * KB else 64 * KB
  }

  /** LZ4F_frameInfo_t. A content size of 0 means unknown, a dictionary ID of 0 that there is none. */
  datatype Info = Info(linked: bool, blockChecksum: bool, contentChecksum: bool, contentSize: nat, blockSizeID: nat, dictID: nat)
  {
    predicate Valid() { 4 <= blockSizeID <= 7 && contentSize < U64_SIZE && dictID < U32_SIZE }

    function MaxBlockSize(): (n: nat)
      ensures 64 * KB <= n <= 4 * MB
    {
      BlockSizeOf(blockSizeID)
    }

    function ChecksumSize(): nat { if blockChecksum then CHECKSUM else 0 }
  }

  /** What can be wrong with a frame. */
  datatype Flaw = HeaderFlaw | BlockTooLong | BlockChecksumFlaw | BlockFlaw | SizeFlaw | ChecksumFlaw

  /**
   What an input means: `Complete` with its text and where the frame ends; `Incomplete` if the input
   ends too early; `Invalid` with the first thing that is wrong. `Unspecified` marks blocks on which LZ4_decompress_safe may answer either way.
   `NoRoom` means that a compressed block begins when all the room for the text has been used, and where.
   */
  datatype Result = Complete(text: seq<byte>, end: nat) | Incomplete | Invalid(flaw: Flaw) | Unspecified | NoRoom(text: seq<byte>, end: nat)
  {
    predicate HasText() { Complete? || NoRoom? }
  }

  /** The room for the text of a frame. */
  datatype Limit = Unlimited | Upto(n: nat) {
    predicate Reached(n: nat) { Upto? && this.n <= n }
  }

  function Le64(s: seq<byte>, i: nat): (v: nat)
    requires i + 8 <= |s|
    ensures v < U64_SIZE
  {
    Le32(s, i) + U32_SIZE * Le32(s, i + 4)
  }

  /** A stored checksum agrees with the bytes it was made from. */
  predicate ChecksumHolds(f: seq<byte>, i: nat, s: seq<byte>)
    requires i + CHECKSUM <= |f|
  {
    IsChecksum(Le32(f, i), s)
  }

  predicate IsChecksum(v: nat, s: seq<byte>)
    requires v < U32_SIZE
  {
    v as bv32 == Hash32(0, s)
  }

  // ----- Blocks -----

  /** The blocks from `i` on, after the text `t`, with the dictionary `d`. */
  function Blocks(f: seq<byte>, i: nat, info: Info, d: seq<byte>, t: seq<byte>, room: Limit): (r: Result)
    decreases |f| - i, 2
  {
    if i + BLOCK_HEADER > |f| then Incomplete
    else
      var w := Le32(f, i);
      if w == 0 then Suffix(f, i + BLOCK_HEADER, info, t)
      else if w % UNCOMPRESSED_FLAG > info.MaxBlockSize() then Invalid(BlockTooLong)
      else if w >= UNCOMPRESSED_FLAG then RawBlock(f, i + BLOCK_HEADER, w % UNCOMPRESSED_FLAG, [], info, d, t, room)
      else PackedBlock(f, i + BLOCK_HEADER, w, info, d, t, room)
  }

  /** The rest of an uncompressed block: `n` bytes at `a`, behind the bytes `fed` of it. */
  function RawBlock(f: seq<byte>, a: nat, n: nat, fed: seq<byte>, info: Info, d: seq<byte>, t: seq<byte>, room: Limit): (r: Result)
    decreases |f| - a, 3
  {
    if a + n + info.ChecksumSize() > |f| then Incomplete
    else if info.blockChecksum && !ChecksumHolds(f, a + n, fed + f[a..a + n]) then Invalid(BlockChecksumFlaw)
    else Blocks(f, a + n + info.ChecksumSize(), info, d, t + f[a..a + n], room)
  }

  /** What a block may refer to: the dictionary, and if blocks are linked the text so far. */
  function HistoryOf(info: Info, d: seq<byte>, t: seq<byte>): seq<byte> {
    if info.linked then d + t else d
  }

  /** A compressed block of `n` bytes at `a`. */
  function PackedBlock(f: seq<byte>, a: nat, n: nat, info: Info, d: seq<byte>, t: seq<byte>, room: Limit): (r: Result)
    decreases |f| - a, 4
  {
    if room.Reached(|t|) then NoRoom(t, a)
    else if a + n + info.ChecksumSize() > |f| then Incomplete
    else if info.blockChecksum && !ChecksumHolds(f, a + n, f[a..a + n]) then Invalid(BlockChecksumFlaw)
    else Unpacked(f, a + n + info.ChecksumSize(), info, d, t, Content(f[a..a + n], HistoryOf(info, d, t), info.MaxBlockSize()), room)
  }

  /** The content of a compressed block: what it adds to its history, if that is no more than `limit`. */
  function Content(block: seq<byte>, h: seq<byte>, limit: nat): (r: Outcome) {
    match Decode(block, 0, h)
    case Output(o) =>
      if |o| - |h| > limit then Malformed
      else if |o| < |h| || !EndConditions(block, 0) then Outcome.Unspecified
      else Output(o[|h|..])
    case Malformed => Malformed
    case Unspecified => Outcome.Unspecified
  }

  /** The blocks after a compressed one. */
  function Unpacked(f: seq<byte>, i: nat, info: Info, d: seq<byte>, t: seq<byte>, content: Outcome, room: Limit): (r: Result)
    decreases |f| - i, 3
  {
    match content
    case Output(o) => Blocks(f, i, info, d, t + o, room)
    case Malformed => Invalid(BlockFlaw)
    case Unspecified => Result.Unspecified
  }

  /** The end of the frame, at `i`. */
  function Suffix(f: seq<byte>, i: nat, info: Info, t: seq<byte>): (r: Result) {
    if info.contentSize != 0 && info.contentSize != |t| % U64_SIZE then Invalid(SizeFlaw)
    else if !info.contentChecksum then Complete(t, i)
    else if i + CHECKSUM > |f| then Incomplete
    else if !ChecksumHolds(f, i, t) then Invalid(ChecksumFlaw)
    else Complete(t, i + CHECKSUM)
  }

  // ----- Headers -----

  datatype Header = Header(info: Info, size: nat) | Skippable | TooShort(size: nat) | BadHeader

  function HeaderSize(flg: byte): (n: nat) {
    MIN_HEADER + (if flg / 8 % 2 == 1 then 8 else 0) + (if flg % 2 == 1 then 4 else 0)
  }

  predicate HeaderChecksumHolds(f: seq<byte>, size: nat)
    requires 5 <= size <= |f|
  {
    f[size - 1] as bv32 == (Hash32(0, f[4..size - 1]) >> 8) & 0xFF
  }

  /** The frame header at the front of `f`. */
  function ReadHeader(f: seq<byte>): (r: Header)
    ensures r.Header? ==> MIN_HEADER <= r.size <= MAX_HEADER && r.size <= |f| && r.info.Valid()
    ensures r.TooShort? ==> |f| < r.size <= MAX_HEADER
  {
    if |f| < MIN_HEADER then TooShort(MIN_HEADER)
    else if Le32(f, 0) / 16 * 16 == MAGIC_SKIPPABLE then Skippable
    else if Le32(f, 0) != MAGIC then BadHeader
    else
      var flg := f[4];
      var size := HeaderSize(flg);
      if flg / 2 % 2 != 0 || flg / 64 != 1 then BadHeader
      else if |f| < size then TooShort(size)
      else if !HeaderChecksumHolds(f, size) then BadHeader
      else ReadDescriptor(flg, f[5], if flg / 8 % 2 == 1 then Le64(f, 6) else 0, if flg % 2 == 1 then Le32(f, size - 5) else 0)
  }

  /** The header says how long the content is. */
  predicate Announces(f: seq<byte>) { 4 < |f| && f[4] / 8 % 2 == 1 }

  lemma SizeAnnounced(f: seq<byte>)
    ensures ReadHeader(f).Header? && ReadHeader(f).info.contentSize != 0 ==> Announces(f)
  {
    hide Le32, Le64, HeaderChecksumHolds;
  }

  /** The fields of a header, from its two descriptor bytes, its content size and its dictionary ID. */
  function ReadDescriptor(flg: byte, bd: byte, contentSize: nat, dictID: nat): (r: Header)
    requires contentSize < U64_SIZE && dictID < U32_SIZE
    ensures r.Header? ==> r.info.Valid() && r.size == HeaderSize(flg)
    ensures r.Header? || r.BadHeader?
  {
    if bd / 128 != 0 || bd / 16 % 8 < 4 || bd % 16 != 0 then BadHeader
    else Header(Info(flg / 32 % 2 == 0, flg / 16 % 2 == 1, flg / 4 % 2 == 1, contentSize, bd / 16 % 8, dictID), HeaderSize(flg))
  }

  /** A whole frame at the front of `f`, decoded with the dictionary `d`. */
  function Frame(f: seq<byte>, d: seq<byte>): (r: Result) { FrameWithin(f, d, Unlimited) }

  /** The same, with room for a part of its text. */
  function FrameWithin(f: seq<byte>, d: seq<byte>, room: Limit): (r: Result) {
    match ReadHeader(f)
    case Header(info, size) => Blocks(f, size, info, d, [], room)
    case Skippable => SkippableFrame(f)
    case TooShort(_) => Incomplete
    case BadHeader => Invalid(HeaderFlaw)
  }

  function SkippableFrame(f: seq<byte>): (r: Result)
    requires |f| >= MIN_HEADER
  {
    if |f| < 8 || |f| < 8 + Le32(f, 4) then Incomplete else Complete([], 8 + Le32(f, 4))
  }

  // ----- The parts of a frame -----

  /** Where the block with its header at `i` ends, with its checksum. */
  function BlockEnd(f: seq<byte>, i: nat, info: Info): (e: nat)
    requires i + BLOCK_HEADER <= |f|
    ensures i + BLOCK_HEADER <= e
  {
    i + BLOCK_HEADER + Le32(f, i) % UNCOMPRESSED_FLAG + info.ChecksumSize()
  }

  /** Going from one block header at `i` to the next leads to the one at `k`. */
  ghost predicate Reaches(f: seq<byte>, i: nat, info: Info, k: nat)
    decreases k - i
  {
    i == k || (i + BLOCK_HEADER <= |f| && Le32(f, i) != 0 && BlockEnd(f, i, info) <= k && Reaches(f, BlockEnd(f, i, info), info, k))
  }

  /** Where the part ends that the byte at `q` belongs to: a block header, a block with its checksum, or the end of the frame. */
  function BlockPartEnd(f: seq<byte>, i: nat, info: Info, q: nat): (e: nat)
    decreases |f| - i
  {
    if q < i + BLOCK_HEADER || |f| < i + BLOCK_HEADER then i + BLOCK_HEADER
    else if Le32(f, i) == 0 then i + BLOCK_HEADER + (if info.contentChecksum then CHECKSUM else 0)
    else
      var e := BlockEnd(f, i, info);
      if q < e || |f| < e then e else BlockPartEnd(f, e, info, q)
  }

  /** The same from the first byte on; of a header, the first seven bytes come first. */
  function PartEnd(f: seq<byte>, q: nat): (e: nat) {
    if q < MIN_HEADER then MIN_HEADER
    else
      match ReadHeader(f)
      case Header(info, size) => if q < size then size else BlockPartEnd(f, size, info, q)
      case Skippable => if q < 8 || |f| < 8 then 8 else 8 + Le32(f, 4)
      case TooShort(size) => size
      case BadHeader => q
  }

  lemma {:induction false} ReachesNext(f: seq<byte>, i: nat, info: Info, k: nat)
    requires Reaches(f, i, info, k) && k + BLOCK_HEADER <= |f| && Le32(f, k) != 0
    ensures Reaches(f, i, info, BlockEnd(f, k, info))
    decreases k - i
  {
    hide Le32, BlockEnd;
    if i != k { ReachesNext(f, BlockEnd(f, i, info), info, k); }
  }

  lemma {:induction false} PartsReached(f: seq<byte>, i: nat, info: Info, k: nat, q: nat)
    requires Reaches(f, i, info, k) && k <= q && k <= |f|
    ensures i <= k && BlockPartEnd(f, i, info, q) == BlockPartEnd(f, k, info, q)
    decreases k - i
  {
    hide Le32;
    if i != k {
      PartsReached(f, BlockEnd(f, i, info), info, k, q);
    }
  }

  /** The block that a place is in is the only one. */
  lemma {:induction false} SameBlock(f: seq<byte>, i: nat, info: Info, a: nat, b: nat, q: nat)
    requires Reaches(f, i, info, a) && Reaches(f, i, info, b) && a <= q && b <= q
    requires a + BLOCK_HEADER <= |f| && b + BLOCK_HEADER <= |f| && Le32(f, a) != 0 && q < BlockEnd(f, a, info) && (Le32(f, b) != 0 ==> q < BlockEnd(f, b, info))
    ensures a == b
    decreases a - i
  {
    hide Le32, BlockEnd;
    if i != a {
      if i != b {
        SameBlock(f, BlockEnd(f, i, info), info, a, b, q);
      }
    }
  }

  /** A header that is not too short is the same in any longer input. */
  lemma ReadHeaderPrefix(f: seq<byte>, n: nat)
    requires n <= |f| && !ReadHeader(f[..n]).TooShort?
    ensures ReadHeader(f) == ReadHeader(f[..n])
  {
    hide Le32, Le64, HeaderChecksumHolds, ReadDescriptor;
    var size := HeaderSize(f[4]);
    Le32Prefix(f, n, 0);
    if size <= n {
      ChecksumPrefix(f, n, size);
      if f[4] / 8 % 2 == 1 { Le64Prefix(f, n, 6); }
      if f[4] % 2 == 1 { Le32Prefix(f, n, size - 5); }
    }
  }

  lemma ChecksumPrefix(f: seq<byte>, n: nat, size: nat)
    requires 5 <= size <= n <= |f|
    ensures HeaderChecksumHolds(f[..n], size) == HeaderChecksumHolds(f, size)
  {
    hide Hash32;
    SliceOfSlice(f, 0, n, 4, size - 1);
    assert f[0..n] == f[..n];
  }

  lemma Le32Prefix(f: seq<byte>, n: nat, i: nat)
    requires i + 4 <= n <= |f|
    ensures Le32(f[..n], i) == Le32(f, i)
  {
  }

  lemma Le64Prefix(f: seq<byte>, n: nat, i: nat)
    requires i + 8 <= n <= |f|
    ensures Le64(f[..n], i) == Le64(f, i)
  {
  }

  /** A frame goes on with the text so far, and its end is behind the end mark. */
  lemma {:induction false} BlocksExtend(f: seq<byte>, i: nat, info: Info, d: seq<byte>, t: seq<byte>, room: Limit)
    requires Blocks(f, i, info, d, t, room).HasText()
    ensures t <= Blocks(f, i, info, d, t, room).text && i + BLOCK_HEADER <= Blocks(f, i, info, d, t, room).end <= |f|
    decreases |f| - i
  {
    hide Le32, ChecksumHolds, Content;
    var w := Le32(f, i);
    var a, n := i + BLOCK_HEADER, w % UNCOMPRESSED_FLAG;
    if w == 0 {
    } else if w >= UNCOMPRESSED_FLAG {
      assert RawBlock(f, a, n, [], info, d, t, room).HasText();
      BlocksExtend(f, a + n + info.ChecksumSize(), info, d, t + f[a..a + n], room);
    } else {
      assert n == w && PackedBlock(f, a, n, info, d, t, room).HasText();
      if !room.Reached(|t|) {
        var content := Content(f[a..a + n], HistoryOf(info, d, t), info.MaxBlockSize());
        assert Unpacked(f, a + n + info.ChecksumSize(), info, d, t, content, room).HasText();
        BlocksExtend(f, a + n + info.ChecksumSize(), info, d, t + content.bytes, room);
      }
    }
  }

  /** Behind the last block there is only the end mark, and behind any other one at least another block. */
  lemma BlocksEnd(f: seq<byte>, i: nat, info: Info, d: seq<byte>, t: seq<byte>, room: Limit)
    requires Blocks(f, i, info, d, t, room).Complete?
    ensures i + BLOCK_HEADER <= |f|
    ensures if Le32(f, i) == 0 then
              Blocks(f, i, info, d, t, room).end == i + BLOCK_HEADER + (if info.contentChecksum then CHECKSUM else 0)
            else
              i + BLOCK_HEADER + info.ChecksumSize() + BLOCK_HEADER <= Blocks(f, i, info, d, t, room).end
  {
    hide Le32, ChecksumHolds, RawBlock, PackedBlock;
    var w := Le32(f, i);
    if w >= UNCOMPRESSED_FLAG {
      RawExtend(f, i + BLOCK_HEADER, w % UNCOMPRESSED_FLAG, [], info, d, t, room);
    } else if w != 0 {
      PackedExtend(f, i + BLOCK_HEADER, w, info, d, t, room);
      PackedRoom(f, i + BLOCK_HEADER, w, info, d, t, room);
    }
  }

  lemma PackedRoom(f: seq<byte>, a: nat, n: nat, info: Info, d: seq<byte>, t: seq<byte>, room: Limit)
    requires PackedBlock(f, a, n, info, d, t, room).Complete?
    ensures !room.Reached(|t|)
  {
  }

  /** The same behind a compressed block. */
  lemma PackedEnd(f: seq<byte>, a: nat, n: nat, info: Info, d: seq<byte>, t: seq<byte>, room: Limit)
    requires PackedBlock(f, a, n, info, d, t, room).Complete?
    ensures var e, end := a + n + info.ChecksumSize(), PackedBlock(f, a, n, info, d, t, room).end;
            && e + BLOCK_HEADER <= |f|
            && if Le32(f, e) == 0 then end == e + BLOCK_HEADER + (if info.contentChecksum then CHECKSUM else 0)
               else e + BLOCK_HEADER + info.ChecksumSize() + BLOCK_HEADER <= end
  {
    hide Blocks, ChecksumHolds, Content, Le32;
    var content := Content(f[a..a + n], HistoryOf(info, d, t), info.MaxBlockSize());
    BlocksEnd(f, a + n + info.ChecksumSize(), info, d, t + content.bytes, room);
  }

  lemma RawExtend(f: seq<byte>, a: nat, n: nat, fed: seq<byte>, info: Info, d: seq<byte>, t: seq<byte>, room: Limit)
    requires RawBlock(f, a, n, fed, info, d, t, room).HasText()
    ensures a + n <= |f| && t + f[a..a + n] <= RawBlock(f, a, n, fed, info, d, t, room).text && t <= RawBlock(f, a, n, fed, info, d, t, room).text
    ensures a + n + info.ChecksumSize() + BLOCK_HEADER <= RawBlock(f, a, n, fed, info, d, t, room).end <= |f|
  {
    BlocksExtend(f, a + n + info.ChecksumSize(), info, d, t + f[a..a + n], room);
    hide Blocks, ChecksumHolds;
  }

  lemma PackedExtend(f: seq<byte>, a: nat, n: nat, info: Info, d: seq<byte>, t: seq<byte>, room: Limit)
    requires PackedBlock(f, a, n, info, d, t, room).HasText()
    ensures t <= PackedBlock(f, a, n, info, d, t, room).text
    ensures if room.Reached(|t|) then
              PackedBlock(f, a, n, info, d, t, room) == NoRoom(t, a)
            else
              a + n + info.ChecksumSize() + BLOCK_HEADER <= PackedBlock(f, a, n, info, d, t, room).end <= |f|
  {
    hide Blocks, ChecksumHolds, Content;
    if room.Reached(|t|) { return; }
    var content := Content(f[a..a + n], HistoryOf(info, d, t), info.MaxBlockSize());
    BlocksExtend(f, a + n + info.ChecksumSize(), info, d, t + content.bytes, room);
  }

  /** The end of a frame is behind its header. */
  lemma FrameEndsBehindHeader(f: seq<byte>, d: seq<byte>)
    requires Frame(f, d).Complete?
    ensures Frame(f, d).end <= |f| && MIN_HEADER < Frame(f, d).end
    ensures ReadHeader(f).Header? ==> ReadHeader(f).size < Frame(f, d).end
  {
    EndsBehindHeader(f, d, Unlimited);
  }

  lemma EndsBehindHeader(f: seq<byte>, d: seq<byte>, room: Limit)
    requires FrameWithin(f, d, room).HasText()
    ensures FrameWithin(f, d, room).end <= |f| && MIN_HEADER < FrameWithin(f, d, room).end
    ensures ReadHeader(f).Header? ==> ReadHeader(f).size < FrameWithin(f, d, room).end
  {
    hide ReadHeader, Blocks;
    if ReadHeader(f).Header? { BlocksExtend(f, ReadHeader(f).size, ReadHeader(f).info, d, [], room); }
  }

  // ----- Room -----

  /** A compressed block begins behind the last byte of the text, so that it stands for nothing. */
  predicate PackedAtEnd(f: seq<byte>, d: seq<byte>) {
    Frame(f, d).Complete? && FrameWithin(f, d, Upto(|Frame(f, d).text|)).NoRoom?
  }

  /** Room matters only in front of such a block. */
  lemma RoomMatters(f: seq<byte>, d: seq<byte>, n: nat)
    requires Frame(f, d).Complete? && |Frame(f, d).text| <= n
    ensures var r := FrameWithin(f, d, Upto(n));
            if n == |Frame(f, d).text| && PackedAtEnd(f, d) then r.NoRoom? && r.text == Frame(f, d).text && r.end < Frame(f, d).end else r == Frame(f, d)
  {
    hide ReadHeader, Blocks;
    if ReadHeader(f).Header? { BlocksRoom(f, ReadHeader(f).size, ReadHeader(f).info, d, [], n); }
  }

  lemma {:induction false} BlocksRoom(f: seq<byte>, i: nat, info: Info, d: seq<byte>, t: seq<byte>, n: nat)
    requires Blocks(f, i, info, d, t, Unlimited).Complete? && |Blocks(f, i, info, d, t, Unlimited).text| <= n
    ensures var r, x := Blocks(f, i, info, d, t, Upto(n)), Blocks(f, i, info, d, t, Unlimited);
            r == x || (r.NoRoom? && r.text == x.text && |x.text| == n && r.end < x.end)
    decreases |f| - i
  {
    hide Le32, ChecksumHolds, Content;
    var w := Le32(f, i);
    var a, k := i + BLOCK_HEADER, w % UNCOMPRESSED_FLAG;
    BlocksExtend(f, i, info, d, t, Unlimited);
    if w == 0 {
    } else if w >= UNCOMPRESSED_FLAG {
      assert RawBlock(f, a, k, [], info, d, t, Unlimited).Complete?;
      BlocksRoom(f, a + k + info.ChecksumSize(), info, d, t + f[a..a + k], n);
    } else {
      assert k == w && PackedBlock(f, a, k, info, d, t, Unlimited).Complete?;
      var content := Content(f[a..a + k], HistoryOf(info, d, t), info.MaxBlockSize());
      assert Unpacked(f, a + k + info.ChecksumSize(), info, d, t, content, Unlimited).Complete?;
      PackedExtend(f, a, k, info, d, t, Unlimited);
      assert Blocks(f, i, info, d, t, Upto(n)) == PackedBlock(f, a, k, info, d, t, Upto(n));
      BlocksRoom(f, a + k + info.ChecksumSize(), info, d, t + content.bytes, n);
      assert !Upto(n).Reached(|t|) ==> PackedBlock(f, a, k, info, d, t, Upto(n)) == Blocks(f, a + k + info.ChecksumSize(), info, d, t + content.bytes, Upto(n));
    }
  }

  /** Some bytes of an uncompressed block can be taken before the others. */
  lemma RawBlockStep(f: seq<byte>, a: nat, n: nat, fed: seq<byte>, info: Info, d: seq<byte>, t: seq<byte>, k: nat, room: Limit)
    requires k <= n && a + k <= |f|
    ensures RawBlock(f, a, n, fed, info, d, t, room) ==
            RawBlock(f, a + k, n - k, fed + f[a..a + k], info, d, t + f[a..a + k], room)
  {
    hide ChecksumHolds;
    if a + n <= |f| {
      SplitSlice(f, a, a + k, a + n);
      assert fed + f[a..a + n] == fed + f[a..a + k] + f[a + k..a + n];
      assert t + f[a..a + n] == t + f[a..a + k] + f[a + k..a + n];
    }
  }

  /** What a block header leads to. */
  lemma BlocksStep(f: seq<byte>, i: nat, info: Info, d: seq<byte>, t: seq<byte>, room: Limit)
    requires i + BLOCK_HEADER <= |f|
    ensures var w := Le32(f, i);
            Blocks(f, i, info, d, t, room) ==
            if w == 0 then Suffix(f, i + BLOCK_HEADER, info, t)
            else if w % UNCOMPRESSED_FLAG > info.MaxBlockSize() then Invalid(BlockTooLong)
            else if w >= UNCOMPRESSED_FLAG then RawBlock(f, i + BLOCK_HEADER, w % UNCOMPRESSED_FLAG, [], info, d, t, room)
            else PackedBlock(f, i + BLOCK_HEADER, w % UNCOMPRESSED_FLAG, info, d, t, room)
  {
    hide Suffix, RawBlock, PackedBlock, Le32;
  }

  /** Without block checksums, it does not matter what they would have been made from. */
  lemma FedDoesNotMatter(f: seq<byte>, a: nat, n: nat, fed: seq<byte>, info: Info, d: seq<byte>, t: seq<byte>, room: Limit)
    requires !info.blockChecksum
    ensures RawBlock(f, a, n, fed, info, d, t, room) == RawBlock(f, a, n, [], info, d, t, room)
  {
  }

  lemma RawDone(f: seq<byte>, a: nat, fed: seq<byte>, info: Info, d: seq<byte>, t: seq<byte>, room: Limit)
    requires a <= |f|
    ensures !info.blockChecksum ==> RawBlock(f, a, 0, fed, info, d, t, room) == Blocks(f, a, info, d, t, room)
    ensures info.blockChecksum && a + CHECKSUM <= |f| ==>
              RawBlock(f, a, 0, fed, info, d, t, room) ==
              if IsChecksum(Le32(f, a), fed) then Blocks(f, a + CHECKSUM, info, d, t, room) else Invalid(BlockChecksumFlaw)
  {
    assert fed + f[a..a] == fed && t + f[a..a] == t;
    hide Blocks, IsChecksum, Le32;
  }

  lemma NotTooShort(f: seq<byte>)
    requires MAX_HEADER <= |f|
    ensures !ReadHeader(f).TooShort?
  {
    hide Le32, Le64, HeaderChecksumHolds;
  }

  lemma TooShortStays(f: seq<byte>, p: nat, q: nat)
    requires MIN_HEADER <= p <= q <= |f| && ReadHeader(f[..p]).TooShort? && q < ReadHeader(f[..p]).size
    ensures ReadHeader(f[..q]) == ReadHeader(f[..p])
  {
    Le32Prefix(f, p, 0);
    Le32Prefix(f, q, 0);
    hide Le32;
  }

  /** With as many bytes as were asked for, the header is neither too short nor skippable. */
  lemma TooShortEnds(f: seq<byte>, p: nat, q: nat)
    requires MIN_HEADER <= p <= q <= |f| && ReadHeader(f[..p]) == TooShort(q)
    ensures ReadHeader(f[..q]).Header? || ReadHeader(f[..q]).BadHeader?
    ensures ReadHeader(f[..q]).Header? ==> ReadHeader(f[..q]).size == q
  {
    Le32Prefix(f, p, 0);
    Le32Prefix(f, q, 0);
    hide Le32, Le64, HeaderChecksumHolds;
  }

  lemma SameLe32(a: seq<byte>, i: nat, b: seq<byte>, j: nat)
    requires i + 4 <= |a| && j + 4 <= |b| && a[i..i + 4] == b[j..j + 4]
    ensures Le32(a, i) == Le32(b, j)
  {
    assert a[i] == a[i..i + 4][0] && a[i + 1] == a[i..i + 4][1] && a[i + 2] == a[i..i + 4][2] && a[i + 3] == a[i..i + 4][3];
    assert b[j] == b[j..j + 4][0] && b[j + 1] == b[j..j + 4][1] && b[j + 2] == b[j..j + 4][2] && b[j + 3] == b[j..j + 4][3];
  }
}
