/**
 What a caller of the frame decoder has to know: the counter that a reset does not clear, the byte
 of room that a compressed block at the end needs although it stands for nothing, and the hint that
 leads behind the end of the frame.
 */
module FrameLimits {
  import opened Bytes
  import opened XxHash
  import opened FrameFormat
  import opened FrameEncoding
  import opened FrameDecoder
  import opened FrameRun
  import BlockStream

  // ----- After a reset -----

  /**
   A frame is begun, and the context reset behind its header. Then the next frame is decoded as by a
   new context if and only if the first one was of unknown or no size, or the next one says its size.
   */
  method AfterReset(c: Dctx, first: seq<byte>, mem: array<byte>, frame: seq<byte>, dictAt: int, dictSize: nat, at: int, capacity: nat)
    returns (status: Status, size: nat)
    requires c.Fresh() == true && ReadHeader(first).Header?
    requires c.Apart(mem) == true && 0 <= dictAt && dictAt + dictSize <= mem.Length
    requires 0 <= at && at + capacity <= mem.Length && (at + capacity <= dictAt || dictAt + dictSize <= at)
    requires var meaning := Frame(frame, mem[dictAt..dictAt + dictSize]); meaning.Complete? && |meaning.text| < capacity
    modifies c, c.tmpIn, c.tmpOutBuffer, c.header, mem
    ensures if Accepts(ReadHeader(first).info.contentSize, frame) then
              status == Stop(0) && size <= capacity && mem[at..at + size] == Frame(frame, old(mem[dictAt..dictAt + dictSize])).text
            else
              status == Fail(FrameSizeWrong)
  {
    SizeAnnounced(first);
    hide ReadHeader, FrameWithin, Announces;
    var read;
    status, read := c.GetFrameInfo(first);
    c.ResetContext();
    status, read, size := DecodeAtOnce(c, mem, frame, dictAt, dictSize, at, capacity);
  }

  /** A header with the fields `info`, and nothing else. */
  function EmptyFrame(info: Info): seq<byte>
    requires info.Valid()
  {
    HeaderBytes(info) + Flatten([]) + SuffixBytes(info, [])
  }

  const SIZED := Info(true, false, false, 1, 4, 0)
  const UNSIZED := Info(true, false, false, 0, 4, 0)

  lemma Fields()
    ensures SIZED.Valid() && UNSIZED.Valid()
  {
  }

  lemma NotAnnounced()
    ensures var f := EmptyFrame(UNSIZED); Frame(f, []) == Complete([], |f|) && ReadHeader(f).Header? && !Announces(f)
    ensures ReadHeader(HeaderBytes(SIZED)) == Header(SIZED, |HeaderBytes(SIZED)|)
  {
    FrameReadBack(UNSIZED, [], [], [], EmptyFrame(UNSIZED));
    HeaderReadBack(UNSIZED);
    HeaderReadBack(SIZED);
    FlagsReadBack(UNSIZED);
    var f, head := EmptyFrame(UNSIZED), HeaderBytes(UNSIZED);
    assert f[..|head|] == head;
    ReadHeaderPrefix(f, |head|);
    assert f[4] == head[4] == Flags(UNSIZED);
  }

  lemma NewMemory(c: Dctx, mem: array<byte>)
    requires mem != c.header && mem != c.tmpIn && mem != c.tmpOutBuffer && c.Fresh() == true
    ensures c.Apart(mem) == true
  {
  }

  lemma IsAccepted(c: Dctx, frame: seq<byte>)
    requires c.Fresh() == true
    ensures c.Idle() == true && Accepts(c.frameRemainingSize, frame)
  {
  }

  lemma IsRejected(frame: seq<byte>)
    requires ReadHeader(frame).Header? && !Announces(frame)
    ensures !Accepts(SIZED.contentSize, frame)
  {
    hide ReadHeader, Announces;
  }

  /** A frame of one byte is begun, the context reset, and a frame without content is rejected. */
  method LostFrame() returns (frame: seq<byte>, status: Status)
    ensures Frame(frame, []) == Complete([], |frame|) && status == Fail(FrameSizeWrong)
  {
    hide *;
    var c := new Dctx();
    var mem := new byte[1];
    Fields();
    frame := EmptyFrame(UNSIZED);
    NotAnnounced();
    IsRejected(frame);
    NewMemory(c, mem);
    assert mem[0..0] == [];
    var size;
    status, size := AfterReset(c, HeaderBytes(SIZED), mem, frame, 0, 0, 0, 1);
  }

  // ----- Without a byte to spare -----

  /** A compressed block that stands for nothing. */
  const NOTHING: seq<byte> := [1, 0, 0, 0, 0]

  function TightFrame(): seq<byte> { HeaderBytes(UNSIZED) + Flatten([NOTHING]) + SuffixBytes(UNSIZED, []) }

  /** A frame of one block that stands for nothing. */
  lemma OneBlockFrame(info: Info, b: seq<byte>, f: seq<byte>)
    requires info.Valid() && info.contentSize == 0 && TextOf([b], info, []) == Part([])
    requires f == HeaderBytes(info) + Flatten([b]) + SuffixBytes(info, [])
    ensures var h := |HeaderBytes(info)|;
            && f[..h] == HeaderBytes(info) && h + |b| <= |f| && f[h..h + |b|] == b && f[h + |b|..] == SuffixBytes(info, [])
            && Frame(f, []) == Complete([], |f|) && ReadHeader(f) == Header(info, h)
  {
    hide *;
    FrameReadBack(info, [b], [], [], f);
    OneBlock(b);
  }

  lemma OneBlock(b: seq<byte>)
    ensures Flatten([b]) == b
  {
  }

  lemma TightFrameIs()
    ensures Frame(TightFrame(), []) == Complete([], |TightFrame()|) && PackedAtEnd(TightFrame(), [])
  {
    NothingText();
    Fields();
    var f, head := TightFrame(), HeaderBytes(UNSIZED);
    hide ReadHeader, Blocks, HeaderBytes, Frame, TextOf, Flatten, SuffixBytes;
    OneBlockFrame(UNSIZED, NOTHING, f);
    hide TightFrame;
    NothingAhead(f, |head|);
  }

  lemma NothingText()
    ensures TextOf([NOTHING], UNSIZED, []) == Part([])
  {
  }

  lemma NothingAhead(f: seq<byte>, p: nat)
    requires p + 5 <= |f| && f[p..p + 5] == NOTHING
    ensures Blocks(f, p, UNSIZED, [], [], Upto(0)) == NoRoom([], p + 4)
  {
    assert f[p] == 1 && f[p + 1] == 0 && f[p + 2] == 0 && f[p + 3] == 0;
    BlocksStep(f, p, UNSIZED, [], [], Upto(0));
  }

  /** Without any room, which its text does not need, that frame is not finished. */
  method TightCall() returns (frame: seq<byte>, status: Status)
    ensures Frame(frame, []) == Complete([], |frame|) && status.Stop? && status.hint != 0
  {
    hide *;
    var c := new Dctx();
    var mem := new byte[0];
    frame := TightFrame();
    TightFrameIs();
    NewMemory(c, mem);
    IsAccepted(c, frame);
    assert mem[0..0] == [];
    var read, size;
    status, read, size := DecodeAtOnce(c, mem, frame, 0, 0, 0, 0);
  }

  // ----- Asking for too much -----

  const CHECKED := Info(true, true, false, 0, 4, 0)

  /** A frame whose only block is compressed, stands for nothing and has a checksum. */
  function CheckedFrame(): seq<byte>
  {
    HeaderBytes(CHECKED) + Flatten([BlockBytes(1, [0], true)]) + SuffixBytes(CHECKED, [])
  }

  lemma CheckedBlock()
    ensures TextOf([BlockBytes(1, [0], true)], CHECKED, []) == Part([])
    ensures |BlockBytes(1, [0], true)| == 9 && BlockBytes(1, [0], true)[..4] == Bytes32(1)
  {
    hide Bytes32, Le32, Checksum, IsChecksum;
    BlockStream.RepresentsNothing([]);
    PackedText(BlockBytes(1, [0], true), [0], CHECKED, [], []);
    assert HistoryOf(CHECKED, [], []) == [];
  }

  lemma CheckedHeader()
    ensures CHECKED.Valid() && |HeaderBytes(CHECKED)| == 7 && HeaderBytes(CHECKED)[4] == Flags(CHECKED)
  {
    hide Bytes32, HeaderChecksum;
    FlagsReadBack(CHECKED);
  }

  lemma CheckedFrameIs()
    ensures var f := CheckedFrame();
            && Frame(f, []) == Complete([], 20) && |f| == 20 && ReadHeader(f) == Header(CHECKED, 7) && ReadHeader(f[..12]) == Header(CHECKED, 7)
            && Le32(f, 7) == 1 && Le32(f, 16) == 0 && f[4] == Flags(CHECKED)
  {
    CheckedBlock();
    CheckedHeader();
    ShortSuffix();
    var f, b := CheckedFrame(), BlockBytes(1, [0], true);
    hide *;
    OneBlockFrame(CHECKED, b, f);
    CheckedFields(f);
  }

  lemma ShortSuffix()
    ensures SuffixBytes(CHECKED, []) == Bytes32(0) && |Bytes32(0)| == 4 && 1 < U32_SIZE
  {
    hide Checksum;
  }

  lemma CheckedFields(f: seq<byte>)
    requires CHECKED.Valid() && |HeaderBytes(CHECKED)| == 7 && 16 <= |f| && f[..7] == HeaderBytes(CHECKED)
    requires f[7..16][..4] == Bytes32(1) && f[16..] == Bytes32(0) && |Bytes32(0)| == 4 && 1 < U32_SIZE
    ensures |f| == 20 && ReadHeader(f[..12]) == Header(CHECKED, 7) && Le32(f, 7) == 1 && Le32(f, 16) == 0
  {
    hide *;
    HeaderReadBack(CHECKED);
    SliceOfSlice(f, 0, 12, 0, 7);
    assert f[0..12] == f[..12] && f[..12][0..7] == f[..12][..7] && f[0..7] == f[..7];
    ReadHeaderPrefix(f[..12], 7);
    SliceOfSlice(f, 7, 16, 0, 4);
    assert f[7..16][0..4] == f[7..16][..4] && f[16..20] == f[16..];
    ReadBack32(f, 7, 1);
    ReadBack32(f, 16, 0);
  }

  lemma NotSaid(f: seq<byte>)
    requires |f| >= 5 && f[4] == Flags(CHECKED)
    ensures !Announces(f)
  {
    FlagsReadBack(CHECKED);
  }

  /** A context that waits inside a compressed block stores it. */
  lemma StoresBlock(c: Dctx, r: Run, mem: seq<byte>)
    requires c.Waits(r, mem) == true && r.frame == CheckedFrame() && r.pos == 12 && |r.frame| == 20
    requires ReadHeader(r.frame) == Header(CHECKED, 7) && ReadHeader(r.frame[..12]) == Header(CHECKED, 7) && Le32(r.frame, 7) == 1
    ensures c.dStage == StoreCBlock && c.info == CHECKED
  {
    hide c.Between, c.Starting, c.Known, c.Tallied, c.Ready, c.Buffers, c.Flushing, c.OnBlocks, c.OnRaw, c.OnPacked, c.OnSuffix;
    hide Blocks, RawBlock, PackedBlock, Suffix, SkippableFrame, Frame, ReadHeader, Le32;
  }

  /** How a decoder meets that frame. */
  lemma CheckedRun(c: Dctx, r: Run)
    requires c.Fresh() == true && r == Run(CheckedFrame(), [], Frame(CheckedFrame(), []), 0, [], 0, Unlimited)
    requires Frame(r.frame, []).Complete? && |r.frame| == 20 && r.frame[4] == Flags(CHECKED)
    ensures c.InFront(r) == true && c.FirstCall(r, true, 1) == true && r.Proper() == true && r.Owed() == 0 && c.dStage == GetFrameHeader
  {
    NotSaid(r.frame);
    hide Frame, CheckedFrame, Flags;
  }

  lemma AfterTwelve(c: Dctx, r: Run, r': Run, mem: seq<byte>, read: nat, size: nat, status: Status)
    requires r.Proper() == true && r.Owed() == 0 && r.room == Unlimited && r.pos == 0 && r.before == [] && r.meaning == Complete([], 20)
    requires size <= 1 == |mem| && read <= 12 && c.Returned(r, r', mem, 0, read, size, status) == true
    requires status.Stop? && status.hint != 0 ==> read == 12 || (size == 1 && c.Holding())
    requires status.Stop? && status.hint != 0 && c.dStage == StoreCBlock ==> !r.room.Reached(|r'.before|)
    ensures status.Stop? && status.hint != 0 && read == 12 && r' == r.(pos := 12) && c.Waits(r', mem) == true
  {
    hide Dctx.Waits, FrameWithin, Run.Owed, Dctx.Idle, Run.Proper;
    if status.Stop? && status.hint != 0 {
      StillProper(r, r');
      Underway(c, r', mem);
    }
  }

  lemma TooMuch(c: Dctx, r: Run, hint: nat)
    requires c.Hinted(r, hint) == true && c.dStage == StoreCBlock && c.info == CHECKED && r.meaning == Complete([], 20) && r.pos == 12
    requires |r.frame| == 20 && ReadHeader(r.frame) == Header(CHECKED, 7) && Le32(r.frame, 7) == 1 && Le32(r.frame, 16) == 0
    ensures 20 < 12 + hint
  {
    hide ReadHeader, Le32;
  }

  /**
   Within the only block of that frame, with the next four bytes, the checksum and the end mark in front of it, the decoder asks
   for twelve bytes: there are eight.
   */
  method HintBehindEnd() returns (frame: seq<byte>, read: nat, hint: nat)
    ensures Frame(frame, []) == Complete([], |frame|) && read < |frame| < read + hint
  {
    hide *;
    var c := new Dctx();
    var mem := new byte[1];
    frame := CheckedFrame();
    CheckedFrameIs();
    NewMemory(c, mem);
    ghost var r := Run(frame, [], Frame(frame, []), 0, [], 0, Unlimited);
    CheckedRun(c, r);
    var status, size;
    ghost var r';
    status, read, size, r' := c.DecompressUsingDict(r, mem, frame[..12], true, 0, 1, Null, 0, false);
    AfterTwelve(c, r, r', mem[..], read, size, status);
    StoresBlock(c, r', mem[..]);
    TooMuch(c, r', status.hint);
    hint := status.hint;
  }
}
