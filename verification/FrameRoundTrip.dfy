/**
 Frames from end to end: input that arrives in pieces, in a buffer that its owner uses again for every
 piece, is encoded to a frame, and any way of decoding that frame gives the input back.
 */
module FrameRoundTrip {
  import opened Bytes
  import opened BlockStream
  import opened XxHash
  import opened FrameFormat
  import opened FrameEncoding
  import opened FrameEncoder
  import FrameDecoder
  import FrameRun

  const LARGEST := 4 * MB

  /** Every piece fits into the input buffer. */
  predicate Fitting(pieces: seq<seq<byte>>, room: nat) {
    forall i :: 0 <= i < |pieces| ==> |pieces[i]| <= room
  }

  /** The owner of the input puts a piece into its buffer. */
  method Fill(mem: array<byte>, at: int, piece: seq<byte>, room: nat)
    requires 0 <= at && at + room <= mem.Length && |piece| <= room
    modifies mem
    ensures mem[at..at + |piece|] == piece
    ensures forall i :: 0 <= i < mem.Length && !(at <= i < at + room) ==> mem[i] == old(mem[i])
  {
    forall i | 0 <= i < |piece| { mem[at + i] := piece[i]; }
    assert forall i :: at <= i < at + |piece| ==> mem[i] == piece[i - at];
  }

  /** The encoder is in the middle of a frame, of which `out` is what there is so far. */
  ghost predicate Encoding(c: Cctx, mem: seq<byte>, input: seq<byte>, out: seq<byte>, head: seq<byte>, at: int, room: nat)
    reads c, c.cdict, if c.cdict != null then {c.cdict.hashTable} else {},
          c.stream, c.stream.hashTable, c.stream.dictCtx, if c.stream.dictCtx != null then {c.stream.dictCtx.hashTable} else {}
  {
    && c.Holds(mem, input) && c.Kept() && c.BufferAt(|mem|, false) && c.Apart(|mem|, at, room)
    && (c.cdict != null ==> Separate(c.cdict.dictionary, c.cdict.dictSize, at, room))
    && out == head + Flatten(c.blocks)
  }

  /** One piece of input, with all the room that LZ4F_compressBound asks for. */
  method EncodePiece(c: Cctx, mem: array<byte>, piece: seq<byte>, at: int, room: nat, ghost input: seq<byte>, out: seq<byte>, ghost head: seq<byte>)
    returns (out': seq<byte>)
    requires Encoding(c, mem[..], input, out, head, at, room) == true && |piece| <= room && Countable(room + LARGEST)
    modifies c`tmpIn, c`tmpInSize, c`blocks, c`text, c`xxh, c`totalInSize, c.stream, c.stream.hashTable, mem
    ensures Encoding(c, mem[..], input + piece, out', head, at, room) == true && c.Dictionary() == old(c.Dictionary())
  {
    hide *;
    EncodingParts(c, mem[..], input, out, head, at, room);
    ghost var was := mem[..];
    Fill(mem, at, piece, room);
    c.HoldsElsewhere(was, mem[..], input, at, room);
    Ready(c, mem[..], input, at, room, |piece|);
    var capacity := UpdateBound(|piece|, c.prefs);
    EnoughForUpdate(c, mem[..], input, |piece|, room);
    var dst := new byte[capacity];
    var reply := c.CompressUpdate(mem, dst, 0, capacity, at, |piece|, false, input);
    out' := out + dst[0..reply.n];
    EncodingOn(c, mem[..], input + piece, out, out', head, at, room, old(Flatten(c.blocks)), dst[..], reply.n);
  }

  lemma EncodingParts(c: Cctx, mem: seq<byte>, input: seq<byte>, out: seq<byte>, head: seq<byte>, at: int, room: nat)
    requires Encoding(c, mem, input, out, head, at, room) == true
    ensures c.Holds(mem, input) == true && c.Kept() == true && c.BufferAt(|mem|, false) == true && c.Apart(|mem|, at, room) == true
    ensures 0 <= at && at + room <= |mem| && out == head + Flatten(c.blocks) && c.prefs.Valid() && c.begun
    ensures c.cdict != null ==> c.cdict != c.stream && Separate(c.cdict.dictionary, c.cdict.dictSize, at, room) == true
  {
    hide Flatten, Cctx.Kept;
    c.HoldsParts(mem, input);
    c.WrittenBounds(mem);
  }

  lemma EncodingOn(c: Cctx, mem: seq<byte>, input: seq<byte>, out: seq<byte>, out': seq<byte>, head: seq<byte>, at: int, room: nat, f: seq<byte>, dst: seq<byte>, n: nat)
    requires c.Holds(mem, input) == true && c.Kept() == true && c.BufferAt(|mem|, false) == true && c.Apart(|mem|, at, room) == true
    requires c.cdict != null ==> Separate(c.cdict.dictionary, c.cdict.dictSize, at, room) == true
    requires out == head + f && n <= |dst| && Added(Flatten(c.blocks), f, dst, 0, 0 + n) == true && out' == out + dst[0..n]
    ensures Encoding(c, mem, input, out', head, at, room) == true
  {
    hide Flatten, Cctx.Kept, Cctx.Holds, Cctx.BufferAt, Cctx.Apart;
    assert head + f + dst[0..n] == head + (f + dst[0..n]);
  }

  /** A call may take its input from the buffer. */
  lemma Ready(c: Cctx, mem: seq<byte>, input: seq<byte>, at: int, room: nat, n: nat)
    requires c.Holds(mem, input) == true && c.Kept() == true && c.Apart(|mem|, at, room) == true && n <= room
    requires c.cdict != null ==> Separate(c.cdict.dictionary, c.cdict.dictSize, at, room) == true
    ensures c.Apart(|mem|, at, n) == true && c.Clear(at, n) == true
  {
    hide Cctx.Holds, Cctx.Kept;
    c.KeptIsClear(mem, input, at, n);
  }

  lemma EnoughForUpdate(c: Cctx, mem: seq<byte>, input: seq<byte>, n: nat, room: nat)
    requires c.Holds(mem, input) == true && n <= room && Countable(room + LARGEST)
    ensures c.prefs.Valid() && Countable(n + 4 * MB) && BoundInternal(n, c.prefs, c.tmpInSize) <= UpdateBound(n, c.prefs)
  {
    hide Cctx.Written, Cctx.Placed, BoundInternal, UpdateBound;
    UpdateBoundCovers(n, c.prefs, c.tmpInSize);
  }

  /** LZ4F_flush between two pieces, with the room that LZ4F_compressBound asks for. */
  method FlushPiece(c: Cctx, mem: array<byte>, ghost input: seq<byte>, out: seq<byte>, ghost head: seq<byte>, ghost at: int, ghost room: nat)
    returns (out': seq<byte>)
    requires Encoding(c, mem[..], input, out, head, at, room) == true
    modifies c`tmpIn, c`tmpInSize, c`blocks, c`text, c.stream, c.stream.hashTable, mem
    ensures Encoding(c, mem[..], input, out', head, at, room) == true && c.Dictionary() == old(c.Dictionary())
  {
    hide *;
    EncodingParts(c, mem[..], input, out, head, at, room);
    var capacity := BoundInternal(0, c.prefs, c.tmpInSize);
    EnoughForFlush(c, mem[..], input);
    var dst := new byte[capacity];
    var reply := c.Flush(mem, dst, 0, capacity, input);
    out' := out + dst[0..reply.n];
    EncodingOn(c, mem[..], input, out, out', head, at, room, old(Flatten(c.blocks)), dst[..], reply.n);
  }

  lemma EnoughForFlush(c: Cctx, mem: seq<byte>, input: seq<byte>)
    requires c.Holds(mem, input) == true
    ensures c.prefs.Valid() && (c.tmpInSize > 0 ==> c.tmpInSize + BLOCK_HEADER + CHECKSUM <= BoundInternal(0, c.prefs, c.tmpInSize))
  {
    c.HoldsParts(mem, input);
    hide Cctx.Holds, BoundInternal, Cctx.Written, Cctx.Placed;
    c.EndBound(c.tmpInSize);
  }

  /** The end of the frame. */
  method Finish(c: Cctx, mem: array<byte>, ghost input: seq<byte>, out: seq<byte>, ghost head: seq<byte>, ghost at: int, ghost room: nat)
    returns (frame: seq<byte>)
    requires Encoding(c, mem[..], input, out, head, at, room) == true && c.prefs.Valid() && head == HeaderBytes(c.prefs.FrameInfo())
    requires c.prefs.contentSize == 0 || c.prefs.contentSize == |input| % U64_SIZE
    modifies c`begun, c`maxBufferSize, c`tmpIn, c`tmpInSize, c`blocks, c`text, c.stream, c.stream.hashTable, mem
    ensures Frame(frame, c.Dictionary()) == Complete(input, |frame|) && c.Dictionary() == old(c.Dictionary())
  {
    hide *;
    EncodingParts(c, mem[..], input, out, head, at, room);
    var capacity := BoundInternal(0, c.prefs, c.tmpInSize);
    var dst := new byte[capacity];
    ghost var f := Flatten(c.blocks);
    var reply := c.CompressEnd(mem, dst, 0, capacity, input);
    frame := out + dst[0..reply.n];
    Finished(c, input, out, head, f, dst[..], reply.n, frame);
  }

  lemma Finished(c: Cctx, input: seq<byte>, out: seq<byte>, head: seq<byte>, f: seq<byte>, dst: seq<byte>, n: nat, frame: seq<byte>)
    requires c.Ended(input) == true && c.prefs.Valid() && out == head + f && head == HeaderBytes(c.prefs.FrameInfo())
    requires n <= |dst| && Added(Flatten(c.blocks) + SuffixBytes(c.prefs.FrameInfo(), input), f, dst, 0, 0 + n) == true && frame == out + dst[0..n]
    ensures Frame(frame, c.Dictionary()) == Complete(input, |frame|)
  {
    hide Flatten, HeaderBytes, SuffixBytes, Frame, TextOf;
    assert frame == head + (f + dst[0..n]) == head + Flatten(c.blocks) + SuffixBytes(c.prefs.FrameInfo(), input);
    FrameReadBack(c.prefs.FrameInfo(), c.blocks, c.Dictionary(), input, frame);
  }

  /** What has to be apart at the start: the input buffer, the old and the new buffer of the encoder, the dictionary. */
  ghost predicate Fits(c: Cctx, mem: seq<byte>, cdict: Stream?, preferences: Preferences, place: int, at: int, room: nat)
    requires preferences.Valid()
    reads c, cdict, if cdict != null then {cdict.hashTable} else {}
  {
    && c.DictFits(mem, cdict, place, c.NewSize(preferences)) && (cdict != null ==> Separate(cdict.dictionary, cdict.dictSize, at, room))
    && 0 <= place && place + c.NewSize(preferences) <= |mem| && 0 <= c.tmpBuff && c.tmpBuff + c.maxBufferSize <= |mem|
    && 0 <= at && at + room <= |mem|
    && (at + room <= c.tmpBuff || c.tmpBuff + c.maxBufferSize < at) && (at + room <= place || place + c.NewSize(preferences) < at)
  }

  /** LZ4F_compressBegin_usingCDict. */
  method Begin(c: Cctx, mem: array<byte>, cdict: Stream?, preferences: Preferences, place: int, ghost at: int, ghost room: nat)
    returns (out: seq<byte>)
    requires preferences.Valid() && preferences.compressionLevel < LZ4HC_CLEVEL_MIN && c.stream.Initialised() == true
    requires Fits(c, mem[..], cdict, preferences, place, at, room) == true
    modifies c, c.stream, c.stream.hashTable, mem
    ensures Encoding(c, mem[..], [], out, out, at, room) == true
    ensures c.prefs == preferences && c.cdict == cdict && out == HeaderBytes(c.prefs.FrameInfo())
  {
    hide HeaderBytes, Stream.Initialised, Cctx.Holds, Cctx.Kept, Cctx.DictFits, Flatten;
    var dst := new byte[MAX_HEADER];
    FitsParts(c, mem[..], cdict, place, c.NewSize(preferences));
    var reply := c.CompressBegin(mem, dst, 0, MAX_HEADER, cdict, preferences, place);
    out := dst[0..0 + reply.n];
    Cctx.NoBlocks();
    assert out + [] == out;
  }

  lemma FitsParts(c: Cctx, mem: seq<byte>, cdict: Stream?, place: int, newSize: nat)
    requires c.DictFits(mem, cdict, place, newSize) == true
    ensures cdict != null ==> cdict != c.stream
  {
  }

  /**
   A whole frame. The pieces of the input come one after the other into the same stretch of memory; after
   those that `flushes` says, the encoder is flushed. What comes out is a frame of the input.
   */
  method EncodePieces(c: Cctx, mem: array<byte>, pieces: seq<seq<byte>>, flushes: nat -> bool, cdict: Stream?, preferences: Preferences,
                      place: int, at: int, room: nat)
    returns (frame: seq<byte>)
    requires preferences.Valid() && preferences.compressionLevel < LZ4HC_CLEVEL_MIN && c.stream.Initialised() == true
    requires Fits(c, mem[..], cdict, preferences, place, at, room) == true && Fitting(pieces, room) && Countable(room + LARGEST)
    requires preferences.contentSize == 0 || preferences.contentSize == |Flatten(pieces)| % U64_SIZE
    modifies c, c.stream, c.stream.hashTable, mem
    ensures Frame(frame, c.Dictionary()) == Complete(Flatten(pieces), |frame|) && c.cdict == cdict
  {
    hide *;
    var out := Begin(c, mem, cdict, preferences, place, at, room);
    ghost var head, d := out, c.Dictionary();
    EncodingParts(c, mem[..], [], out, head, at, room);
    PiecesStart(pieces);
    for k := 0 to |pieces|
      invariant Encoding(c, mem[..], Flatten(pieces[..k]), out, head, at, room) == true
      invariant c.prefs == preferences && c.cdict == cdict && c.Dictionary() == d
    {
      PiecesStep(pieces, k, room);
      out := EncodePiece(c, mem, pieces[k], at, room, Flatten(pieces[..k]), out, head);
      if flushes(k) { out := FlushPiece(c, mem, Flatten(pieces[..k + 1]), out, head, at, room); }
    }
    assert pieces[..|pieces|] == pieces;
    frame := Finish(c, mem, Flatten(pieces), out, head, at, room);
  }

  lemma PiecesStart(pieces: seq<seq<byte>>)
    ensures Flatten(pieces[..0]) == []
  {
  }

  lemma PiecesStep(pieces: seq<seq<byte>>, k: nat, room: nat)
    requires Fitting(pieces, room) == true && k < |pieces|
    ensures |pieces[k]| <= room && Flatten(pieces[..k + 1]) == Flatten(pieces[..k]) + pieces[k]
  {
    var parts := pieces[..k + 1];
    assert parts[..|parts| - 1] == pieces[..k] && parts[|parts| - 1] == pieces[k];
  }

  /** What a decoder of a frame with this dictionary has to be given. */
  ghost function DictionaryOf(cdict: Stream?): seq<byte>
    reads cdict
  {
    if cdict == null || cdict.dictSize == 0 then [] else cdict.history
  }

  /**
   From end to end: however the input comes in pieces and the encoder is flushed, and however the frame
   is cut for the decoder and its output is put, what comes out is what went in.
   */
  method SendFrame(c: Cctx, mem: array<byte>, pieces: seq<seq<byte>>, flushes: nat -> bool, cdict: Stream?, preferences: Preferences,
                   place: int, at: int, room: nat, decoder: FrameDecoder.Dctx, out: array<byte>, dictAt: int, dictSize: nat,
                   cut: nat -> nat, dst: nat -> int, capacity: nat -> nat, scribble: nat -> (int -> byte), idle: nat)
    returns (text: seq<byte>)
    requires preferences.Valid() && preferences.compressionLevel < LZ4HC_CLEVEL_MIN && c.stream.Initialised() == true
    requires Fits(c, mem[..], cdict, preferences, place, at, room) == true && Fitting(pieces, room) && Countable(room + LARGEST)
    requires preferences.contentSize == 0 || preferences.contentSize == |Flatten(pieces)| % U64_SIZE
    requires {mem} !! {out, decoder.header, decoder.tmpIn, decoder.tmpOutBuffer} && decoder.Fresh() == true && decoder.Apart(out) == true
    requires 0 <= dictAt && dictAt + dictSize <= out.Length && out[dictAt..dictAt + dictSize] == DictionaryOf(cdict)
    requires forall k :: FrameRun.Room(out.Length, dictAt, dictSize, dst(k), capacity(k)) && (idle <= k ==> 0 < capacity(k))
    requires cdict != null ==> cdict != c.stream
    modifies c, c.stream, c.stream.hashTable, mem, decoder, decoder.tmpIn, decoder.tmpOutBuffer, decoder.header, out
    ensures text == Flatten(pieces)
  {
    hide *;
    ghost var d := DictionaryOf(cdict);
    var frame := EncodePieces(c, mem, pieces, flushes, cdict, preferences, place, at, room);
    SameDictionary(c, cdict);
    FrameRun.FreshAccepts(decoder, frame);
    var read;
    text, read := FrameRun.DecodePieces(decoder, out, frame, dictAt, dictSize, cut, dst, capacity, scribble, idle);
  }

  lemma SameDictionary(c: Cctx, cdict: Stream?)
    requires c.cdict == cdict
    ensures c.Dictionary() == DictionaryOf(cdict)
  {
  }
}
