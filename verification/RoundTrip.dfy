/**
 Compression and decompression together: what one side writes, the other side reads back, for single
 blocks and for any run of dependent blocks.
 */
module RoundTrip {
  import opened Bytes
  import opened BlockFormat
  import opened BlockEncoding
  import opened MatchFinder
  import opened BlockCompressor
  import opened BlockStream
  import opened BlockApi

  /** A block that stands for `text` is decoded to `text`, even with not a byte of room to spare. */
  lemma DecodedBack(block: seq<byte>, h: seq<byte>, text: seq<byte>, capacity: int, result: int, mem: seq<byte>, dest: int)
    requires Represents(block, h, text) && |text| <= capacity
    requires Within(dest, capacity, |mem|) && result <= capacity && Answers(block, h, capacity, result, mem, dest)
    ensures result == |text| && mem[dest..dest + result] == text
  {
    hide Decode, EndConditions;
    assert MustAccept(block, h, capacity);
    var out := mem[dest..dest + result];
    assert h + out == h + text;
    assert out == (h + out)[|h|..] == (h + text)[|h|..] == text;
  }

  lemma BlockIsSmall(block: seq<byte>, h: seq<byte>, text: seq<byte>)
    requires Represents(block, h, text) && |text| <= MAX_INPUT_SIZE
    ensures |block| <= INT_MAX
  {
  }

  // ----- Single blocks -----

  /** LZ4_decompress_safe of a block that stands for `text`, into exactly as many bytes. */
  method Restore(block: seq<byte>, ghost text: seq<byte>, size: nat) returns (back: seq<byte>)
    requires Represents(block, [], text) && size == |text| <= MAX_INPUT_SIZE
    ensures back == text
  {
    hide Represents, Answers;
    BlockIsSmall(block, [], text);
    var out := new byte[size];
    var result := DecompressSafe(block, out, 0, size);
    DecodedBack(block, [], text, size, result, out[..], 0);
    back := out[0..0 + result];
  }

  /** LZ4_compress_fast, then LZ4_decompress_safe into exactly as many bytes as went in. */
  method RoundTripFast(hash: seq<byte> -> nat, src: seq<byte>, dstCapacity: nat, acceleration: int) returns (n: nat, back: seq<byte>)
    ensures n > 0 ==> back == src
    ensures n == 0 ==> |src| > MAX_INPUT_SIZE || dstCapacity < CompressBound(|src|)
  {
    hide Represents;
    var dst := new byte[dstCapacity];
    n := CompressFast(hash, src, 0, |src|, dst, 0, dstCapacity, acceleration);
    back := [];
    if n > 0 {
      assert src[0..0 + |src|] == src;
      back := Restore(dst[0..0 + n], src, |src|);
    }
  }

  /** LZ4_compress_destSize, then LZ4_decompress_safe into exactly as many bytes as were consumed. */
  method RoundTripDestSize(hash: seq<byte> -> nat, src: seq<byte>, targetDstSize: nat) returns (n: nat, consumed: int, back: seq<byte>)
    ensures n <= targetDstSize && (n == 0 ==> |src| > MAX_INPUT_SIZE || targetDstSize < 1)
    ensures n > 0 ==> 0 <= consumed <= |src| && back == src[..consumed]
    ensures n > 0 && targetDstSize >= BoundOf(|src|) ==> back == src
    ensures n > 0 && consumed < |src| ==> targetDstSize - 1 <= n
  {
    hide Represents;
    var dst := new byte[targetDstSize];
    n, consumed := CompressDestSize(hash, src, 0, |src|, dst, 0, targetDstSize);
    back := [];
    if n > 0 {
      assert src[0..0 + consumed] == src[..consumed];
      back := Restore(dst[0..0 + n], src[..consumed], consumed);
    }
  }

  // ----- Dependent blocks -----

  /** Two histories that end alike, as far back as a match can reach. */
  ghost predicate SameWindow(a: seq<byte>, b: seq<byte>) {
    var k := Min(DISTANCE_MAX, |b|);
    k <= |a| && a[|a| - k..] == b[|b| - k..]
  }

  lemma SameWindowGrows(a: seq<byte>, b: seq<byte>, text: seq<byte>)
    requires SameWindow(a, b)
    ensures SameWindow(a + text, b + text)
  {
    var k, l := Min(DISTANCE_MAX, |b|), Min(DISTANCE_MAX, |b + text|);
    assert (a + text)[|a| - k..] == a[|a| - k..] + text;
    assert (b + text)[|b| - k..] == b[|b| - k..] + text;
    var n := k + |text|;
    assert (a + text)[|a + text| - l..] == (a + text)[|a| - k..][n - l..];
    assert (b + text)[|b + text| - l..] == (b + text)[|b| - k..][n - l..];
  }

  /** A block stands for the same text behind every history that ends alike. */
  lemma RepresentsAlike(block: seq<byte>, a: seq<byte>, b: seq<byte>, text: seq<byte>)
    requires Represents(block, b, text) && SameWindow(a, b)
    ensures Represents(block, a, text)
  {
    RepresentsTail(block, b, a, Min(DISTANCE_MAX, |b|), text);
  }

  /** What the decoder sees goes on if it is long enough. */
  lemma SameWindowSuffix(a: seq<byte>, b: seq<byte>, h: seq<byte>)
    requires SameWindow(a + b, h) && Min(DISTANCE_MAX, |h|) <= |b|
    ensures SameWindow(b, h)
  {
    var k := Min(DISTANCE_MAX, |h|);
    assert (a + b)[|a + b| - k..] == b[|b| - k..];
  }

  lemma SameWindowBehind(a: seq<byte>, b: seq<byte>, h: seq<byte>)
    requires SameWindow(b, h)
    ensures SameWindow(a + b, h)
  {
    var k := Min(DISTANCE_MAX, |h|);
    assert (a + b)[|a + b| - k..] == b[|b| - k..];
  }

  // ----- A run of calls -----

  /** One call: its memory, in which the input `[source, source + size)` is; the room for the block; and where it is decoded to. */
  datatype Turn = Turn(mem: seq<byte>, source: int, size: nat, capacity: nat, acceleration: int, dest: int)
  {
    predicate Valid() { 0 <= source && source + size <= |mem| && size <= MAX_INPUT_SIZE }

    function Text(): seq<byte>
      requires Valid()
    {
      mem[source..source + size]
    }
  }

  /** The texts of all turns, joined. */
  function Joined(turns: seq<Turn>): (text: seq<byte>)
    requires forall t :: t in turns ==> t.Valid()
  {
    if turns == [] then [] else Joined(turns[..|turns| - 1]) + turns[|turns| - 1].Text()
  }

  /** The inputs that follow each other in memory, up to the last one; and the dictionary that is attached, if any. */
  datatype Window = Window(start: int, end: int, attached: Option<(int, int)>)
  {
    function Next(t: Turn): Window {
      Window(if t.source == end then start else t.source, t.source + t.size, if t.size > 0 then None else attached)
    }

    /** The last 64 KB of these inputs are where they were, except for what the input `[source, source + n)` has replaced. */
    ghost predicate Kept(mem: seq<byte>, source: int, n: int, history: seq<byte>) {
      && end - start <= |history| && (start < end ==> 0 <= start) && NULL <= end <= |mem|
      && forall i :: end - Min(end - start, 64 * KB) <= i < end && !(source <= i < source + n) ==> mem[i] == history[|history| - (end - i)]
    }

    /** What LZ4_compress_fast_continue needs of its caller: all that can be told without looking at the state of the stream. */
    ghost predicate Allows(t: Turn, history: seq<byte>) {
      && t.Valid() && start <= end && Kept(t.mem, t.source, t.size, history)
      && (MIN_LENGTH <= t.size && t.source < end <= t.source + t.size ==> Kept(t.mem, 0, 0, history))
      && (start <= t.source < end ==> t.source + t.size <= end + LASTLITERALS + 1)
      && match attached
         case None => true
         case Some((d, size)) =>
           && 0 <= d && size == |history| && d + size <= |t.mem| && t.mem[d..d + size] == history
           && (t.size > 0 ==> t.source != end && !(d == t.source && size + LASTLITERALS + 1 < t.size))
    }
  }

  /** What the decoder keeps track of. */
  datatype Places = Places(prefixEnd: int, prefixSize: int, externalDict: int, extDictSize: int)
  {
    function Next(t: Turn): Places {
      if prefixSize == 0 || prefixEnd == t.dest then
        if t.size == 0 then this
        else Places(t.dest + t.size, t.size + (if prefixEnd == t.dest then prefixSize else 0), externalDict, extDictSize)
      else
        Places(if t.size == 0 then prefixEnd else t.dest + t.size, if t.size == 0 then prefixSize else t.size, prefixEnd - prefixSize, prefixSize)
    }

    /** The output goes to a place where it replaces nothing that later blocks need. */
    predicate Allows(t: Turn, size: nat, history: nat) {
      && Within(t.dest, t.size, size) && Disjoint(prefixEnd - prefixSize, prefixSize, t.dest, t.size)
      && (prefixEnd == t.dest ==> Disjoint(externalDict, extDictSize, t.dest, t.size))
      && (prefixSize == 0 || prefixEnd == t.dest || Min(DISTANCE_MAX, history) <= prefixSize)
    }
  }

  /** A caller who keeps the conditions on the compressing side. */
  ghost predicate Encodes(turns: seq<Turn>, w: Window, history: seq<byte>) {
    turns == [] || (w.Allows(turns[0], history) && Encodes(turns[1..], w.Next(turns[0]), history + turns[0].Text()))
  }

  /** And on the decompressing side, whose memory has `size` bytes. */
  predicate Decodes(turns: seq<Turn>, p: Places, size: nat, history: nat) {
    turns == [] || (p.Allows(turns[0], size, history) && Decodes(turns[1..], p.Next(turns[0]), size, history + turns[0].size))
  }

  /** A compressing and a decompressing side that are in step. */
  class Link {
    const encoder: Stream
    const decoder: StreamDecode
    /** The memory of the decompressing side. */
    const out: array<byte>

    /** The window is what the encoder has as its dictionary, or more. */
    ghost predicate Sees(w: Window)
      reads encoder, encoder.hashTable, encoder.dictCtx, if encoder.dictCtx != null then {encoder.dictCtx.hashTable} else {}
    {
      && encoder.Valid() && w.start <= w.end == encoder.DictEnd() && (encoder.dictSize > 0 ==> w.start <= encoder.dictionary)
      && w.attached == if encoder.dictCtx == null then None else Some((encoder.dictCtx.dictionary, encoder.dictCtx.dictSize))
    }

    function At(): Places
      reads decoder
    {
      Places(decoder.prefixEnd, decoder.prefixSize, decoder.externalDict, decoder.extDictSize)
    }

    /** The decoder finds what the encoder refers to, if the next block is decoded at `dest`. */
    ghost predicate InStep(dest: int)
      reads encoder, decoder, out
    {
      decoder.Valid(out.Length) && SameWindow(decoder.History(out[..], dest), encoder.history)
    }

    constructor (encoder: Stream, decoder: StreamDecode, out: array<byte>)
      ensures this.encoder == encoder && this.decoder == decoder && this.out == out
    {
      this.encoder, this.decoder, this.out := encoder, decoder, out;
    }

    /** What the caller keeps is what LZ4_compress_fast_continue asks for. */
    lemma AllowedIsFaithful(w: Window, t: Turn)
      requires Sees(w) == true && w.Allows(t, encoder.history) == true
      ensures encoder.Sound() == true && encoder.Valid() == true && t.Valid() && encoder.Intact(t.mem, t.source, t.size) == true
      ensures encoder.Faithful(t.mem, t.source, t.size) == true && !encoder.Ambiguous(t.source, t.size)
    {
    }

    lemma SeenNext(w: Window, t: Turn, dictEnd: int, dictionary: int, attached: Option<(int, int)>)
      requires encoder.Valid() == true && encoder.DictEnd() == t.source + t.size && w.start <= w.end == dictEnd && w.attached == attached
      requires encoder.dictionary == t.source || (dictEnd == t.source && dictionary <= encoder.dictionary <= t.source && w.start <= dictionary)
      requires if encoder.dictCtx == null then t.size > 0 || attached == None
               else t.size == 0 && attached == Some((encoder.dictCtx.dictionary, encoder.dictCtx.dictSize))
      ensures Sees(w.Next(t)) == true
    {
    }

    lemma SeenParts(w: Window)
      requires Sees(w) == true
      ensures w.start <= w.end == encoder.DictEnd() && (w.start <= encoder.dictionary || encoder.dictionary == encoder.DictEnd())
      ensures w.attached == if encoder.dictCtx == null then None else Some((encoder.dictCtx.dictionary, encoder.dictCtx.dictSize))
      ensures encoder.Valid() == true && encoder.dictCtx != encoder
    {
    }

    /** The compressing side. Without room for the block there is none. */
    method Pack(ghost w: Window, t: Turn) returns (block: seq<byte>)
      requires Sees(w) == true && w.Allows(t, encoder.history) == true
      modifies encoder, encoder.hashTable
      ensures block == [] ==> t.capacity < CompressBound(t.size)
      ensures block != [] ==> t.Valid() && Sees(w.Next(t)) == true && encoder.history == old(encoder.history) + t.Text()
      ensures block != [] ==> Represents(block, old(encoder.history), t.Text()) == true
    {
      hide *;
      SeenParts(w);
      AllowedIsFaithful(w, t);
      var compressed := new byte[t.capacity];
      ghost var dictEnd, dictionary, attached := encoder.DictEnd(), encoder.dictionary, w.attached;
      var result, lost := encoder.CompressFastContinue(t.mem, t.source, t.size, compressed, 0, t.capacity, t.acceleration);
      block := compressed[0..0 + result];
      TurnParts(t);
      TakenParts(result, t.size);
      if result > 0 { SeenNext(w, t, dictEnd, dictionary, attached); }
    }

    /** LZ4_decompress_safe_continue of a block that stands for `text`, into exactly as many bytes. */
    method Unpack(block: seq<byte>, n: nat, dest: int, ghost history: seq<byte>, ghost text: seq<byte>) returns (back: seq<byte>)
      requires n == |text| <= MAX_INPUT_SIZE && Represents(block, history, text) == true
      requires decoder.Valid(out.Length) == true && Within(dest, n, out.Length) == true
      requires Disjoint(decoder.prefixEnd - decoder.prefixSize, decoder.prefixSize, dest, n) == true
      requires decoder.prefixEnd == dest ==> Disjoint(decoder.externalDict, decoder.extDictSize, dest, n) == true
      requires SameWindow(decoder.History(out[..], dest), history) == true
      modifies decoder, out
      ensures back == text
      ensures decoder.Valid(out.Length) == true && SameWindow(decoder.History(out[..], dest + n), history + text) == true
      ensures if n > 0 then
          decoder.prefixEnd == dest + n && decoder.prefixSize == n + (if old(decoder.prefixEnd) == dest then old(decoder.prefixSize) else 0)
        else
          decoder.prefixEnd == old(decoder.prefixEnd) && decoder.prefixSize == old(decoder.prefixSize)
      ensures if old(decoder.prefixSize) == 0 || old(decoder.prefixEnd) == dest then
          decoder.externalDict == old(decoder.externalDict) && decoder.extDictSize == old(decoder.extDictSize)
        else
          decoder.externalDict == old(decoder.prefixEnd - decoder.prefixSize) && decoder.extDictSize == old(decoder.prefixSize)
    {
      hide Represents, Answers, SameWindow;
      ghost var h := decoder.History(out[..], dest);
      BlockIsSmall(block, history, text);
      RepresentsAlike(block, h, history, text);
      var result := decoder.DecompressSafeContinue(block, out, dest, n);
      DecodedBack(block, h, text, n, result, out[..], dest);
      SameWindowGrows(h, history, text);
      back := out[dest..dest + n];
    }

    /** What the decoder needs of its caller, and finds. */
    lemma PlaceAllows(p: Places, t: Turn)
      requires p == At() && p.Allows(t, out.Length, |encoder.history|) && InStep(p.prefixEnd) == true
      ensures decoder.Valid(out.Length) == true && Within(t.dest, t.size, out.Length) == true
      ensures Disjoint(decoder.prefixEnd - decoder.prefixSize, decoder.prefixSize, t.dest, t.size) == true
      ensures decoder.prefixEnd == t.dest ==> Disjoint(decoder.externalDict, decoder.extDictSize, t.dest, t.size) == true
      ensures SameWindow(decoder.History(out[..], t.dest), encoder.history) == true
    {
      hide SameWindow;
      var h, mem := decoder.History(out[..], decoder.prefixEnd), out[..];
      var ext, prefix := mem[decoder.externalDict..decoder.externalDict + decoder.extDictSize], mem[decoder.prefixEnd - decoder.prefixSize..decoder.prefixEnd];
      assert h == ext + prefix;
      if decoder.prefixSize == 0 {
        assert ext == prefix == [] && decoder.History(mem, t.dest) == [];
      } else if decoder.prefixEnd != t.dest {
        SameWindowSuffix(ext, prefix, encoder.history);
        assert decoder.History(mem, t.dest) == prefix;
      }
    }

    /** And afterwards the decoder goes on from there. */
    lemma PlaceNext(p: Places, t: Turn, history: seq<byte>)
      requires decoder.Valid(out.Length) == true && SameWindow(decoder.History(out[..], t.dest + t.size), history) == true
      requires if t.size > 0 then
          decoder.prefixEnd == t.dest + t.size && decoder.prefixSize == t.size + (if p.prefixEnd == t.dest then p.prefixSize else 0)
        else
          decoder.prefixEnd == p.prefixEnd && decoder.prefixSize == p.prefixSize
      requires if p.prefixSize == 0 || p.prefixEnd == t.dest then
          decoder.externalDict == p.externalDict && decoder.extDictSize == p.extDictSize
        else
          decoder.externalDict == p.prefixEnd - p.prefixSize && decoder.extDictSize == p.prefixSize
      requires history == encoder.history
      ensures p.Next(t) == At() && InStep(p.Next(t).prefixEnd) == true
    {
      hide SameWindow;
      if t.size == 0 && p.prefixEnd != t.dest { EmptyNext(p, t, history); }
    }

    /** An empty block somewhere else: the history that is seen from there, and from where the prefix ends. */
    lemma EmptyNext(p: Places, t: Turn, history: seq<byte>)
      requires decoder.Valid(out.Length) == true && SameWindow(decoder.History(out[..], t.dest), history) == true
      requires t.size == 0 && p.prefixEnd != t.dest && decoder.prefixEnd == p.prefixEnd && decoder.prefixSize == p.prefixSize
      requires p.prefixSize > 0 ==> decoder.externalDict == p.prefixEnd - p.prefixSize && decoder.extDictSize == p.prefixSize
      ensures SameWindow(decoder.History(out[..], p.prefixEnd), history) == true
    {
      hide SameWindow;
      if p.prefixSize == 0 {
        assert decoder.History(out[..], t.dest) == [] == decoder.History(out[..], p.prefixEnd);
      } else {
        var prefix := out[..][p.prefixEnd - p.prefixSize..p.prefixEnd];
        assert decoder.History(out[..], t.dest) == prefix && decoder.History(out[..], p.prefixEnd) == prefix + prefix;
        SameWindowBehind(prefix, prefix, history);
      }
    }

    lemma AtIs()
      ensures At() == Places(decoder.prefixEnd, decoder.prefixSize, decoder.externalDict, decoder.extDictSize)
    {
    }

    /** One turn. */
    method Send(ghost w: Window, ghost p: Places, t: Turn) returns (ok: bool, back: seq<byte>)
      requires Sees(w) == true && w.Allows(t, encoder.history) == true
      requires p == At() && p.Allows(t, out.Length, |encoder.history|) == true && InStep(p.prefixEnd) == true
      modifies encoder, encoder.hashTable, decoder, out
      ensures !ok ==> t.capacity < CompressBound(t.size)
      ensures ok ==> t.Valid() && back == t.Text() && encoder.history == old(encoder.history) + t.Text()
      ensures ok ==> Sees(w.Next(t)) == true && p.Next(t) == At() && InStep(p.Next(t).prefixEnd) == true
    {
      hide *;
      AtIs();
      PlaceAllows(p, t);
      ghost var history := encoder.history;
      var block := Pack(w, t);
      ok, back := block != [], [];
      if ok {
        TurnParts(t);
        back := Unpack(block, t.size, t.dest, history, t.Text());
        PlaceNext(p, t, encoder.history);
      }
    }

    /**
     A whole run. Each call has its own memory: buffers may be used again, and what is older than the window may be gone. What goes in
     on one side comes out on the other, as long as the blocks have room; and a call can only fail if it was given less than
     LZ4_compressBound.
     */
    method SendAll(turns: seq<Turn>, ghost w: Window) returns (sent: nat, back: seq<byte>)
      requires Sees(w) == true && InStep(decoder.prefixEnd) == true
      requires Encodes(turns, w, encoder.history) == true && Decodes(turns, At(), out.Length, |encoder.history|) == true
      modifies encoder, encoder.hashTable, decoder, out
      ensures sent <= |turns| && (sent < |turns| ==> turns[sent].capacity < CompressBound(turns[sent].size))
      ensures (forall t :: t in turns[..sent] ==> t.Valid()) && back == Joined(turns[..sent])
    {
      hide *;
      sent, back := 0, [];
      ghost var v, p := w, At();
      JoinedNothing(turns);
      AtIs();
      assert turns[sent..] == turns && turns[..sent] == [];
      while sent < |turns|
        invariant sent <= |turns| && Sees(v) == true && p == At() && InStep(p.prefixEnd) == true
        invariant Encodes(turns[sent..], v, encoder.history) == true && Decodes(turns[sent..], p, out.Length, |encoder.history|) == true
        invariant (forall t :: t in turns[..sent] ==> t.Valid()) && back == Joined(turns[..sent])
      {
        ghost var history := encoder.history;
        FirstTurn(turns, sent, v, p, history, out.Length);
        var ok, text := Send(v, p, turns[sent]);
        if !ok { return; }
        JoinedMore(turns, sent);
        NextTurn(turns, sent, v, p, history, encoder.history, out.Length);
        back := back + text;
        v, p := v.Next(turns[sent]), p.Next(turns[sent]);
        sent := sent + 1;
      }
    }
  }

  lemma JoinedNothing(turns: seq<Turn>)
    ensures turns[..0] == [] && Joined(turns[..0]) == [] && turns[0..] == turns
  {
  }

  lemma JoinedMore(turns: seq<Turn>, k: nat)
    requires k < |turns| && turns[k].Valid() && forall t :: t in turns[..k] ==> t.Valid()
    ensures forall t :: t in turns[..k + 1] ==> t.Valid()
    ensures Joined(turns[..k + 1]) == Joined(turns[..k]) + turns[k].Text()
  {
    assert turns[..k + 1][..k] == turns[..k] && turns[..k + 1] == turns[..k] + [turns[k]];
  }

  lemma FirstTurn(turns: seq<Turn>, k: nat, w: Window, p: Places, history: seq<byte>, size: nat)
    requires k < |turns| && Encodes(turns[k..], w, history) == true && Decodes(turns[k..], p, size, |history|) == true
    ensures w.Allows(turns[k], history) == true && p.Allows(turns[k], size, |history|) == true
  {
  }

  lemma NextTurn(turns: seq<Turn>, k: nat, w: Window, p: Places, history: seq<byte>, after: seq<byte>, size: nat)
    requires k < |turns| && Encodes(turns[k..], w, history) == true && Decodes(turns[k..], p, size, |history|) == true
    requires turns[k].Valid() && after == history + turns[k].Text()
    ensures Encodes(turns[k + 1..], w.Next(turns[k]), after) == true && Decodes(turns[k + 1..], p.Next(turns[k]), size, |after|) == true
  {
    assert turns[k..][1..] == turns[k + 1..];
  }

  lemma TurnParts(t: Turn)
    requires t.Valid()
    ensures 0 <= t.source && t.source + t.size <= |t.mem| && t.size <= MAX_INPUT_SIZE && t.Text() == t.mem[t.source..t.source + t.size]
  {
  }

  // ----- Buffers that keep the conditions -----

  /** A ring buffer: an input goes to where the last one ended, or to the front if it does not fit there, and nothing else is written. */
  ghost predicate Ring(turns: seq<Turn>, size: nat, mem: seq<byte>, end: nat, largest: nat) {
    turns == [] ||
    (var t := turns[0];
     && |mem| == |t.mem| == size && t.size <= largest && t.size <= MAX_INPUT_SIZE && t.source == (if end + t.size <= size then end else 0)
     && (forall a :: 0 <= a < size && !(t.source <= a < t.source + t.size) ==> t.mem[a] == mem[a])
     && Ring(turns[1..], size, t.mem, t.source + t.size, largest))
  }

  /** The inputs of the window are in memory as they were. */
  ghost predicate Holds(w: Window, mem: seq<byte>, history: seq<byte>) {
    && 0 <= w.start <= w.end <= |mem| && w.attached == None && w.end - w.start <= |history|
    && mem[w.start..w.end] == history[|history| - (w.end - w.start)..]
  }

  lemma HoldsParts(w: Window, mem: seq<byte>, history: seq<byte>)
    requires Holds(w, mem, history) == true
    ensures 0 <= w.start <= w.end <= |mem| && w.attached == None && w.end - w.start <= |history|
    ensures forall i :: w.start <= i < w.end ==> mem[i] == history[|history| - (w.end - i)]
  {
    forall i | w.start <= i < w.end ensures mem[i] == history[|history| - (w.end - i)] {
      assert mem[i] == mem[w.start..w.end][i - w.start] == history[|history| - (w.end - w.start)..][i - w.start];
    }
  }

  /** What is not written, is kept. */
  lemma HoldsKept(w: Window, mem: seq<byte>, t: Turn, history: seq<byte>)
    requires Holds(w, mem, history) == true && |t.mem| == |mem| && (t.source == w.end || w.end - w.start <= 0 || t.source == 0)
    requires forall a :: 0 <= a < |mem| && !(t.source <= a < t.source + t.size) ==> t.mem[a] == mem[a]
    ensures w.Kept(t.mem, t.source, t.size, history)
  {
    HoldsParts(w, mem, history);
    hide Holds;
  }

  lemma RingAllows(t: Turn, size: nat, mem: seq<byte>, w: Window, history: seq<byte>)
    requires |mem| == |t.mem| == size && 2 * t.size <= size && t.size <= MAX_INPUT_SIZE && Holds(w, mem, history) == true
    requires t.source == if w.end + t.size <= size then w.end else 0
    requires forall a :: 0 <= a < size && !(t.source <= a < t.source + t.size) ==> t.mem[a] == mem[a]
    ensures t.Valid() && w.Allows(t, history) == true
  {
    hide Holds, Window.Kept;
    HoldsKept(w, mem, t, history);
    HoldsParts(w, mem, history);
  }

  lemma RingNext(t: Turn, size: nat, mem: seq<byte>, w: Window, history: seq<byte>)
    requires |mem| == |t.mem| == size && t.Valid() && Holds(w, mem, history) == true
    requires t.source == w.end || t.source == 0
    requires forall a :: 0 <= a < size && !(t.source <= a < t.source + t.size) ==> t.mem[a] == mem[a]
    ensures Holds(w.Next(t), t.mem, history + t.Text()) == true
  {
    if t.source == w.end {
      SplitSlice(t.mem, w.start, w.end, w.end + t.size);
      SameSlice(t.mem, mem, w.start, w.end);
      var after := history + t.Text();
      assert after[|after| - (w.end + t.size - w.start)..] == history[|history| - (w.end - w.start)..] + t.Text();
    } else {
      var after := history + t.Text();
      assert after[|after| - t.size..] == t.Text();
    }
  }

  /**
   A ring buffer may have any size, even less than a window, as long as it is twice as large as the largest input. If it is smaller, an input
   that goes to the front can reach the end of the one before it.
   */
  lemma {:induction false} RingIsEnough(turns: seq<Turn>, size: nat, mem: seq<byte>, w: Window, history: seq<byte>, largest: nat)
    requires 2 * largest <= size && |mem| == size && Holds(w, mem, history) == true && Ring(turns, size, mem, w.end, largest) == true
    ensures Encodes(turns, w, history)
    decreases |turns|
  {
    hide Holds, Window.Allows;
    if turns != [] {
      HoldsParts(w, mem, history);
      RingAllows(turns[0], size, mem, w, history);
      RingNext(turns[0], size, mem, w, history);
      RingIsEnough(turns[1..], size, turns[0].mem, w.Next(turns[0]), history + turns[0].Text(), largest);
    }
  }

  /** Separate buffers: an input never touches the one before it, nor follows it directly, and that one is still there. */
  ghost predicate Separate(turns: seq<Turn>, w: Window, history: seq<byte>) {
    turns == [] ||
    (var t := turns[0];
     && t.Valid() && Holds(w, t.mem, history) && (t.source + t.size <= w.start || w.end < t.source)
     && Separate(turns[1..], Window(t.source, t.source + t.size, None), history + t.Text()))
  }

  lemma SeparateAllows(t: Turn, w: Window, history: seq<byte>)
    requires t.Valid() && Holds(w, t.mem, history) == true && (t.source + t.size <= w.start || w.end < t.source)
    ensures w.Allows(t, history) == true && (t.size > 0 ==> w.Next(t) == Window(t.source, t.source + t.size, None))
  {
    HoldsParts(w, t.mem, history);
    hide Holds;
  }

  /** Two buffers that are used in turn may have any size. */
  lemma {:induction false} SeparateIsEnough(turns: seq<Turn>, w: Window, history: seq<byte>)
    requires Separate(turns, w, history) && forall t :: t in turns ==> t.size > 0
    ensures Encodes(turns, w, history)
    decreases |turns|
  {
    hide Holds, Window.Allows;
    if turns != [] {
      SeparateAllows(turns[0], w, history);
      SeparateIsEnough(turns[1..], w.Next(turns[0]), history + turns[0].Text());
    }
  }

  function Total(turns: seq<Turn>): (n: nat) {
    if turns == [] then 0 else turns[0].size + Total(turns[1..])
  }

  /** The output is simply continued. */
  predicate Appends(turns: seq<Turn>, at: int) {
    turns == [] || (turns[0].dest == at && Appends(turns[1..], at + turns[0].size))
  }

  lemma {:induction false} AppendingIsEnough(turns: seq<Turn>, p: Places, size: nat, history: nat)
    requires Appends(turns, p.prefixEnd) && 0 <= p.prefixSize <= p.prefixEnd && p.prefixEnd + Total(turns) <= size
    requires Disjoint(p.externalDict, p.extDictSize, p.prefixEnd, Total(turns))
    ensures Decodes(turns, p, size, history)
    decreases |turns|
  {
    if turns != [] {
      AppendingIsEnough(turns[1..], p.Next(turns[0]), size, history + turns[0].size);
    }
  }
}
