/**
 Compression at the high-compression levels and decompression together. A run of dependent blocks needs
 nothing of its caller but to write nothing else than inputs.
 */
module HcRoundTrip {
  import opened Bytes
  import opened BlockFormat
  import opened BlockEncoding
  import opened MatchFinder
  import opened BlockCompressor
  import opened BlockStream
  import opened BlockApi
  import opened RoundTrip
  import HcChains
  import opened HcStream

  // ----- Single blocks -----

  /** LZ4_compress_HC, then LZ4_decompress_safe into exactly as many bytes as went in. */
  method RoundTripHC(hash: seq<byte> -> nat, src: seq<byte>, dstCapacity: nat, level: int) returns (n: nat, back: seq<byte>)
    ensures n > 0 ==> back == src
    ensures n == 0 ==> |src| > MAX_INPUT_SIZE || dstCapacity < CompressBound(|src|)
  {
    hide *;
    var state := new StreamHC(hash, level);
    var dst := new byte[dstCapacity];
    assert src[0..0 + |src|] == src;
    n := state.CompressExtStateFastReset(src, 0, |src|, dst, 0, dstCapacity, level);
    back := [];
    if n > 0 { back := Restore(dst[0..0 + n], src, |src|); }
  }

  // ----- Dependent blocks -----

  /** The caller writes nothing but the inputs, each before its call, wherever that is. */
  ghost predicate OnlyInputs(turns: seq<Turn>, mem: seq<byte>) {
    turns == [] ||
    (var t := turns[0];
     && t.Valid() && |t.mem| == |mem| && (forall a :: 0 <= a < |mem| && !(t.source <= a < t.source + t.size) ==> t.mem[a] == mem[a])
     && OnlyInputs(turns[1..], t.mem))
  }

  /** A ring buffer of any size does that. */
  lemma {:induction false} RingWritesInputs(turns: seq<Turn>, size: nat, mem: seq<byte>, end: nat, largest: nat)
    requires |mem| == size && largest <= size && Ring(turns, size, mem, end, largest) == true
    ensures OnlyInputs(turns, mem)
    decreases |turns|
  {
    if turns != [] {
      RingWritesInputs(turns[1..], size, turns[0].mem, turns[0].source + turns[0].size, largest);
    }
  }

  lemma FirstInput(turns: seq<Turn>, k: nat, mem: seq<byte>)
    requires k < |turns| && OnlyInputs(turns[k..], mem) == true
    ensures turns[k].Valid() && OnlyInputs(turns[k + 1..], turns[k].mem) == true && |turns[k].mem| == |mem|
    ensures forall a :: 0 <= a < |mem| && !(turns[k].source <= a < turns[k].source + turns[k].size) ==> turns[k].mem[a] == mem[a]
  {
    assert turns[k..][1..] == turns[k + 1..];
  }

  /** What the stream may refer to is still there, but for what the input has replaced. */
  lemma StillIntact(s: StreamHC, mem: seq<byte>, t: Turn)
    requires s.Sound() == true && s.Intact(mem, 0, 0) == true && t.Valid() && |t.mem| == |mem|
    requires forall a :: 0 <= a < |mem| && !(t.source <= a < t.source + t.size) ==> t.mem[a] == mem[a]
    ensures s.Intact(t.mem, t.source, t.size) == true
  {
    if s.started {
      var v, w, h := s.ctx.View(mem), s.ctx.View(t.mem), s.history;
      hide HcMatchFinder.HcContext.Valid, HcMatchFinder.HcContext.Reusable;
      forall i | Max(w.lowLimit, w.end - 64 * KB) <= i < w.end && !(t.source <= AddressOf(w, i) < t.source + t.size) ensures w.At(i) == h[|h| - (w.end - i)] {
        assert v.At(i) == w.At(i) && AddressOf(v, i) == AddressOf(w, i);
      }
    }
  }

  /** LZ4_decompress_safe_usingDict, behind the last 64 KB of what has come out before. */
  method RestoreBehind(block: seq<byte>, before: seq<byte>, ghost text: seq<byte>, size: nat) returns (back: seq<byte>)
    requires Represents(block, before, text) == true && size == |text| <= MAX_INPUT_SIZE
    ensures back == text
  {
    hide *;
    BlockIsSmall(block, before, text);
    WindowSize(|before|);
    var k := if |before| < 64 * KB then |before| else 64 * KB;
    var window := before[|before| - k..];
    WindowOf(block, before, window, text);
    var out := new byte[k + size];
    Fill(out, window);
    RoomIs(k, size, out.Length);
    var result := DecompressSafeUsingDict(block, out, k, size, 0, k);
    DecodedBack(block, window, text, size, result, out[..], k);
    back := out[k..k + result];
  }

  method Fill(out: array<byte>, from: seq<byte>)
    requires |from| <= out.Length
    modifies out
    ensures out[0..0 + |from|] == from
  {
    forall i | 0 <= i < |from| { out[i] := from[i]; }
  }

  lemma WindowSize(n: nat)
    ensures 0 < 64 * KB && DISTANCE_MAX <= 64 * KB && 64 * KB + MAX_INPUT_SIZE <= INT_MAX
  {
  }

  lemma RoomIs(k: nat, size: nat, length: nat)
    requires length == k + size && size <= MAX_INPUT_SIZE
    ensures Within(k, size, length) == true && Within(0, k, length) == true && Disjoint(0, k, k, size) == true && size <= INT_MAX
  {
  }

  lemma WindowOf(block: seq<byte>, before: seq<byte>, window: seq<byte>, text: seq<byte>)
    requires Represents(block, before, text) == true && |window| <= |before| && window == before[|before| - |window|..]
    requires |window| == |before| || DISTANCE_MAX <= |window|
    ensures Represents(block, window, text) == true
  {
    hide Represents;
    assert window[|window| - |window|..] == window;
    RepresentsTail(block, before, window, |window|, text);
  }

  /**
   A whole run of LZ4_compress_HC_continue, in one memory in which the caller writes nothing but the inputs, wherever they
   are, and LZ4_decompress_safe_usingDict: what goes in on one side comes out on the other, and a call can only fail if it was given
   less than LZ4_compressBound.
   */
  method SendInputs(s: StreamHC, turns: seq<Turn>, ghost mem: seq<byte>) returns (sent: nat, back: seq<byte>)
    requires s.Sound() == true && s.Intact(mem, 0, 0) == true && s.history == [] && OnlyInputs(turns, mem) == true
    modifies s, s.ctx, s.ctx.hashTable, s.ctx.chainTable
    ensures sent <= |turns| && (sent < |turns| ==> turns[sent].capacity < CompressBound(turns[sent].size))
    ensures (forall t :: t in turns[..sent] ==> t.Valid()) && back == Joined(turns[..sent])
  {
    hide *;
    sent, back := 0, [];
    ghost var now := mem;
    JoinedNothing(turns);
    while sent < |turns|
      invariant sent <= |turns| && s.Sound() == true && s.Intact(now, 0, 0) == true && OnlyInputs(turns[sent..], now) == true
      invariant (forall t :: t in turns[..sent] ==> t.Valid()) && back == Joined(turns[..sent]) == s.history
    {
      var t := turns[sent];
      FirstInput(turns, sent, now);
      StillIntact(s, now, t);
      TurnParts(t);
      var dst := new byte[t.capacity];
      var result := s.CompressContinue(t.mem, t.source, t.size, dst, 0, t.capacity);
      if result == 0 { return; }
      var text := RestoreBehind(dst[0..0 + result], back, t.Text(), t.size);
      JoinedMore(turns, sent);
      back := back + text;
      now := t.mem;
      sent := sent + 1;
    }
  }
}
