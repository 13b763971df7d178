/**
 What LZ4_decompress_safe_continue forgets. An empty block that is decoded away from the prefix makes
 the prefix the external dictionary, and leaves it the prefix as well; what was the external dictionary
 is lost. When that matters is said exactly, and a run shows it.
 */
module DecodeLimits {
  import opened Bytes
  import opened BlockFormat
  import opened BlockEncoding
  import opened BlockCompressor
  import opened BlockApi
  import opened RoundTrip

  // ----- Which histories are as good as each other -----

  /** The last literals of a block. */
  const PADDING: seq<byte> := [0, 0, 0, 0, 0, 0, 0, 0]

  function Parse(j: nat): seq<Emitted> { [Emitted([], j, MINMATCH)] }

  /** A block that copies four bytes from `j` bytes before its text. */
  function Reach(j: nat): (block: seq<byte>)
    requires 1 <= j <= DISTANCE_MAX
  {
    EncodeBlock(Parse(j), PADDING)
  }

  /** Its text. */
  function Reached(h: seq<byte>, j: nat): (text: seq<byte>)
    requires 1 <= j <= |h|
  {
    CopyMatch(h, j, MINMATCH)[|h|..] + PADDING
  }

  lemma ReachDecodes(h: seq<byte>, j: nat)
    requires 1 <= j <= DISTANCE_MAX && j <= |h|
    ensures Decode(Reach(j), 0, h) == Output(h + Reached(h, j)) && EndConditions(Reach(j), 0) && |Reached(h, j)| == 12
    ensures Reached(h, j)[0] == h[|h| - j]
  {
    var qs, r := Parse(j), CopyMatch(h, j, MINMATCH);
    ParseExpands(h, j);
    hide Decode, EndConditions, CopyMatch, EncodeBlock, Expand, Parse, WellEnded, Small, Applicable, Encodable;
    BlockRoundTrip(h, qs, PADDING);
    CopyIs(h, j, r);
  }

  lemma CopyIs(h: seq<byte>, j: nat, r: seq<byte>)
    requires 1 <= j <= |h| && r == CopyMatch(h, j, MINMATCH)
    ensures h + (r[|h|..] + PADDING) == r + PADDING && |r| == |h| + MINMATCH && r[|h|] == h[|h| - j]
  {
    RepeatsIsCopyMatch(h, j, r);
    hide CopyMatch;
    assert r == h + r[|h|..];
    assert r[|h|] == r[|h| - j] == r[..|h|][|h| - j];
  }

  lemma ParseExpands(h: seq<byte>, j: nat)
    requires 1 <= j <= DISTANCE_MAX && j <= |h|
    ensures var qs := Parse(j); Encodable(qs) && Applicable(h, qs) && Small(qs) && WellEnded(qs, PADDING) && Expand(h, qs) == CopyMatch(h, j, MINMATCH)
  {
    var qs := Parse(j);
    assert qs[..0] == [] && h + qs[0].literals == h;
  }

  lemma ReachIsSmall(j: nat)
    requires 1 <= j <= DISTANCE_MAX
    ensures |Reach(j)| == 12 && 12 <= CompressBound(12)
  {
    var qs := Parse(j);
    assert qs[..0] == [];
    assert EncodeAll(qs) == EncodeAll([]) + Encode(qs[0]) == Encode(qs[0]);
  }

  lemma ReachMeans(h: seq<byte>, j: nat)
    requires 1 <= j <= DISTANCE_MAX && j <= |h|
    ensures Represents(Reach(j), h, Reached(h, j))
  {
    hide Decode, EndConditions, Reach, Reached;
    ReachDecodes(h, j);
    ReachIsSmall(j);
  }

  /** Too far back, there is nothing to copy. */
  lemma ReachMissing(h: seq<byte>, j: nat)
    requires |h| < j <= DISTANCE_MAX
    ensures Decode(Reach(j), 0, h) == Malformed
  {
    var s, q := Reach(j), Parse(j)[0];
    assert Parse(j)[..0] == [];
    assert EncodeAll(Parse(j)) == EncodeAll([]) + Encode(q) == Encode(q);
    assert s[0..0 + |Encode(q)|] == Encode(q);
    hide ReadSequence, Encode, EncodeAll;
    SequenceRead(s, 0, q);
    assert h + s[ReadSequence(s, 0).litStart..ReadSequence(s, 0).litEnd] == h;
  }

  /** Behind a history with another byte there, or with none, the block does not stand for the text. */
  lemma ReachFails(h: seq<byte>, h': seq<byte>, j: nat)
    requires 1 <= j <= DISTANCE_MAX && j <= |h| && (|h'| < j || h'[|h'| - j] != h[|h| - j])
    ensures !Represents(Reach(j), h', Reached(h, j))
  {
    hide Reach, Reached, Decode, EndConditions;
    ReachDecodes(h, j);
    if |h'| < j {
      ReachMissing(h', j);
    } else {
      ReachDecodes(h', j);
      assert (h' + Reached(h, j))[|h'|] != (h' + Reached(h', j))[|h'|];
    }
  }

  /** Where two windows differ. */
  lemma Difference(h: seq<byte>, h': seq<byte>) returns (j: nat)
    requires !SameWindow(h', h)
    ensures 1 <= j <= DISTANCE_MAX && j <= |h| && (|h'| < j || h'[|h'| - j] != h[|h| - j])
  {
    var k := Min(DISTANCE_MAX, |h|);
    if |h'| < k {
      j := |h'| + 1;
    } else {
      var a, b := h'[|h'| - k..], h[|h| - k..];
      var x :| 0 <= x < k && a[x] != b[x];
      j := k - x;
    }
  }

  /** A history can stand in for another one, for all blocks, if and only if they end alike as far as a match can reach. */
  lemma WindowDecides(h: seq<byte>, h': seq<byte>)
    ensures (forall block, text :: Represents(block, h, text) ==> Represents(block, h', text)) <==> SameWindow(h', h)
  {
    if SameWindow(h', h) {
      hide SameWindow, Represents;
      forall block, text | Represents(block, h, text) ensures Represents(block, h', text) { RepresentsAlike(block, h', h, text); }
    } else {
      var j := Difference(h, h');
      hide Represents, Reach, Reached;
      ReachMeans(h, j);
      ReachFails(h, h', j);
    }
  }

  // ----- What an empty call keeps -----

  /**
   Behind the external dictionary `a` and the prefix `b`, an empty block that is decoded somewhere else
   leaves the history `b + b`. That is as good, whatever the bytes are, if and only if there was no
   external dictionary, or the prefix alone is as long as a match can reach.
   */
  lemma EmptyCallKeeps(na: nat, nb: nat)
    requires 0 < nb
    ensures (forall a: seq<byte>, b: seq<byte> :: |a| == na && |b| == nb ==> SameWindow(b + b, a + b)) <==> na == 0 || DISTANCE_MAX <= nb
  {
    if na == 0 || DISTANCE_MAX <= nb {
      forall a: seq<byte>, b: seq<byte> | |a| == na && |b| == nb ensures SameWindow(b + b, a + b) { CoveredWindow(a, b); }
    } else {
      var a, b := Ones(na), Twos(nb);
      DifferentWindow(a, b);
    }
  }

  lemma CoveredWindow(a: seq<byte>, b: seq<byte>)
    requires a == [] || DISTANCE_MAX <= |b|
    ensures SameWindow(b + b, a + b)
  {
    var k := Min(DISTANCE_MAX, |a + b|);
    assert (a + b)[|a + b| - k..] == b[|b| - k..] == (b + b)[|b + b| - k..];
  }

  function Ones(n: nat): (s: seq<byte>)
    ensures |s| == n && forall i :: 0 <= i < n ==> s[i] == 1
  {
    seq<byte>(n, _ => 1)
  }

  function Twos(n: nat): (s: seq<byte>)
    ensures |s| == n && forall i :: 0 <= i < n ==> s[i] == 2
  {
    seq<byte>(n, _ => 2)
  }

  lemma DifferentWindow(a: seq<byte>, b: seq<byte>)
    requires a != [] && 0 < |b| < DISTANCE_MAX && a[|a| - 1] != b[|b| - 1]
    ensures !SameWindow(b + b, a + b)
  {
    if SameWindow(b + b, a + b) { WindowByte(a + b, b + b, |b| + 1); }
  }

  lemma WindowByte(h: seq<byte>, h': seq<byte>, j: nat)
    requires SameWindow(h', h) && 1 <= j <= DISTANCE_MAX && j <= |h|
    ensures j <= |h'| && h'[|h'| - j] == h[|h| - j]
  {
    var k := Min(DISTANCE_MAX, |h|);
    assert h'[|h'| - k..][k - j] == h[|h| - k..][k - j];
  }

  // ----- In a run -----

  /** A block of literals. */
  lemma LiteralsMean(h: seq<byte>, text: seq<byte>)
    requires 0 < |text| <= DISTANCE_MAX
    ensures Represents(EncodeBlock([], text), h, text)
  {
    hide Decode, EndConditions;
    BlockRoundTrip(h, [], text);
    assert Expand(h, []) == h;
  }

  lemma EmptyMeans(h: seq<byte>)
    ensures Represents([0], h, [])
  {
    assert h + [] == h && [0][1..1] == [];
  }

  /** The answer to the last block is a text, but not the one that the block stands for. */
  lemma AnsweredWrong(h: seq<byte>, h': seq<byte>, j: nat, capacity: int, result: int, mem: seq<byte>, dest: int)
    requires 1 <= j <= DISTANCE_MAX && j <= |h| && j <= |h'| && h'[|h'| - j] != h[|h| - j] && capacity == 12
    requires Within(dest, capacity, |mem|) && result <= capacity && Answers(Reach(j), h', capacity, result, mem, dest)
    ensures result == 12 && mem[dest..dest + result] != Reached(h, j)
  {
    hide Reach, Reached, Decode, EndConditions;
    ReachDecodes(h, j);
    ReachDecodes(h', j);
    ReachIsSmall(j);
    var out := mem[dest..dest + result];
    assert (h' + out)[|h'|..] == out && (h' + Reached(h', j))[|h'|..] == Reached(h', j);
  }

  /** The history behind the prefix, and away from it. */
  lemma HistoryIs(d: StreamDecode, mem: seq<byte>, dest: int)
    requires d.Valid(|mem|) == true
    ensures d.prefixEnd == dest ==> d.History(mem, dest) == mem[d.externalDict..d.externalDict + d.extDictSize] + mem[d.prefixEnd - d.prefixSize..d.prefixEnd]
    ensures d.prefixEnd != dest ==> d.History(mem, dest) == mem[d.prefixEnd - d.prefixSize..d.prefixEnd]
  {
  }

  /** A dictionary of `na` bytes is set, and a block of `nb` bytes decoded apart from it. */
  method TwoSegments(na: nat, nb: nat) returns (d: StreamDecode, mem: array<byte>)
    requires 0 < na <= DISTANCE_MAX && 0 < nb < DISTANCE_MAX
    ensures fresh(d) && fresh(mem) && mem.Length == na + 1 + nb + 12 && d.Valid(mem.Length) == true
    ensures mem[0..na] == Ones(na) && mem[na + 1..na + 1 + nb] == Twos(nb)
    ensures d.externalDict == 0 && d.extDictSize == na && d.prefixEnd == na + 1 + nb && d.prefixSize == nb
  {
    d, mem := OneSegment(na, na + 1 + nb + 12);
    DecodeApart(d, mem, Twos(nb), na);
  }

  method OneSegment(na: nat, size: nat) returns (d: StreamDecode, mem: array<byte>)
    requires 0 < na <= size
    ensures fresh(d) && fresh(mem) && mem.Length == size && d.Valid(mem.Length) == true && mem[0..na] == Ones(na)
    ensures d.prefixEnd == d.prefixSize == na && d.extDictSize == 0
  {
    mem := new byte[size](_ => 1);
    d := new StreamDecode(0, na);
    assert mem[0..na] == Ones(na);
  }

  method DecodeApart(d: StreamDecode, mem: array<byte>, b: seq<byte>, na: nat)
    requires d.Valid(mem.Length) == true && d.prefixEnd == d.prefixSize == na && 0 < na && 0 < |b| < DISTANCE_MAX && na + 1 + |b| <= mem.Length
    modifies d, mem
    ensures d.Valid(mem.Length) == true && mem[0..na] == old(mem[0..na]) && mem[na + 1..na + 1 + |b|] == b
    ensures d.externalDict == 0 && d.extDictSize == na && d.prefixEnd == na + 1 + |b| && d.prefixSize == |b|
  {
    hide Represents, Answers, StreamDecode.History, EncodeBlock, StreamDecode.Valid, MustAccept;
    ghost var m := mem[..];
    ghost var h := d.History(m, na + 1);
    LiteralsMean(h, b);
    BlockIsSmall(EncodeBlock([], b), h, b);
    var result := d.DecompressSafeContinue(EncodeBlock([], b), mem, na + 1, |b|);
    DecodedBack(EncodeBlock([], b), h, b, |b|, result, mem[..], na + 1);
    assert mem[0..na] == m[0..na];
  }

  /** An empty block is decoded at the front of memory, where nothing else is. */
  method EmptyCall(d: StreamDecode, mem: array<byte>)
    requires d.Valid(mem.Length) == true && 0 < d.prefixSize && d.prefixEnd != 0
    modifies d, mem
    ensures d.Valid(mem.Length) == true && mem[..] == old(mem[..])
    ensures d.prefixEnd == old(d.prefixEnd) && d.prefixSize == old(d.prefixSize)
    ensures d.externalDict == old(d.prefixEnd - d.prefixSize) && d.extDictSize == old(d.prefixSize)
  {
    hide Represents, Answers, StreamDecode.History;
    ghost var h := d.History(mem[..], 0);
    EmptyMeans(h);
    var result := d.DecompressSafeContinue([0], mem, 0, 0);
    DecodedBack([0], h, [], 0, result, mem[..], 0);
  }

  /**
   A dictionary of `na` bytes is set, and a block of `nb` bytes decoded apart from it. Then comes an
   empty block somewhere else, and a block behind the other one that copies from the dictionary. It is
   decoded, to something else.
   */
  method EmptyCallFails(na: nat, nb: nat) returns (d: StreamDecode, mem: array<byte>, ghost history: seq<byte>, block: seq<byte>, ghost text: seq<byte>, result: int)
    requires 0 < na <= DISTANCE_MAX && 0 < nb < DISTANCE_MAX
    ensures mem.Length == na + 1 + nb + 12 && history == Ones(na) + Twos(nb) && Represents(block, history, text)
    ensures result == |text| == 12 && mem[na + 1 + nb..mem.Length] != text
  {
    hide *;
    d, mem := TwoSegments(na, nb);
    history, block, text := Ones(na) + Twos(nb), Reach(nb + 1), Reached(Ones(na) + Twos(nb), nb + 1);
    EmptyCall(d, mem);
    ghost var h := d.History(mem[..], na + 1 + nb);
    HistoryNow(d, mem[..], na, nb);
    ReachMeans(history, nb + 1);
    ReachIsSmall(nb + 1);
    ReachDecodes(history, nb + 1);
    result := DecodeLast(d, mem, block, na + 1 + nb);
    AnsweredWrong(history, h, nb + 1, 12, result, mem[..], na + 1 + nb);
  }

  lemma HistoryNow(d: StreamDecode, mem: seq<byte>, na: nat, nb: nat)
    requires d.Valid(|mem|) == true && d.prefixEnd == na + 1 + nb && d.prefixSize == nb == d.extDictSize && d.externalDict == na + 1 && mem[na + 1..na + 1 + nb] == Twos(nb)
    requires 0 < na <= DISTANCE_MAX && 0 < nb < DISTANCE_MAX
    ensures d.History(mem, na + 1 + nb) == Twos(nb) + Twos(nb)
    ensures var h, h' := Ones(na) + Twos(nb), Twos(nb) + Twos(nb); |h| == na + nb && |h'| == 2 * nb && h[|h| - (nb + 1)] == 1 && h'[|h'| - (nb + 1)] == 2
    ensures MINMATCH == 4 && DISTANCE_MAX == 65535
  {
    HistoryIs(d, mem, na + 1 + nb);
  }

  method DecodeLast(d: StreamDecode, mem: array<byte>, block: seq<byte>, dest: int) returns (result: int)
    requires d.Valid(mem.Length) == true && d.prefixEnd == dest && 0 <= dest && dest + 12 == mem.Length && |block| == 12
    requires d.prefixSize == d.extDictSize && d.externalDict + d.extDictSize == dest
    modifies d, mem
    ensures result <= 12 && Within(dest, 12, mem.Length) && Answers(block, old(d.History(mem[..], dest)), 12, result, mem[..], dest)
  {
    hide Represents, Answers, StreamDecode.History, StreamDecode.Valid;
    result := d.DecompressSafeContinue(block, mem, dest, 12);
  }
}
