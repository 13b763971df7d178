/**
 The meaning of an LZ4 block, as the LZ4 Block Format Description gives it: a byte-at-a-time
 reference decoder over a flat history. Compressors and decoders are proved against it.
 */
module BlockFormat {
  import opened Bytes

  const MINMATCH := 4
  const LASTLITERALS := 5
  const MFLIMIT := 12
  const RUN_MASK := 15
  const ML_MASK := 15
  const DISTANCE_MAX := 65535

  /** Copies `n` bytes, one at a time, from `offset` bytes back: an overlapping copy repeats itself. */
  function CopyMatch(h: seq<byte>, offset: int, n: nat): (r: seq<byte>)
    requires 1 <= offset <= |h|
    ensures |r| == |h| + n
    decreases n
  {
    if n == 0 then h else CopyMatch(h + [h[|h| - offset]], offset, n - 1)
  }

  /** `r` extends `h` by bytes that each repeat the byte `offset` places earlier. */
  ghost predicate Repeats(h: seq<byte>, offset: int, r: seq<byte>) {
    && 1 <= offset <= |h| <= |r|
    && h == r[..|h|]
    && forall i :: |h| <= i < |r| ==> r[i] == r[i - offset]
  }

  lemma {:induction false} RepeatsIsCopyMatch(h: seq<byte>, offset: int, r: seq<byte>)
    requires 1 <= offset <= |h| <= |r|
    ensures Repeats(h, offset, r) <==> r == CopyMatch(h, offset, |r| - |h|)
    decreases |r| - |h|
  {
    if |r| == |h| {
    } else {
      var h' := h + [h[|h| - offset]];
      RepeatsIsCopyMatch(h', offset, r);
      if Repeats(h, offset, r) {
        assert r[|h|] == r[|h| - offset] == h[|h| - offset];
        assert r[..|h'|] == h';
      }
      if Repeats(h', offset, r) {
        assert r[..|h|] == h'[..|h|] == h;
        assert r[|h|] == h'[|h|];
      }
    }
  }

  /** The first position at or after `i` that does not hold 255, or the end of `s`. */
  function RunEnd(s: seq<byte>, i: nat): (j: nat)
    requires i <= |s|
    ensures i <= j <= |s|
    ensures forall k :: i <= k < j ==> s[k] == 255
    ensures j < |s| ==> s[j] != 255
    decreases |s| - i
  {
    if i < |s| && s[i] == 255 then RunEnd(s, i + 1) else i
  }

  datatype Length = Unterminated | TooLong | Length(value: nat, next: nat)

  /**
   A length field whose 4-bit part is `nibble` and whose optional bytes, if any, start at `i`.
   Optional bytes that add up to more than a 32-bit counter holds are set apart.
   */
  function ReadLength(s: seq<byte>, nibble: nat, i: nat): (r: Length)
    requires i <= |s| && nibble <= 15
    ensures r.Length? ==> i <= r.next <= |s|
  {
    if nibble < 15 then Length(nibble, i)
    else
      var j := RunEnd(s, i);
      var sum := 255 * (j - i) + if j < |s| then s[j] else 0;
      if sum >= U32_SIZE then TooLong
      else if j == |s| then Unterminated
      else Length(15 + sum, j + 1)
  }

  /** One sequence: its literals `[litStart, litEnd)`, and its match unless the block ends there. */
  datatype Sequence =
    | Broken
    | Overlong
    | Last(litStart: nat, litEnd: nat)
    | Match(litStart: nat, litEnd: nat, offset: nat, length: nat, next: nat)

  function ReadSequence(s: seq<byte>, i: nat): (r: Sequence)
    ensures r.Last? ==> i < r.litStart <= r.litEnd == |s|
    ensures r.Match? ==> i < r.litStart <= r.litEnd && r.litEnd + 2 <= r.next <= |s|
    ensures r.Match? ==> r.offset <= DISTANCE_MAX && MINMATCH <= r.length
  {
    if i >= |s| then Broken
    else
      match ReadLength(s, s[i] / 16, i + 1)
      case Unterminated => Broken
      case TooLong => Overlong
      case Length(litLen, a) =>
        var b := a + litLen;
        if b > |s| then Broken
        else if b == |s| then Last(a, b)
        else if b + 2 > |s| then Broken
        else ReadMatch(s, a, b, s[i] % 16)
  }

  /** The match that follows the literals `[a, b)`. */
  function ReadMatch(s: seq<byte>, a: nat, b: nat, nibble: nat): (r: Sequence)
    requires a <= b && b + 2 <= |s| && nibble <= 15
  {
    match ReadLength(s, nibble, b + 2)
    case Unterminated => Broken
    case TooLong => Overlong
    case Length(ml, next) => Match(a, b, Le16(s, b), ml + MINMATCH, next)
  }

  /**
   What a block means. `Unspecified` marks blocks the format does not allow but on which a decoder
   may still answer: a match of offset 0, or a length that a 32-bit counter cannot hold.
   */
  datatype Outcome = Output(bytes: seq<byte>) | Malformed | Unspecified

  /** The reference decoder, started at position `i` of `s` after `h` has been produced. */
  function Decode(s: seq<byte>, i: nat, h: seq<byte>): (r: Outcome)
    decreases |s| - i, 0
  {
    match ReadSequence(s, i)
    case Broken => Malformed
    case Overlong => Unspecified
    case Last(a, b) => Output(h + s[a..b])
    case Match(a, b, offset, m, next) => DecodeMatch(s, h + s[a..b], offset, m, next)
  }

  /** The reference decoder, between the literals of a sequence and its match. */
  function DecodeMatch(s: seq<byte>, h: seq<byte>, offset: nat, m: nat, next: nat): (r: Outcome)
    requires next <= |s|
    decreases |s| - next, 1
  {
    if offset == 0 then Unspecified
    else if offset > |h| then Malformed
    else Decode(s, next, CopyMatch(h, offset, m))
  }

  /** How many bytes the sequences from `i` on produce. */
  function OutputSize(s: seq<byte>, i: nat): (n: nat)
    decreases |s| - i
  {
    match ReadSequence(s, i)
    case Broken => 0
    case Overlong => 0
    case Last(a, b) => b - a
    case Match(a, b, _, m, next) => (b - a) + m + OutputSize(s, next)
  }

  /** The end-of-block restrictions: 5 trailing literals, and no match starts in the last 12 bytes. */
  predicate EndConditions(s: seq<byte>, i: nat)
    decreases |s| - i
  {
    match ReadSequence(s, i)
    case Broken => false
    case Overlong => false
    case Last(_, _) => true
    case Match(_, _, _, m, next) =>
      && LASTLITERALS <= OutputSize(s, next)
      && MFLIMIT <= m + OutputSize(s, next)
      && EndConditions(s, next)
  }

  /** A decoded block starts with the history and has the size that its sequences announce. */
  lemma {:induction false} DecodeExtends(s: seq<byte>, i: nat, h: seq<byte>)
    requires Decode(s, i, h).Output?
    ensures h <= Decode(s, i, h).bytes
    ensures |Decode(s, i, h).bytes| == |h| + OutputSize(s, i)
    decreases |s| - i
  {
    match ReadSequence(s, i)
    case Last(a, b) =>
    case Match(a, b, offset, m, next) =>
      var h' := h + s[a..b];
      var h'' := CopyMatch(h', offset, m);
      RepeatsIsCopyMatch(h', offset, h'');
      DecodeExtends(s, next, h'');
      assert h == h'[..|h|] == h''[..|h|];
  }

  /** Decoding does not depend on history that lies in front of what the block refers to. */
  lemma {:induction false} DecodeIgnoresOlderHistory(s: seq<byte>, i: nat, older: seq<byte>, h: seq<byte>)
    requires Decode(s, i, h).Output?
    ensures Decode(s, i, older + h) == Output(older + Decode(s, i, h).bytes)
    decreases |s| - i
  {
    match ReadSequence(s, i)
    case Last(a, b) =>
      assert older + h + s[a..b] == older + (h + s[a..b]);
    case Match(a, b, offset, m, next) =>
      var h' := h + s[a..b];
      assert older + h + s[a..b] == older + h';
      CopyBehindHistory(older, h', offset, m);
      DecodeIgnoresOlderHistory(s, next, older, CopyMatch(h', offset, m));
  }

  /** With a full window of history, what lies in front of it changes nothing at all. */
  lemma {:induction false} DecodeWindow(s: seq<byte>, i: nat, older: seq<byte>, h: seq<byte>)
    requires DISTANCE_MAX <= |h|
    ensures match Decode(s, i, h)
            case Output(r) => Decode(s, i, older + h) == Output(older + r)
            case Malformed => Decode(s, i, older + h) == Malformed
            case Unspecified => Decode(s, i, older + h) == Unspecified
    decreases |s| - i
  {
    if Decode(s, i, h).Output? {
      DecodeIgnoresOlderHistory(s, i, older, h);
    } else {
      var q := ReadSequence(s, i);
      if q.Match? && q.offset != 0 {
        var h' := h + s[q.litStart..q.litEnd];
        var h'' := CopyMatch(h', q.offset, q.length);
        assert older + h + s[q.litStart..q.litEnd] == older + h';
        CopyBehindHistory(older, h', q.offset, q.length);
        DecodeWindow(s, q.next, older, h'');
        assert Decode(s, i, h) == Decode(s, q.next, h'');
        assert Decode(s, i, older + h) == Decode(s, q.next, older + h'');
      } else {
        assert Decode(s, i, older + h) == Decode(s, i, h);
      }
    }
  }

  lemma CopyBehindHistory(older: seq<byte>, h: seq<byte>, offset: int, m: nat)
    requires 1 <= offset <= |h|
    ensures CopyMatch(older + h, offset, m) == older + CopyMatch(h, offset, m)
  {
    var h' := CopyMatch(h, offset, m);
    var r := older + h';
    RepeatsIsCopyMatch(h, offset, h');
    assert r[..|older + h|] == older + h;
    forall k | |older + h| <= k < |r| ensures r[k] == r[k - offset] {
      assert r[k] == h'[k - |older|] == h'[k - |older| - offset];
    }
    RepeatsIsCopyMatch(older + h, offset, r);
  }

  /** After a match, a block that meets the end conditions still holds a token and five literals. */
  lemma {:induction false} EndConditionsInput(s: seq<byte>, i: nat)
    requires EndConditions(s, i)
    requires LASTLITERALS <= OutputSize(s, i)
    ensures i + 1 + LASTLITERALS <= |s|
    decreases |s| - i
  {
    match ReadSequence(s, i)
    case Last(a, b) =>
    case Match(a, b, _, m, next) => EndConditionsInput(s, next);
  }
}
