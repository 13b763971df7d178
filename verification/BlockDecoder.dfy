/**
 LZ4_decompress_generic with `endOnInputSize`: the decoder behind every LZ4_decompress_safe_*
 function, with its fast loop, its safe loop and all their shortcuts. Each labelled part of the
 function is a method; jumping to a label is calling that method.
 */
module BlockDecoder {
  import opened Bytes
  import opened BlockFormat
  import opened FastCopy

  const FASTLOOP_SAFE_DISTANCE := 64
  const MATCH_SAFEGUARD_DISTANCE := 2 * WILDCOPYLENGTH - MINMATCH

  datatype DictMode = NoDict | WithPrefix64k | UsingExtDict

  /**
   The arguments of one call. `dest`, `oend` and `lowPrefix` index the output buffer; `dict` is the
   external dictionary, which the output does not overlap.
   */
  datatype Job = Job(src: seq<byte>, dest: int, oend: int, lowPrefix: int, dict: seq<byte>,
                     mode: DictMode, partial: bool)
  {
    predicate Fits(capacity: int) {
      && 0 <= dest <= oend <= capacity
      && oend - dest <= INT_MAX && |src| <= INT_MAX
      && lowPrefix <= dest
      && (if mode == WithPrefix64k then lowPrefix == dest - 64 * KB && 64 * KB - 1 <= dest else 0 <= lowPrefix)
      && (mode != UsingExtDict ==> dict == [])
    }

    /** The first byte of the prefix that exists. */
    function Base(): int { Max(lowPrefix, 0) }

    /** Everything a match at `op` can refer to, as one flat text. */
    ghost function History(a: seq<byte>, op: int): (h: seq<byte>)
      requires Base() <= op <= |a|
    {
      dict + a[Base()..op]
    }
  }

  datatype Status = Continue | Finished | Error

  // ----- What holds at each label, for a block that means `g` -----

  /** Soundness: unless the meaning is unspecified, what is left of the block still means `g`. */
  ghost predicate AtSequence(j: Job, g: Outcome, ip: nat, h: seq<byte>) {
    j.partial || g.Unspecified? || Decode(j.src, ip, h) == g
  }

  ghost predicate AtMatch(j: Job, g: Outcome, ip: nat, h: seq<byte>, offset: nat, length: nat)
    requires ip <= |j.src|
  {
    j.partial || g.Unspecified? || DecodeMatch(j.src, h, offset, length, ip) == g
  }

  ghost predicate AtEnd(j: Job, g: Outcome, h: seq<byte>) {
    j.partial || g.Unspecified? || g == Output(h)
  }

  /** Completeness: a block that must be accepted is still on its way to `g`. */
  ghost predicate Conforms(j: Job, g: Outcome, ip: nat, op: int, h: seq<byte>) {
    && g.Output? && EndConditions(j.src, ip) && h <= g.bytes
    && ((j.partial && op == j.oend) || Decode(j.src, ip, h) == g)
    && (j.partial || |g.bytes| - |h| <= j.oend - op)
  }

  ghost predicate ConformsAtMatch(j: Job, g: Outcome, ip: nat, op: int, h: seq<byte>, offset: nat, length: nat)
    requires ip <= |j.src|
  {
    && g.Output? && DecodeMatch(j.src, h, offset, length, ip) == g
    && EndConditions(j.src, ip)
    && LASTLITERALS <= OutputSize(j.src, ip) && MFLIMIT <= length + OutputSize(j.src, ip)
    && (j.partial || |g.bytes| - |h| <= j.oend - op)
  }

  ghost predicate ConformsAtEnd(j: Job, g: Outcome, op: int, h: seq<byte>) {
    && g.Output? && h <= g.bytes
    && (h == g.bytes || (j.partial && op == j.oend))
  }

  /** Partial decoding makes no claim about blocks that do not conform. */
  lemma PartialClaimsNothing(j: Job, g: Outcome, ip: nat, h: seq<byte>, nibble: nat)
    requires j.partial
    ensures AtSequence(j, g, ip, h) && AtEnd(j, g, h)
    ensures ip + 2 <= |j.src| && nibble <= 15 ==> AtOffset(j, g, ip, h, nibble)
  {
  }

  /** The history after new bytes have been written at `op`. */
  lemma HistoryGrows(j: Job, a: seq<byte>, b: seq<byte>, op: int, added: seq<byte>)
    requires j.Base() <= op && op + |added| <= |a| == |b|
    requires forall i :: 0 <= i < op ==> a[i] == b[i]
    requires b[op..op + |added|] == added
    ensures j.History(b, op + |added|) == j.History(a, op) + added
  {
    assert b[j.Base()..op + |added|] == a[j.Base()..op] + added;
  }

  // ----- Reading lengths -----

  datatype LengthError = NoError | InitialError | LoopError

  lemma AddUp(sum: nat, n: nat)
    ensures (sum % U32_SIZE + n) % U32_SIZE == (sum + n) % U32_SIZE
  {
    var q := sum / U32_SIZE;
    assert sum + n == U32_SIZE * q + (sum % U32_SIZE + n);
  }

  /** read_variable_length, whose sum is a 32-bit counter. */
  method ReadVariableLength(src: seq<byte>, ip0: nat, lencheck: int, initialCheck: bool)
    returns (length: nat, ip: nat, error: LengthError)
    requires ip0 <= |src| && lencheck <= |src| && (initialCheck || ip0 < |src|)
    ensures error.InitialError? <==> initialCheck && ip0 >= lencheck
    ensures error.InitialError? ==> ip == ip0
    ensures !error.InitialError? ==> ip0 < ip <= |src| && (error.LoopError? <==> ip >= lencheck)
    ensures !error.InitialError? && src[ip - 1] != 255 ==>
              ip == RunEnd(src, ip0) + 1 && length == (255 * (ip - 1 - ip0) + src[ip - 1]) % U32_SIZE
    ensures !error.InitialError? && src[ip - 1] == 255 ==>
              error.LoopError? && ip <= RunEnd(src, ip0) && length == 255 * (ip - ip0) % U32_SIZE
  {
    length, ip := 0, ip0;
    if initialCheck && ip >= lencheck { return length, ip, InitialError; }
    while true
      invariant ip0 <= ip < |src| && (ip == ip0 || ip < lencheck)
      invariant RunEnd(src, ip0) == RunEnd(src, ip)
      invariant length == 255 * (ip - ip0) % U32_SIZE
      decreases |src| - ip
    {
      var s := src[ip];
      AddUp(255 * (ip - ip0), s);
      ip := ip + 1;
      length := (length + s) % U32_SIZE;
      if ip >= lencheck { return length, ip, LoopError; }
      if s != 255 { return length, ip, NoError; }
    }
  }

  // ----- Copying a match -----

  /** A match copied by any method that repeats takes the block one sequence further. */
  lemma MatchCopied(j: Job, g: Outcome, ip: nat, op: int, h: seq<byte>, offset: nat, length: nat, r: seq<byte>)
    requires ip <= |j.src| && |r| == |h| + length
    requires 1 <= offset <= |h| ==> Repeats(h, offset, r)
    requires offset <= |h|
    ensures AtMatch(j, g, ip, h, offset, length) ==> AtSequence(j, g, ip, r)
    ensures ConformsAtMatch(j, g, ip, op, h, offset, length) ==> Conforms(j, g, ip, op + length, r)
  {
    if offset != 0 { RepeatsIsCopyMatch(h, offset, r); }
    if ConformsAtMatch(j, g, ip, op, h, offset, length) { DecodeExtends(j.src, ip, r); }
  }

  /** In partial decoding a match may be cut short where the output ends. */
  lemma MatchCut(j: Job, g: Outcome, ip: nat, op: int, h: seq<byte>, offset: nat, length: nat, r: seq<byte>)
    requires ip <= |j.src| && |h| <= |r| <= |h| + length
    requires 1 <= offset <= |h| ==> Repeats(h, offset, r)
    requires j.partial && op + (|r| - |h|) == j.oend
    requires ConformsAtMatch(j, g, ip, op, h, offset, length)
    ensures Conforms(j, g, ip, j.oend, r) && ConformsAtEnd(j, g, j.oend, r)
  {
    var full := CopyMatch(h, offset, length);
    RepeatsIsCopyMatch(h, offset, full);
    RepeatsIsCopyMatch(h, offset, full[..|r|]);
    RepeatsIsCopyMatch(h, offset, r);
    DecodeExtends(j.src, ip, full);
  }

  /** Goes on with a match from `m`, stopping wild copies short of the output's end. */
  method CopyNearEnd(dst: array<byte>, op0: int, m0: int, cpy: int, oend: int)
    requires 0 <= m0 && m0 + 8 <= op0 && op0 <= oend - MINMATCH && cpy <= oend - LASTLITERALS && oend <= dst.Length
    modifies dst
    ensures Repeated(dst[..], op0, cpy, op0 - m0)
    ensures forall i :: 0 <= i < dst.Length && !(op0 <= i < oend) ==> dst[i] == old(dst[i])
  {
    var op, m := op0, m0;
    var oCopyLimit := oend - (WILDCOPYLENGTH - 1);
    if op < oCopyLimit {
      WildCopy8(dst, op, m, oCopyLimit);
      m := m + (oCopyLimit - op);
      op := oCopyLimit;
    }
    ghost var wild := dst[..];
    if op < cpy { CopyBytes(dst, op, cpy, op - m); }
    assert forall i :: 0 <= i < op ==> dst[..][i] == wild[i];
  }

  /** Goes on with a match from `m` where a wild copy cannot leave the output. */
  method CopyFar(dst: array<byte>, op: int, m: int, length: nat, cpy: int, oend: int)
    requires 0 <= m && m + 8 <= op && cpy == op - 8 + length && cpy <= oend - MATCH_SAFEGUARD_DISTANCE && oend <= dst.Length
    requires MINMATCH <= length
    modifies dst
    ensures Repeated(dst[..], op, cpy, op - m)
    ensures forall i :: 0 <= i < dst.Length && !(op <= i < oend) ==> dst[i] == old(dst[i])
  {
    Memcpy(dst, op, m, 8);
    ghost var sixteen := dst[..];
    if length > 16 { WildCopy8(dst, op + 8, m + 8, cpy); }
    assert forall i :: 0 <= i < op + 8 ==> dst[..][i] == sixteen[i];
  }

  /** The end of the safe loop: a match within the block, with the stricter copy near the output's end. */
  method MatchInBlock(dst: array<byte>, op: int, offset: nat, length: nat, oend: int) returns (ok: bool)
    requires offset <= op && MINMATCH <= length && op + MFLIMIT <= oend <= dst.Length
    modifies dst
    ensures ok <==> op + length <= oend - LASTLITERALS
    ensures ok && offset >= 1 ==> Repeated(dst[..], op, op + length, offset)
    ensures forall i :: 0 <= i < dst.Length && !(op <= i < oend) ==> dst[i] == old(dst[i])
  {
    var cpy := op + length;
    var m := CopyFirst8(dst, op, offset);
    ghost var first := dst[..];
    if cpy > oend - MATCH_SAFEGUARD_DISTANCE {
      if cpy > oend - LASTLITERALS { return false; }
      CopyNearEnd(dst, op + 8, m, cpy, oend);
    } else {
      CopyFar(dst, op + 8, m, length, cpy, oend);
    }
    assert forall i :: 0 <= i < op + 8 ==> dst[..][i] == first[i];
    if offset >= 1 {
      assert Repeated(dst[..], op, op + 8, offset);
      LongerStride(dst[..], op, op + 8, cpy, offset, Periods(offset));
    }
    ok := true;
  }

  /** Each byte of `[lo, hi)` repeats the one `offset` before it, which may lie in the dictionary. */
  ghost predicate DictRepeated(dict: seq<byte>, a: seq<byte>, lowPrefix: int, lo: int, hi: int, offset: nat)
    requires 0 <= lowPrefix <= lo && hi <= |a| && lowPrefix <= lo - offset + |dict|
  {
    && (forall i :: lo <= i < hi && i - offset < lowPrefix ==> a[i] == dict[|dict| + (i - offset - lowPrefix)])
    && (forall i :: lo <= i < hi && lowPrefix <= i - offset ==> a[i] == a[i - offset])
  }

  /** A match that starts in the external dictionary, and may stretch into the prefix. */
  method MatchFromDict(dict: seq<byte>, dst: array<byte>, lowPrefix: int, op0: int, offset: nat, length: nat)
    requires 0 <= lowPrefix <= op0 && op0 + length <= dst.Length
    requires op0 - offset < lowPrefix <= op0 - offset + |dict|
    modifies dst
    ensures DictRepeated(dict, dst[..], lowPrefix, op0, op0 + length, offset)
    ensures forall i :: 0 <= i < dst.Length && !(op0 <= i < op0 + length) ==> dst[i] == old(dst[i])
  {
    var op := op0;
    var copySize := lowPrefix - (op - offset);
    var dictEnd := |dict|;
    if length <= copySize {
      MemcpyFrom(dst, op, dict, dictEnd - copySize, length);
      forall i | op0 <= i < op0 + length ensures dst[i] == dict[|dict| + (i - offset - lowPrefix)] {
        assert dictEnd - copySize + (i - op) == |dict| + (i - offset - lowPrefix);
      }
    } else {
      var restSize := length - copySize;
      MemcpyFrom(dst, op, dict, dictEnd - copySize, copySize);
      op := op + copySize;
      ghost var fromDict := dst[..];
      if restSize > op - lowPrefix {
        CopyBytes(dst, op, op + restSize, op - lowPrefix);
      } else {
        Memcpy(dst, op, lowPrefix, restSize);
      }
      assert forall i :: 0 <= i < op ==> dst[..][i] == fromDict[i];
      forall i | op <= i < op0 + length ensures dst[i] == dst[i - offset] {
        assert op - lowPrefix == offset;
        assert dst[..][i] == dst[..][i - offset];
      }
    }
  }

  /** What `MatchFromDict` says about the history. */
  lemma DictMatchInHistory(j: Job, a: seq<byte>, b: seq<byte>, op: int, cpy: int, offset: nat)
    requires 0 <= j.lowPrefix <= op <= cpy <= |a| == |b|
    requires op - offset < j.lowPrefix <= op - offset + |j.dict|
    requires forall i :: 0 <= i < op ==> a[i] == b[i]
    requires DictRepeated(j.dict, b, j.lowPrefix, op, cpy, offset)
    ensures Repeats(j.History(a, op), offset, j.History(b, cpy))
  {
    var h, r := j.History(a, op), j.History(b, cpy);
    var low, d := j.lowPrefix, |j.dict|;
    assert r == j.dict + b[low..cpy] && h == j.dict + a[low..op];
    assert r[..|h|] == h;
    forall k | |h| <= k < |r| ensures r[k] == r[k - offset] {
      var i := k - d + low;
      assert op <= i < cpy && r[k] == b[i];
      if i - offset >= low {
        assert b[i] == b[i - offset];
        assert r[k - offset] == b[low..cpy][k - offset - d] == b[i - offset];
      } else {
        assert b[i] == j.dict[d + (i - offset - low)];
        assert k - offset == d + (i - offset - low);
        assert r[k - offset] == j.dict[k - offset];
      }
    }
  }

  /** What `Repeated` in the buffer says about the history. */
  lemma RepeatedInHistory(j: Job, a: seq<byte>, b: seq<byte>, op: int, cpy: int, offset: nat)
    requires j.Base() <= op <= cpy <= |a| == |b|
    requires 1 <= offset <= op - j.Base()
    requires forall i :: 0 <= i < op ==> a[i] == b[i]
    requires Repeated(b, op, cpy, offset)
    ensures Repeats(j.History(a, op), offset, j.History(b, cpy))
  {
    var h, r := j.History(a, op), j.History(b, cpy);
    assert r[..|h|] == h;
    forall k | |h| <= k < |r| ensures r[k] == r[k - offset] {
      var i := k - |j.dict| + j.Base();
      assert r[k] == b[i] && r[k - offset] == b[i - offset];
    }
  }

  /** `safe_match_copy`, for a match that starts in the external dictionary. */
  method DictMatchCopy(j: Job, dst: array<byte>, ip: nat, op0: int, offset: nat, length0: nat,
                       ghost g: Outcome, ghost conforming: bool)
    returns (status: Status, op: int)
    requires j.Fits(dst.Length) && ip <= |j.src| && j.mode == UsingExtDict
    requires j.dest <= op0 <= j.oend && op0 - offset < j.lowPrefix <= op0 - offset + |j.dict|
    requires AtMatch(j, g, ip, j.History(dst[..], op0), offset, length0)
    requires conforming ==> ConformsAtMatch(j, g, ip, op0, j.History(dst[..], op0), offset, length0)
    modifies dst
    ensures op0 <= op <= j.oend
    ensures forall i :: 0 <= i < dst.Length && !(op0 <= i < j.oend) ==> dst[i] == old(dst[i])
    ensures !status.Finished? && op <= op0 + length0 && (conforming ==> status.Continue?)
    ensures status.Continue? ==> AtSequence(j, g, ip, j.History(dst[..], op))
    ensures status.Continue? && conforming ==> Conforms(j, g, ip, op, j.History(dst[..], op))
  {
    op := op0;
    ghost var a, h := dst[..], j.History(dst[..], op);
    var length := length0;
    if conforming { ConformingMatchFits(j, g, ip, op, h, offset, length); }
    if op + length > j.oend - LASTLITERALS {
      if !j.partial { return Error, op; }
      length := Min(length, j.oend - op);
    }
    MatchFromDict(j.dict, dst, j.lowPrefix, op, offset, length);
    op := op + length;
    DictMatchInHistory(j, a, dst[..], op0, op, offset);
    if length == length0 {
      MatchCopied(j, g, ip, op0, h, offset, length, j.History(dst[..], op));
    } else if conforming {
      MatchCut(j, g, ip, op0, h, offset, length0, j.History(dst[..], op));
    }
    return Continue, op;
  }

  /** `safe_match_copy`, for a match that partial decoding may have to cut. */
  method PartialMatchCopy(j: Job, dst: array<byte>, ip: nat, op0: int, offset: nat, length0: nat,
                          ghost g: Outcome, ghost conforming: bool)
    returns (status: Status, op: int)
    requires j.Fits(dst.Length) && ip <= |j.src| && j.partial
    requires j.dest <= op0 <= j.oend && offset <= op0 - j.Base()
    requires conforming ==> ConformsAtMatch(j, g, ip, op0, j.History(dst[..], op0), offset, length0)
    modifies dst
    ensures op0 <= op <= j.oend
    ensures forall i :: 0 <= i < dst.Length && !(op0 <= i < j.oend) ==> dst[i] == old(dst[i])
    ensures !status.Error? && (status.Finished? ==> op == j.oend)
    ensures status.Continue? && conforming ==> Conforms(j, g, ip, op, j.History(dst[..], op))
    ensures status.Finished? && conforming ==> ConformsAtEnd(j, g, op, j.History(dst[..], op))
  {
    op := op0;
    ghost var a, h := dst[..], j.History(dst[..], op);
    var mlen := Min(length0, j.oend - op);
    CopyBytes(dst, op, op + mlen, offset);
    op := op + mlen;
    if offset >= 1 { RepeatedInHistory(j, a, dst[..], op0, op, offset); }
    if mlen == length0 {
      MatchCopied(j, g, ip, op0, h, offset, mlen, j.History(dst[..], op));
    } else if conforming {
      MatchCut(j, g, ip, op0, h, offset, length0, j.History(dst[..], op));
    }
    status := if op == j.oend then Finished else Continue;
  }

  /** A conforming match has an offset within the history, and stops short of the last literals. */
  lemma ConformingMatchFits(j: Job, g: Outcome, ip: nat, op: int, h: seq<byte>, offset: nat, length: nat)
    requires ip <= |j.src|
    requires ConformsAtMatch(j, g, ip, op, h, offset, length)
    ensures 1 <= offset <= |h|
    ensures j.partial || op + length + LASTLITERALS <= j.oend
    ensures j.partial || op + MFLIMIT <= j.oend
  {
    var r := CopyMatch(h, offset, length);
    DecodeExtends(j.src, ip, r);
  }

  /** From `safe_match_copy` to the end of the iteration. */
  method SafeMatchCopy(j: Job, dst: array<byte>, ip: nat, op0: int, offset: nat, length: nat,
                       ghost g: Outcome, ghost conforming: bool)
    returns (status: Status, op: int)
    requires j.Fits(dst.Length) && ip <= |j.src| && offset <= DISTANCE_MAX && MINMATCH <= length
    requires j.dest <= op0 <= j.oend && (j.partial || op0 + MFLIMIT <= j.oend)
    requires AtMatch(j, g, ip, j.History(dst[..], op0), offset, length)
    requires conforming ==> ConformsAtMatch(j, g, ip, op0, j.History(dst[..], op0), offset, length)
    modifies dst
    ensures op0 <= op <= j.oend
    ensures forall i :: 0 <= i < dst.Length && !(op0 <= i < j.oend) ==> dst[i] == old(dst[i])
    ensures status.Error? ==> !conforming
    ensures status.Continue? ==> AtSequence(j, g, ip, j.History(dst[..], op))
    ensures status.Continue? && conforming ==> Conforms(j, g, ip, op, j.History(dst[..], op))
    ensures status.Finished? ==> j.partial && op == j.oend
    ensures status.Finished? && conforming ==> ConformsAtEnd(j, g, op, j.History(dst[..], op))
  {
    op := op0;
    ghost var a, h := dst[..], j.History(dst[..], op);
    if conforming { ConformingMatchFits(j, g, ip, op, h, offset, length); }
    var m := op - offset;
    var checkOffset := |j.dict| < 64 * KB;
    if checkOffset && m + |j.dict| < j.lowPrefix { return Error, op; }
    if j.mode == UsingExtDict && m < j.lowPrefix {
      status, op := DictMatchCopy(j, dst, ip, op, offset, length, g, conforming);
      return;
    }
    var cpy := op + length;
    if j.partial && cpy > j.oend - MATCH_SAFEGUARD_DISTANCE {
      status, op := PartialMatchCopy(j, dst, ip, op, offset, length, g, conforming);
      return;
    }
    var ok := MatchInBlock(dst, op, offset, length, j.oend);
    if !ok { return Error, op; }
    op := cpy;
    if offset >= 1 { RepeatedInHistory(j, a, dst[..], op0, op, offset); }
    MatchCopied(j, g, ip, op0, h, offset, length, j.History(dst[..], op));
    return Continue, op;
  }

  // ----- Between the literals and the match -----

  /** What a block means from the offset at `b` on, when `h` has been produced. */
  function DecodeFromOffset(s: seq<byte>, h: seq<byte>, b: nat, nibble: nat): (r: Outcome)
    requires b + 2 <= |s| && nibble <= 15
  {
    match ReadLength(s, nibble, b + 2)
    case Unterminated => Malformed
    case TooLong => Unspecified
    case Length(ml, next) => DecodeMatch(s, h, Le16(s, b), ml + MINMATCH, next)
  }

  ghost predicate AtOffset(j: Job, g: Outcome, b: nat, h: seq<byte>, nibble: nat)
    requires b + 2 <= |j.src| && nibble <= 15
  {
    j.partial || g.Unspecified? || DecodeFromOffset(j.src, h, b, nibble) == g
  }

  ghost predicate ConformsAtOffset(j: Job, g: Outcome, b: nat, op: int, h: seq<byte>, nibble: nat)
    requires b + 2 <= |j.src| && nibble <= 15
  {
    match ReadLength(j.src, nibble, b + 2)
    case Unterminated => false
    case TooLong => false
    case Length(ml, next) => ConformsAtMatch(j, g, next, op, h, Le16(j.src, b), ml + MINMATCH)
  }

  /** The length of a match; an error only if fewer than five bytes would be left after it. */
  method ReadMatchLength(src: seq<byte>, nibble: nat, ip0: nat) returns (ok: bool, length: nat, ip: nat)
    requires nibble <= 15 && ip0 < |src|
    ensures ip0 <= ip <= |src| && MINMATCH <= length
    ensures nibble < ML_MASK ==> ok && length == nibble + MINMATCH && ip == ip0
    ensures ok ==> ip < |src| && ReadLength(src, nibble, ip0) in {Length(length - MINMATCH, ip), TooLong}
    ensures !ok && ReadLength(src, nibble, ip0).Length? ==> ReadLength(src, nibble, ip0).next + LASTLITERALS > |src|
  {
    length, ip := nibble, ip0;
    if length == ML_MASK {
      var more, error;
      more, ip, error := ReadVariableLength(src, ip, |src| - LASTLITERALS + 1, false);
      length := length + more;
      if !error.NoError? { return false, MINMATCH, ip; }
    }
    return true, length + MINMATCH, ip;
  }

  /** A match length that was read takes a block from the offset to the match. */
  lemma MatchLengthRead(j: Job, g: Outcome, b: nat, op: int, h: seq<byte>, nibble: nat, length: nat, ip: nat)
    requires b + 2 <= |j.src| && nibble <= 15 && MINMATCH <= length && ip <= |j.src|
    requires ReadLength(j.src, nibble, b + 2) in {Length(length - MINMATCH, ip), TooLong}
    ensures AtOffset(j, g, b, h, nibble) ==> AtMatch(j, g, ip, h, Le16(j.src, b), length)
    ensures ConformsAtOffset(j, g, b, op, h, nibble) ==> ConformsAtMatch(j, g, ip, op, h, Le16(j.src, b), length)
  {
    hide DecodeMatch, EndConditions, OutputSize;
  }

  lemma ConformingMatchLength(j: Job, g: Outcome, b: nat, op: int, h: seq<byte>, nibble: nat)
    requires b + 2 <= |j.src| && nibble <= 15
    requires ConformsAtOffset(j, g, b, op, h, nibble)
    ensures ReadLength(j.src, nibble, b + 2).Length?
    ensures ReadLength(j.src, nibble, b + 2).next + 1 + LASTLITERALS <= |j.src|
  {
    EndConditionsInput(j.src, ReadLength(j.src, nibble, b + 2).next);
  }

  /** From "get offset" on, which is where `_copy_match` is reached from. `b` stands at the offset. */
  method CopyMatchFrom(j: Job, dst: array<byte>, b: nat, op0: int, nibble: nat,
                       ghost g: Outcome, ghost conforming: bool)
    returns (status: Status, ip: nat, op: int)
    requires j.Fits(dst.Length) && nibble <= 15 && b + 2 < |j.src|
    requires j.dest <= op0 <= j.oend && (j.partial || op0 + MFLIMIT <= j.oend)
    requires AtOffset(j, g, b, j.History(dst[..], op0), nibble)
    requires conforming ==> ConformsAtOffset(j, g, b, op0, j.History(dst[..], op0), nibble)
    modifies dst
    ensures op0 <= op <= j.oend && b < ip <= |j.src|
    ensures forall i :: 0 <= i < dst.Length && !(op0 <= i < j.oend) ==> dst[i] == old(dst[i])
    ensures status.Error? ==> !conforming
    ensures status.Continue? ==> ip < |j.src| && AtSequence(j, g, ip, j.History(dst[..], op))
    ensures status.Continue? && conforming ==> Conforms(j, g, ip, op, j.History(dst[..], op))
    ensures status.Finished? ==> j.partial && op == j.oend
    ensures status.Finished? && conforming ==> ConformsAtEnd(j, g, op, j.History(dst[..], op))
  {
    hide AtSequence, AtEnd, AtOffset, AtMatch, Conforms, ConformsAtEnd, ConformsAtOffset, ConformsAtMatch, ReadLength;
    op := op0;
    var offset := Le16(j.src, b);
    ip := b + 2;
    var ok, length;
    ok, length, ip := ReadMatchLength(j.src, nibble, ip);
    ghost var h := j.History(dst[..], op);
    if conforming { ConformingMatchLength(j, g, b, op, h, nibble); }
    if !ok { return Error, ip, op; }
    MatchLengthRead(j, g, b, op, h, nibble, length, ip);
    status, op := SafeMatchCopy(j, dst, ip, op, offset, length, g, conforming);
  }

  // ----- Literals -----

  /** `length` and `ip` are what the literal length of the sequence at `i` says, or give it away as broken. */
  ghost predicate LiteralsRead(s: seq<byte>, i: nat, ip: nat, length: nat)
    requires i < |s|
  {
    || ReadLength(s, s[i] / 16, i + 1) == Length(length, ip)
    || ReadSequence(s, i).Overlong?
    || (ReadSequence(s, i).Broken? && ip + length > |s|)
  }

  method ReadLiteralLength(src: seq<byte>, i: nat) returns (ok: bool, length: nat, ip: nat)
    requires i < |src|
    ensures i < ip <= |src|
    ensures src[i] / 16 < RUN_MASK ==> ok && length == src[i] / 16 && ip == i + 1
    ensures ok ==> LiteralsRead(src, i, ip, length)
    ensures !ok ==> !EndConditions(src, i)
  {
    length, ip := src[i] / 16, i + 1;
    if length == RUN_MASK {
      var more, error;
      more, ip, error := ReadVariableLength(src, ip, |src| - RUN_MASK, true);
      if error.InitialError? { return false, length, ip; }
      length := length + more;
    }
    return true, length, ip;
  }

  /** Copied literals take a block to its end or to an offset. */
  lemma LiteralsCopied(j: Job, g: Outcome, i: nat, ip: nat, op: int, h: seq<byte>, length: nat, r: seq<byte>)
    requires i < |j.src| && i < ip && ip + length <= |j.src| && r == h + j.src[ip..ip + length]
    requires LiteralsRead(j.src, i, ip, length)
    ensures ip + length == |j.src| && AtSequence(j, g, i, h) ==> AtEnd(j, g, r)
    ensures ip + length + 2 <= |j.src| && AtSequence(j, g, i, h) ==> AtOffset(j, g, ip + length, r, j.src[i] % 16)
  {
  }

  /** What the sequence at `i` is, once its literal length has been read. */
  lemma SequenceAfterLiterals(s: seq<byte>, i: nat, ip: nat, length: nat)
    requires i < |s| && LiteralsRead(s, i, ip, length)
    requires !ReadSequence(s, i).Broken? && !ReadSequence(s, i).Overlong?
    ensures i < ip && ip + length <= |s|
    ensures ip + length == |s| ==> ReadSequence(s, i) == Last(ip, ip + length)
    ensures ip + length < |s| ==>
              ip + length + 2 <= |s| && ReadSequence(s, i) == ReadMatch(s, ip, ip + length, s[i] % 16)
  {
  }

  /** A sequence of a conforming block is the last one, or leaves room for an offset and what must follow. */
  lemma ConformingSequence(s: seq<byte>, i: nat, ip: nat, length: nat)
    requires i < |s| && LiteralsRead(s, i, ip, length)
    requires EndConditions(s, i)
    ensures i < ip && (ip + length == |s| || ip + length + 2 + 1 + LASTLITERALS <= |s|)
    ensures ip + length == |s| ==> ReadSequence(s, i) == Last(ip, ip + length)
    ensures ip + length < |s| ==>
              && ReadSequence(s, i) == ReadMatch(s, ip, ip + length, s[i] % 16)
              && var q := ReadSequence(s, i);
                 && q.Match? && EndConditions(s, q.next)
                 && LASTLITERALS <= OutputSize(s, q.next) && MFLIMIT <= q.length + OutputSize(s, q.next)
  {
    var q := ReadSequence(s, i);
    SequenceAfterLiterals(s, i, ip, length);
    hide LiteralsRead, ReadSequence;
    if q.Match? { EndConditionsInput(s, q.next); }
  }

  /** What a conforming block guarantees about the literals it comes to. */
  lemma ConformingLiterals(j: Job, g: Outcome, i: nat, ip: nat, op: int, h: seq<byte>, length: nat)
    requires i < |j.src| && LiteralsRead(j.src, i, ip, length)
    requires Conforms(j, g, i, op, h)
    ensures ip + length == |j.src| || ip + length + 2 + 1 + LASTLITERALS <= |j.src|
    ensures j.partial || op + length + (if ip + length == |j.src| then 0 else MFLIMIT) <= j.oend
  {
    ConformingSequence(j.src, i, ip, length);
    if !j.partial { DecodeExtends(j.src, i, h); }
  }

  /** Before a match, what has been produced is a prefix of the result. */
  lemma BeforeMatch(s: seq<byte>, g: Outcome, h: seq<byte>, offset: nat, m: nat, next: nat)
    requires next <= |s| && g.Output? && DecodeMatch(s, h, offset, m, next) == g
    ensures h <= g.bytes
  {
    var r := CopyMatch(h, offset, m);
    RepeatsIsCopyMatch(h, offset, r);
    DecodeExtends(s, next, r);
  }

  /** A conforming block at an offset. */
  lemma OffsetConforms(j: Job, g: Outcome, a: nat, b: nat, op: int, r: seq<byte>, nibble: nat)
    requires a <= b && b + 2 <= |j.src| && nibble <= 15 && g.Output?
    requires ReadMatch(j.src, a, b, nibble).Match?
    requires var q := ReadMatch(j.src, a, b, nibble);
             && q.next <= |j.src| && DecodeMatch(j.src, r, q.offset, q.length, q.next) == g
             && EndConditions(j.src, q.next)
             && LASTLITERALS <= OutputSize(j.src, q.next) && MFLIMIT <= q.length + OutputSize(j.src, q.next)
    requires j.partial || |g.bytes| - |r| <= j.oend - op
    ensures ConformsAtOffset(j, g, b, op, r, nibble) && r <= g.bytes
  {
    hide EndConditions, OutputSize, DecodeMatch;
    var q := ReadMatch(j.src, a, b, nibble);
    BeforeMatch(j.src, g, r, q.offset, q.length, q.next);
  }

  lemma ConformingLiteralsCopied(j: Job, g: Outcome, i: nat, ip: nat, op: int, h: seq<byte>, length: nat, r: seq<byte>)
    requires i < |j.src| && LiteralsRead(j.src, i, ip, length)
    requires Conforms(j, g, i, op, h) && (op < j.oend || !j.partial)
    requires ip + length <= |j.src| ==> r == h + j.src[ip..ip + length]
    ensures ip + length <= |j.src|
    ensures ip + length == |j.src| ==> r == g.bytes
    ensures ip + length < |j.src| ==>
              && ip + length + 2 <= |j.src|
              && r <= g.bytes
              && ConformsAtOffset(j, g, ip + length, op + length, r, j.src[i] % 16)
  {
    hide EndConditions, OutputSize, ReadLength, LiteralsRead, ReadSequence, ConformsAtOffset;
    ConformingSequence(j.src, i, ip, length);
    if ip + length < |j.src| {
      assert Decode(j.src, i, h) == g;
      hide DecodeMatch;
      OffsetConforms(j, g, ip, ip + length, op + length, r, j.src[i] % 16);
    }
  }

  /** Literals that stop at the end of the input or of the output leave a conforming block on its way. */
  lemma NearEndCopied(j: Job, g: Outcome, i: nat, ip: nat, op: int, h: seq<byte>, length0: nat, length: nat, r: seq<byte>)
    requires i < |j.src| && i < ip <= |j.src| && op <= j.oend && LiteralsRead(j.src, i, ip, length0)
    requires Conforms(j, g, i, op, h)
    requires if j.partial then length == Min(length0, Min(|j.src| - ip, j.oend - op))
             else length == length0 && ip + length == |j.src| && op + length <= j.oend
    requires r == h + j.src[ip..ip + length]
    ensures !j.partial || op + length == j.oend || ip + length >= |j.src| - 2 ==>
              ConformsAtEnd(j, g, op + length, r)
    ensures !(!j.partial || op + length == j.oend || ip + length >= |j.src| - 2) ==>
              ConformsAtOffset(j, g, ip + length, op + length, r, j.src[i] % 16)
  {
    hide Decode, EndConditions, LiteralsRead, ConformsAtOffset;
    if j.partial && op == j.oend {
      assert r == h;
    } else {
      hide Conforms;
      ConformingLiterals(j, g, i, ip, op, h, length0);
      var full := h + j.src[ip..ip + length0];
      ConformingLiteralsCopied(j, g, i, ip, op, h, length0, full);
      assert r <= full;
      if length == length0 { assert r == full; }
    }
  }

  /** The literals of a sequence close to the end of the input or of the output. */
  method LiteralsNearEnd(j: Job, dst: array<byte>, i: nat, ip0: nat, op0: int, length0: nat,
                         ghost g: Outcome, ghost conforming: bool)
    returns (status: Status, ip: nat, op: int)
    requires j.Fits(dst.Length) && i < ip0 <= |j.src| && j.dest <= op0 <= j.oend
    requires LiteralsRead(j.src, i, ip0, length0)
    requires AtSequence(j, g, i, j.History(dst[..], op0))
    requires conforming ==> Conforms(j, g, i, op0, j.History(dst[..], op0))
    requires op0 + length0 > j.oend - MFLIMIT || ip0 + length0 > |j.src| - (2 + 1 + LASTLITERALS)
    modifies dst
    ensures op0 <= op <= j.oend && ip0 <= ip <= |j.src|
    ensures forall k :: 0 <= k < dst.Length && !(op0 <= k < j.oend) ==> dst[k] == old(dst[k])
    ensures status.Error? ==> !conforming
    ensures status.Continue? ==> j.partial && ip + 2 < |j.src| && AtOffset(j, g, ip, j.History(dst[..], op), j.src[i] % 16)
    ensures status.Continue? && conforming ==>
              ConformsAtOffset(j, g, ip, op, j.History(dst[..], op), j.src[i] % 16)
    ensures status.Finished? ==> AtEnd(j, g, j.History(dst[..], op))
    ensures status.Finished? && conforming ==> ConformsAtEnd(j, g, op, j.History(dst[..], op))
  {
    hide AtSequence, AtEnd, AtOffset, AtMatch, Conforms, ConformsAtEnd, ConformsAtOffset, ConformsAtMatch, LiteralsRead, Decode, ReadSequence;
    ip, op := ip0, op0;
    var iend := |j.src|;
    ghost var a, h := dst[..], j.History(dst[..], op);
    var length := length0;
    var cpy := op + length;
    if conforming { ConformingLiterals(j, g, i, ip, op, h, length); }
    if j.partial {
      if ip + length > iend {
        length := iend - ip;
        cpy := op + length;
      }
      if cpy > j.oend {
        cpy := j.oend;
        length := j.oend - op;
      }
    } else if ip + length != iend || cpy > j.oend {
      return Error, ip, op;
    }
    MemcpyFrom(dst, op, j.src, ip, length);
    ghost var r := j.History(dst[..], op + length);
    HistoryGrows(j, a, dst[..], op, j.src[ip..ip + length]);
    if j.partial {
      PartialClaimsNothing(j, g, ip + length, r, j.src[i] % 16);
    } else {
      LiteralsCopied(j, g, i, ip, op, h, length, r);
    }
    if conforming { NearEndCopied(j, g, i, ip, op, h, length0, length, r); }
    ip := ip + length;
    op := op + length;
    if !j.partial || cpy == j.oend || ip >= iend - 2 { return Finished, ip, op; }
    return Continue, ip, op;
  }

  /** From `safe_literal_copy` on. `i` is the position of the token. */
  method SafeLiteralCopy(j: Job, dst: array<byte>, i: nat, ip0: nat, op0: int, length: nat,
                         ghost g: Outcome, ghost conforming: bool)
    returns (status: Status, ip: nat, op: int)
    requires j.Fits(dst.Length) && i < ip0 <= |j.src| && j.dest <= op0 <= j.oend
    requires LiteralsRead(j.src, i, ip0, length)
    requires AtSequence(j, g, i, j.History(dst[..], op0))
    requires conforming ==> Conforms(j, g, i, op0, j.History(dst[..], op0))
    modifies dst
    ensures op0 <= op <= j.oend && i < ip <= |j.src|
    ensures forall k :: 0 <= k < dst.Length && !(op0 <= k < j.oend) ==> dst[k] == old(dst[k])
    ensures status.Error? ==> !conforming
    ensures status.Continue? ==> ip < |j.src| && AtSequence(j, g, ip, j.History(dst[..], op))
    ensures status.Continue? && conforming ==> Conforms(j, g, ip, op, j.History(dst[..], op))
    ensures status.Finished? ==> AtEnd(j, g, j.History(dst[..], op))
    ensures status.Finished? && conforming ==> ConformsAtEnd(j, g, op, j.History(dst[..], op))
  {
    hide AtSequence, AtEnd, AtOffset, AtMatch, Conforms, ConformsAtEnd, ConformsAtOffset, ConformsAtMatch, LiteralsRead, Decode, ReadSequence;
    ip, op := ip0, op0;
    ghost var a, h := dst[..], j.History(dst[..], op);
    var iend := |j.src|;
    var cpy := op + length;
    if cpy > j.oend - MFLIMIT || ip + length > iend - (2 + 1 + LASTLITERALS) {
      status, ip, op := LiteralsNearEnd(j, dst, i, ip, op, length, g, conforming);
      if !status.Continue? { return; }
    } else {
      WildCopy8From(dst, op, j.src, ip, cpy);
      ghost var r := j.History(dst[..], cpy);
      HistoryGrows(j, a, dst[..], op, j.src[ip..ip + length]);
      LiteralsCopied(j, g, i, ip, op, h, length, r);
      if conforming { ConformingLiteralsCopied(j, g, i, ip, op, h, length, r); }
      ip, op := ip + length, cpy;
    }
    assert forall k :: 0 <= k < dst.Length && !(op0 <= k < j.oend) ==> dst[k] == old(dst[k]);
    status, ip, op := CopyMatchFrom(j, dst, ip, op, j.src[i] % 16, g, conforming);
    if status.Finished? { PartialClaimsNothing(j, g, ip, j.History(dst[..], op), 0); }
  }

  // ----- The two loops -----

  /** Literals copied well before the end of the input leave the block at an offset. */
  lemma LiteralsLeadToOffset(j: Job, g: Outcome, i: nat, ip: nat, op: int, h: seq<byte>, length: nat,
                             a: seq<byte>, b: seq<byte>, conforming: bool)
    requires i < |j.src| && i < ip && ip + length + 2 <= |j.src| && LiteralsRead(j.src, i, ip, length)
    requires j.Base() <= op && op + length <= |a| == |b| && (op < j.oend || !j.partial)
    requires h == j.History(a, op) && AtSequence(j, g, i, h) && (conforming ==> Conforms(j, g, i, op, h))
    requires forall k :: 0 <= k < op ==> a[k] == b[k]
    requires b[op..op + length] == j.src[ip..ip + length]
    ensures AtOffset(j, g, ip + length, j.History(b, op + length), j.src[i] % 16)
    ensures conforming ==> ConformsAtOffset(j, g, ip + length, op + length, j.History(b, op + length), j.src[i] % 16)
  {
    var r := j.History(b, op + length);
    HistoryGrows(j, a, b, op, j.src[ip..ip + length]);
    LiteralsCopied(j, g, i, ip, op, h, length, r);
    if conforming { ConformingLiteralsCopied(j, g, i, ip, op, h, length, r); }
  }

  /** One match of at most 18 bytes at an offset of at least 8, within the prefix and the block. */
  method ShortcutMatch(j: Job, dst: array<byte>, b: nat, op0: int, nibble: nat,
                       ghost g: Outcome, ghost conforming: bool)
    returns (op: int)
    requires j.Fits(dst.Length) && nibble < ML_MASK && b + 2 < |j.src|
    requires j.dest <= op0 && op0 + 18 <= j.oend && 8 <= Le16(j.src, b) <= op0 - j.Base()
    requires AtOffset(j, g, b, j.History(dst[..], op0), nibble)
    requires conforming ==> ConformsAtOffset(j, g, b, op0, j.History(dst[..], op0), nibble)
    modifies dst
    ensures op == op0 + nibble + MINMATCH
    ensures forall i :: 0 <= i < dst.Length && !(op0 <= i < j.oend) ==> dst[i] == old(dst[i])
    ensures AtSequence(j, g, b + 2, j.History(dst[..], op))
    ensures conforming ==> Conforms(j, g, b + 2, op, j.History(dst[..], op))
  {
    hide AtSequence, AtOffset, AtMatch, Conforms, ConformsAtOffset, ConformsAtMatch;
    ghost var a, h := dst[..], j.History(dst[..], op0);
    var offset := Le16(j.src, b);
    MatchLengthRead(j, g, b, op0, h, nibble, nibble + MINMATCH, b + 2);
    CopyEighteen(dst, op0, offset);
    op := op0 + nibble + MINMATCH;
    assert Repeated(dst[..], op0, op, offset);
    RepeatedInHistory(j, a, dst[..], op0, op, offset);
    MatchCopied(j, g, b + 2, op0, h, offset, nibble + MINMATCH, j.History(dst[..], op));
  }

  /** A sequence whose literals fit into 16 bytes, far enough from both ends. */
  method ShortSequence(j: Job, dst: array<byte>, i: nat, op0: int, token: int, ghost g: Outcome, ghost conforming: bool)
    returns (status: Status, ip: nat, op: int)
    requires j.Fits(dst.Length) && i < |j.src| && j.dest <= op0 <= j.oend
    requires AtSequence(j, g, i, j.History(dst[..], op0)) == true
    requires conforming ==> Conforms(j, g, i, op0, j.History(dst[..], op0)) == true
    requires token == j.src[i] && token / 16 != RUN_MASK && i + 1 < |j.src| - 14 - 2 && op0 <= j.oend - 14 - 18
    modifies dst
    ensures op0 <= op <= j.oend && i < ip <= |j.src|
    ensures forall k :: 0 <= k < dst.Length && !(op0 <= k < j.oend) ==> dst[k] == old(dst[k])
    ensures status.Error? ==> !conforming
    ensures status.Continue? ==> ip < |j.src| && AtSequence(j, g, ip, j.History(dst[..], op)) == true
    ensures status.Continue? && conforming ==> Conforms(j, g, ip, op, j.History(dst[..], op)) == true
    ensures status.Finished? ==> AtEnd(j, g, j.History(dst[..], op)) == true
    ensures status.Finished? && conforming ==> ConformsAtEnd(j, g, op, j.History(dst[..], op)) == true
  {
    hide AtSequence, AtEnd, AtOffset, AtMatch, Conforms, ConformsAtEnd, ConformsAtOffset, ConformsAtMatch, Decode, ReadSequence;
    ip, op := i + 1, op0;
    ghost var a, h := dst[..], j.History(dst[..], op);
    var length: nat := token / 16;
    assert LiteralsRead(j.src, i, ip, length);
    hide LiteralsRead;
    MemcpyFrom(dst, op, j.src, ip, 16);
    CopiedSlice(dst[..], op, j.src, ip, length);
    LiteralsLeadToOffset(j, g, i, ip, op, h, length, a, dst[..], conforming);
    op, ip := op + length, ip + length;
    var nibble := token % 16;
    var offset := Le16(j.src, ip);
    if nibble != ML_MASK && offset >= 8 && (j.mode == WithPrefix64k || op - offset >= j.lowPrefix) {
      op := ShortcutMatch(j, dst, ip, op, nibble, g, conforming);
      return Continue, ip + 2, op;
    }
    status, ip, op := CopyMatchFrom(j, dst, ip, op, nibble, g, conforming);
    if status.Finished? { PartialClaimsNothing(j, g, ip, j.History(dst[..], op), 0); }
  }

  /** One iteration of the safe loop. */
  method SafeSequence(j: Job, dst: array<byte>, i: nat, op0: int, ghost g: Outcome, ghost conforming: bool)
    returns (status: Status, ip: nat, op: int)
    requires j.Fits(dst.Length) && i < |j.src| && j.dest <= op0 <= j.oend
    requires AtSequence(j, g, i, j.History(dst[..], op0))
    requires conforming ==> Conforms(j, g, i, op0, j.History(dst[..], op0))
    modifies dst
    ensures op0 <= op <= j.oend && i < ip <= |j.src|
    ensures forall k :: 0 <= k < dst.Length && !(op0 <= k < j.oend) ==> dst[k] == old(dst[k])
    ensures status.Error? ==> !conforming
    ensures status.Continue? ==> ip < |j.src| && AtSequence(j, g, ip, j.History(dst[..], op))
    ensures status.Continue? && conforming ==> Conforms(j, g, ip, op, j.History(dst[..], op))
    ensures status.Finished? ==> AtEnd(j, g, j.History(dst[..], op))
    ensures status.Finished? && conforming ==> ConformsAtEnd(j, g, op, j.History(dst[..], op))
  {
    hide AtSequence, AtEnd, AtOffset, AtMatch, Conforms, ConformsAtEnd, ConformsAtOffset, ConformsAtMatch, Decode, ReadSequence;
    ip, op := i, op0;
    ghost var h := j.History(dst[..], op);
    var iend := |j.src|;
    var shortiend := iend - 14 - 2;
    var shortoend := j.oend - 14 - 18;
    var token := j.src[ip];
    ip := ip + 1;
    var length: nat := token / 16;
    if length != RUN_MASK && ip < shortiend && op <= shortoend {
      status, ip, op := ShortSequence(j, dst, i, op, token, g, conforming);
      return;
    }
    var ok;
    ok, length, ip := ReadLiteralLength(j.src, i);
    if !ok {
      ConformsMeetsEndConditions(j, g, i, op, h);
      return Error, ip, op;
    }
    hide LiteralsRead;
    status, ip, op := SafeLiteralCopy(j, dst, i, ip, op, length, g, conforming);
  }

  lemma ConformsMeetsEndConditions(j: Job, g: Outcome, i: nat, op: int, h: seq<byte>)
    ensures Conforms(j, g, i, op, h) ==> EndConditions(j.src, i) && i < |j.src|
  {
  }

  lemma ConformingOffset(j: Job, g: Outcome, b: nat, op: int, h: seq<byte>, nibble: nat)
    requires b + 2 <= |j.src| && nibble <= 15
    requires ConformsAtOffset(j, g, b, op, h, nibble)
    ensures 1 <= Le16(j.src, b) <= |h|
  {
    ConformingMatchLength(j, g, b, op, h, nibble);
    var length := ReadLength(j.src, nibble, b + 2);
    ConformingMatchFits(j, g, length.next, op, h, Le16(j.src, b), length.value + MINMATCH);
  }

  /** The end of a fast iteration: a match that stays 64 bytes away from the end of the output. */
  method FastMatchCopy(j: Job, dst: array<byte>, ip: nat, op0: int, offset: nat, length: nat,
                       ghost g: Outcome, ghost conforming: bool)
    returns (status: Status, op: int)
    requires j.Fits(dst.Length) && ip <= |j.src| && offset <= DISTANCE_MAX && MINMATCH <= length
    requires j.dest <= op0 && op0 + length < j.oend - FASTLOOP_SAFE_DISTANCE
    requires AtMatch(j, g, ip, j.History(dst[..], op0), offset, length)
    requires conforming ==> ConformsAtMatch(j, g, ip, op0, j.History(dst[..], op0), offset, length)
    modifies dst
    ensures op0 <= op < j.oend - FASTLOOP_SAFE_DISTANCE && !status.Finished?
    ensures forall i :: 0 <= i < dst.Length && !(op0 <= i < j.oend) ==> dst[i] == old(dst[i])
    ensures status.Error? ==> !conforming
    ensures status.Continue? ==> AtSequence(j, g, ip, j.History(dst[..], op))
    ensures status.Continue? && conforming ==> Conforms(j, g, ip, op, j.History(dst[..], op))
  {
    hide AtSequence, AtMatch, Conforms, ConformsAtMatch;
    op := op0;
    ghost var a, h := dst[..], j.History(dst[..], op);
    if conforming { ConformingMatchFits(j, g, ip, op, h, offset, length); }
    var m := op - offset;
    var checkOffset := |j.dict| < 64 * KB;
    if checkOffset && m + |j.dict| < j.lowPrefix { return Error, op; }
    if j.mode == UsingExtDict && m < j.lowPrefix {
      status, op := DictMatchCopy(j, dst, ip, op, offset, length, g, conforming);
      return;
    }
    var cpy := op + length;
    if offset < 16 {
      MemcpyUsingOffset(dst, op, cpy, offset);
    } else {
      WildCopy32(dst, op, m, cpy);
    }
    op := cpy;
    if offset >= 1 { RepeatedInHistory(j, a, dst[..], op0, op, offset); }
    MatchCopied(j, g, ip, op0, h, offset, length, j.History(dst[..], op));
    return Continue, op;
  }

  /** One iteration of the fast loop; `safe` tells that it has jumped into the safe loop. */
  method FastSequence(j: Job, dst: array<byte>, i: nat, op0: int, ghost g: Outcome, ghost conforming: bool)
    returns (status: Status, safe: bool, ip: nat, op: int)
    requires j.Fits(dst.Length) && i < |j.src| && j.dest <= op0 && op0 + FASTLOOP_SAFE_DISTANCE <= j.oend
    requires AtSequence(j, g, i, j.History(dst[..], op0))
    requires conforming ==> Conforms(j, g, i, op0, j.History(dst[..], op0))
    modifies dst
    ensures op0 <= op <= j.oend && i < ip <= |j.src|
    ensures status.Continue? && !safe ==> op + FASTLOOP_SAFE_DISTANCE <= j.oend
    ensures forall k :: 0 <= k < dst.Length && !(op0 <= k < j.oend) ==> dst[k] == old(dst[k])
    ensures status.Error? ==> !conforming
    ensures status.Continue? ==> ip < |j.src| && AtSequence(j, g, ip, j.History(dst[..], op))
    ensures status.Continue? && conforming ==> Conforms(j, g, ip, op, j.History(dst[..], op))
    ensures status.Finished? ==> AtEnd(j, g, j.History(dst[..], op))
    ensures status.Finished? && conforming ==> ConformsAtEnd(j, g, op, j.History(dst[..], op))
  {
    hide AtSequence, AtEnd, AtOffset, AtMatch, Conforms, ConformsAtEnd, ConformsAtOffset, ConformsAtMatch, Decode, ReadSequence, LiteralsRead;
    op, safe := op0, true;
    var iend := |j.src|;
    ghost var a, h := dst[..], j.History(dst[..], op);
    var ok, length;
    ok, length, ip := ReadLiteralLength(j.src, i);
    if !ok {
      ConformsMeetsEndConditions(j, g, i, op, h);
      status := Error;
      return;
    }
    var cpy := op + length;
    if j.src[i] / 16 == RUN_MASK {
      if cpy > j.oend - 32 || ip + length > iend - 32 {
        status, ip, op := SafeLiteralCopy(j, dst, i, ip, op, length, g, conforming);
        return;
      }
      WildCopy32From(dst, op, j.src, ip, cpy);
      CopiedSlice(dst[..], op, j.src, ip, length);
    } else {
      if ip > iend - (16 + 1) {
        status, ip, op := SafeLiteralCopy(j, dst, i, ip, op, length, g, conforming);
        return;
      }
      MemcpyFrom(dst, op, j.src, ip, 16);
      CopiedSlice(dst[..], op, j.src, ip, length);
    }
    LiteralsLeadToOffset(j, g, i, ip, op, h, length, a, dst[..], conforming);
    ip, op := ip + length, cpy;
    status, safe, ip, op := FastMatch(j, dst, ip, op, j.src[i] % 16, g, conforming);
    if status.Finished? { PartialClaimsNothing(j, g, ip, j.History(dst[..], op), 0); }
  }

  /** The fast loop from "get offset" on. */
  method FastMatch(j: Job, dst: array<byte>, b: nat, op0: int, nibble: nat,
                   ghost g: Outcome, ghost conforming: bool)
    returns (status: Status, safe: bool, ip: nat, op: int)
    requires j.Fits(dst.Length) && nibble <= 15 && b + 2 < |j.src|
    requires j.dest <= op0 && op0 + 32 <= j.oend
    requires AtOffset(j, g, b, j.History(dst[..], op0), nibble)
    requires conforming ==> ConformsAtOffset(j, g, b, op0, j.History(dst[..], op0), nibble)
    modifies dst
    ensures op0 <= op <= j.oend && b < ip <= |j.src|
    ensures status.Continue? && !safe ==> op + FASTLOOP_SAFE_DISTANCE <= j.oend
    ensures forall k :: 0 <= k < dst.Length && !(op0 <= k < j.oend) ==> dst[k] == old(dst[k])
    ensures status.Error? ==> !conforming
    ensures status.Continue? ==> ip < |j.src| && AtSequence(j, g, ip, j.History(dst[..], op))
    ensures status.Continue? && conforming ==> Conforms(j, g, ip, op, j.History(dst[..], op))
    ensures status.Finished? ==> j.partial && op == j.oend
    ensures status.Finished? && conforming ==> ConformsAtEnd(j, g, op, j.History(dst[..], op))
  {
    hide AtSequence, AtEnd, AtOffset, AtMatch, Conforms, ConformsAtEnd, ConformsAtOffset, ConformsAtMatch, Decode, ReadLength;
    op, safe := op0, true;
    ghost var h := j.History(dst[..], op);
    var offset := Le16(j.src, b);
    var m := op - offset;
    if conforming {
      ConformingOffset(j, g, b, op, h, nibble);
      ConformingMatchLength(j, g, b, op, h, nibble);
    }
    var checkOffset := |j.dict| < 64 * KB;
    if nibble == ML_MASK && checkOffset && m + |j.dict| < j.lowPrefix { return Error, safe, b + 2, op; }
    var ok, length;
    ok, length, ip := ReadMatchLength(j.src, nibble, b + 2);
    if !ok {
      status := Error;
      return;
    }
    MatchLengthRead(j, g, b, op, h, nibble, length, ip);
    if op + length >= j.oend - FASTLOOP_SAFE_DISTANCE {
      status, op := SafeMatchCopy(j, dst, ip, op, offset, length, g, conforming);
      return;
    }
    safe := false;
    if nibble != ML_MASK && (j.mode == WithPrefix64k || m >= j.lowPrefix) && offset >= 8 {
      op := ShortcutMatch(j, dst, b, op, nibble, g, conforming);
      return Continue, safe, ip, op;
    }
    status, op := FastMatchCopy(j, dst, ip, op, offset, length, g, conforming);
  }

  // ----- LZ4_decompress_generic -----

  /** What the format says the block means, with all the history the call may refer to. */
  ghost function Meaning(j: Job, a: seq<byte>): Outcome
    requires j.Fits(|a|)
  {
    Decode(j.src, 0, j.History(a, j.dest))
  }

  /** How many bytes a block that means `g` produces behind the history. */
  ghost function Produced(j: Job, g: Outcome): int
    requires j.Fits(j.oend) && g.Output?
  {
    |g.bytes| - |j.dict| - (j.dest - j.Base())
  }

  lemma MeaningExtends(j: Job, a: seq<byte>)
    requires j.Fits(|a|)
    ensures var g := Meaning(j, a);
            g.Output? ==> j.History(a, j.dest) <= g.bytes && Produced(j, g) == OutputSize(j.src, 0)
  {
    hide Decode, OutputSize;
    if Meaning(j, a).Output? { DecodeExtends(j.src, 0, j.History(a, j.dest)); }
  }

  lemma Started(j: Job, a: seq<byte>, conforming: bool)
    requires j.Fits(|a|)
    requires var g := Meaning(j, a);
             conforming ==> g.Output? && EndConditions(j.src, 0) && (j.partial || Produced(j, g) <= j.oend - j.dest)
    ensures AtSequence(j, Meaning(j, a), 0, j.History(a, j.dest))
    ensures conforming ==> Conforms(j, Meaning(j, a), 0, j.dest, j.History(a, j.dest))
  {
    MeaningExtends(j, a);
    hide Decode, EndConditions, OutputSize;
  }

  lemma Ended(j: Job, a: seq<byte>, op: int, r: seq<byte>, conforming: bool)
    requires j.Fits(|a|) && j.dest <= op <= j.oend && |r| == |j.dict| + op - j.Base()
    requires var g := Meaning(j, a);
             AtEnd(j, g, r) && (conforming ==> ConformsAtEnd(j, g, op, r))
    ensures !j.partial ==> Meaning(j, a) in {Unspecified, Output(r)}
    ensures var g := Meaning(j, a);
            conforming ==> op - j.dest == Min(j.oend - j.dest, Produced(j, g)) && r <= g.bytes
  {
    hide Decode;
  }

  /** The fast loop as long as the output leaves room for it, then the safe loop. */
  method RunLoops(j: Job, dst: array<byte>, ghost g: Outcome, ghost conforming: bool)
    returns (status: Status, ip: nat, op: int)
    requires j.Fits(dst.Length) && 0 < |j.src|
    requires AtSequence(j, g, 0, j.History(dst[..], j.dest))
    requires conforming ==> Conforms(j, g, 0, j.dest, j.History(dst[..], j.dest))
    modifies dst
    ensures j.dest <= op <= j.oend
    ensures forall k :: 0 <= k < dst.Length && !(j.dest <= k < j.oend) ==> dst[k] == old(dst[k])
    ensures !status.Continue? && (status.Error? ==> !conforming)
    ensures status.Finished? ==> AtEnd(j, g, j.History(dst[..], op))
    ensures status.Finished? && conforming ==> ConformsAtEnd(j, g, op, j.History(dst[..], op))
  {
    hide AtSequence, AtEnd, Conforms, ConformsAtEnd;
    ip, op, status := 0, j.dest, Continue;
    var safe := j.oend - op < FASTLOOP_SAFE_DISTANCE;
    while status.Continue? && !safe
      invariant j.dest <= op <= j.oend && ip <= |j.src|
      invariant status.Continue? && !safe ==> op + FASTLOOP_SAFE_DISTANCE <= j.oend
      invariant forall k :: 0 <= k < dst.Length && !(j.dest <= k < j.oend) ==> dst[k] == old(dst[k])
      invariant status.Error? ==> !conforming
      invariant status.Continue? ==> ip < |j.src| && AtSequence(j, g, ip, j.History(dst[..], op))
      invariant status.Continue? && conforming ==> Conforms(j, g, ip, op, j.History(dst[..], op))
      invariant status.Finished? ==> AtEnd(j, g, j.History(dst[..], op))
      invariant status.Finished? && conforming ==> ConformsAtEnd(j, g, op, j.History(dst[..], op))
      decreases |j.src| - ip
    {
      status, safe, ip, op := FastSequence(j, dst, ip, op, g, conforming);
    }
    while status.Continue?
      invariant j.dest <= op <= j.oend && ip <= |j.src|
      invariant forall k :: 0 <= k < dst.Length && !(j.dest <= k < j.oend) ==> dst[k] == old(dst[k])
      invariant status.Error? ==> !conforming
      invariant status.Continue? ==> ip < |j.src| && AtSequence(j, g, ip, j.History(dst[..], op))
      invariant status.Continue? && conforming ==> Conforms(j, g, ip, op, j.History(dst[..], op))
      invariant status.Finished? ==> AtEnd(j, g, j.History(dst[..], op))
      invariant status.Finished? && conforming ==> ConformsAtEnd(j, g, op, j.History(dst[..], op))
      decreases |j.src| - ip
    {
      status, ip, op := SafeSequence(j, dst, ip, op, g, conforming);
    }
  }

  /**
   Decodes one block. A full decoding that succeeds has produced what the block means; a block that
   respects the end-of-block restrictions and fits is decoded, whatever mixture of prefix and
   external dictionary holds its history; and a partial decoding of it stops at the size asked for.
   */
  method DecompressGeneric(j: Job, dst: array<byte>) returns (result: int)
    requires j.Fits(dst.Length)
    modifies dst
    ensures result <= j.oend - j.dest
    ensures forall i :: 0 <= i < dst.Length && !(j.dest <= i < j.oend) ==> dst[i] == old(dst[i])
    ensures !j.partial && result >= 0 ==>
              Meaning(j, old(dst[..])) in {Unspecified, Output(j.History(dst[..], j.dest + result))}
    ensures var g := Meaning(j, old(dst[..]));
            g.Output? && EndConditions(j.src, 0) ==>
              if j.partial then
                && 0 <= result == Min(j.oend - j.dest, Produced(j, g))
                && j.History(dst[..], j.dest + result) <= g.bytes
              else if Produced(j, g) <= j.oend - j.dest && (j.oend > j.dest || j.src == [0]) then
                result == Produced(j, g)
              else result < 0
  {
    ghost var a := dst[..];
    ghost var g := Meaning(j, a);
    ghost var h := j.History(a, j.dest);
    MeaningExtends(j, a);
    var outputSize := j.oend - j.dest;
    if outputSize == 0 {
      if j.partial { return 0; }
      if |j.src| == 1 && j.src[0] == 0 {
        assert ReadSequence(j.src, 0) == Last(1, 1) && h + j.src[1..1] == h;
        return 0;
      }
      return -1;
    }
    if |j.src| == 0 { return -1; }
    hide Decode, EndConditions, ReadSequence;
    ghost var conforming := g.Output? && EndConditions(j.src, 0) && (j.partial || Produced(j, g) <= outputSize);
    Started(j, a, conforming);
    hide AtSequence, AtEnd, Conforms, ConformsAtEnd;
    var status, ip, op := RunLoops(j, dst, g, conforming);
    if status.Error? { return -1 - (ip as int); }
    Ended(j, a, op, j.History(dst[..], op), conforming);
    return op - j.dest;
  }
}
