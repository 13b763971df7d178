/**
 How LZ4_compress_generic_validated writes a sequence: literals, offset and match length, in its
 three output modes, together with the checks that keep it inside the output.
 */
module SequenceWriter {
  import opened Bytes
  import opened BlockFormat
  import opened BlockEncoding
  import opened FastCopy

  datatype OutputMode = NotLimited | LimitedOutput | FillOutput

  /**
   Written; or there is no room, which ends the call; or the sequence is dropped and last literals
   follow; or the search has come to a position that is in the table already.
   */
  datatype Progress = Written | NoRoom | Rewind | Lost

  /** The `for` loop over 255s that writes the optional bytes of a literal length. */
  method WriteExtension(dst: array<byte>, op0: int, n: nat) returns (op: int)
    requires 0 <= op0 && op0 + |Extension(n)| <= dst.Length
    modifies dst
    ensures op == op0 + |Extension(n)| && dst[op0..op] == Extension(n)
    ensures forall i :: 0 <= i < dst.Length && !(op0 <= i < op) ==> dst[i] == old(dst[i])
  {
    hide Extension;
    op := op0;
    var len := n;
    while len >= 255
      invariant op0 <= op && 0 <= len && op + |Extension(len)| == op0 + |Extension(n)|
      invariant dst[op0..op] + Extension(len) == Extension(n)
      invariant forall i :: 0 <= i < dst.Length && !(op0 <= i < op) ==> dst[i] == old(dst[i])
    {
      ghost var before := dst[op0..op];
      ExtensionStep(len, before);
      dst[op] := 255;
      op, len := op + 1, len - 255;
      assert dst[op0..op] == before + [255];
    }
    ghost var before := dst[op0..op];
    ExtensionEnd(len, before);
    dst[op] := len;
    op := op + 1;
    assert dst[op0..op] == before + [len];
  }

  lemma ExtensionStep(n: nat, before: seq<byte>)
    requires n >= 255
    ensures |Extension(n)| == 1 + |Extension(n - 255)| && before + Extension(n) == before + [255] + Extension(n - 255)
  {
  }

  lemma ExtensionEnd(n: nat, before: seq<byte>)
    requires n < 255
    ensures |Extension(n)| == 1 && before + Extension(n) == before + [n]
  {
  }

  lemma {:induction false} ExtensionAt(n: nat, k: nat)
    requires k < |Extension(n)|
    ensures Extension(n)[k] == if k < n / 255 then 255 else n % 255
    decreases n
  {
    if n >= 255 && k > 0 { ExtensionAt(n - 255, k - 1); }
  }

  /** LZ4_write32 of 0xFFFFFFFF. */
  method WriteOnes(dst: array<byte>, op: int)
    requires 0 <= op && op + 4 <= dst.Length
    modifies dst
    ensures forall i :: op <= i < op + 4 ==> dst[i] == 255
    ensures forall i :: 0 <= i < dst.Length && !(op <= i < op + 4) ==> dst[i] == old(dst[i])
  {
    forall i | op <= i < op + 4 { dst[i] := 255; }
  }

  /** The optional bytes of a match length, written four at a time. */
  method WriteMatchExtension(dst: array<byte>, op0: int, n: nat) returns (op: int)
    requires 0 <= op0 && op0 + |Extension(n)| + 3 <= dst.Length
    modifies dst
    ensures op == op0 + |Extension(n)| && dst[op0..op] == Extension(n)
    ensures forall i :: 0 <= i < dst.Length && !(op0 <= i < op + 3) ==> dst[i] == old(dst[i])
  {
    op := op0;
    var matchCode := n;
    WriteOnes(dst, op);
    while matchCode >= 4 * 255
      invariant op0 <= op && 0 <= matchCode && op + matchCode / 255 == op0 + n / 255 && matchCode % 255 == n % 255
      invariant op + 4 <= dst.Length
      invariant forall i :: op0 <= i < op + 4 ==> dst[i] == 255
      invariant forall i :: 0 <= i < dst.Length && !(op0 <= i < op + 4) ==> dst[i] == old(dst[i])
    {
      op := op + 4;
      WriteOnes(dst, op);
      matchCode := matchCode - 4 * 255;
    }
    op := op + matchCode / 255;
    dst[op] := matchCode % 255;
    op := op + 1;
    forall k | 0 <= k < |Extension(n)| ensures dst[op0 + k] == Extension(n)[k] {
      ExtensionAt(n, k);
    }
    assert dst[op0..op] == Extension(n);
  }

  /** The output of one call, for an input of `n` bytes. */
  datatype Room = Room(mode: OutputMode, dest: int, oend: int, n: nat)
  {
    predicate Fits(length: int) {
      && 0 <= dest <= oend <= length
      && (mode == NotLimited ==> CompressBound(n) <= oend - dest)
    }
  }

  /** `op` has not gone further than sequences for `consumed` bytes and `slack` make it. */
  predicate Budget(w: Room, op: int, consumed: int, slack: int) {
    w.dest <= op && 255 * (op - w.dest) <= 256 * consumed + slack
  }

  /** A token, whose low half is still 0, and the optional bytes of the literal length. */
  method WriteLength(dst: array<byte>, token: int, n: nat) returns (op: int)
    requires 0 <= token && token + 1 + |LengthBytes(n)| <= dst.Length
    modifies dst
    ensures op == token + 1 + |LengthBytes(n)| && dst[token..op] == [Token(n, 0)] + LengthBytes(n)
    ensures forall i :: 0 <= i < dst.Length && !(token <= i < op) ==> dst[i] == old(dst[i])
  {
    op := token + 1;
    if n >= RUN_MASK {
      dst[token] := RUN_MASK * 16;
      op := WriteExtension(dst, op, n - RUN_MASK);
    } else {
      dst[token] := n * 16;
    }
    assert dst[token] == Token(n, 0);
    assert dst[token..op] == [dst[token]] + dst[token + 1..op];
  }

  /** Literals behind their length complete the front part of a sequence. */
  lemma LiteralsComplete(before: seq<byte>, d: seq<byte>, token: int, op: int, literals: seq<byte>)
    requires 0 <= token <= op && op + |literals| <= |d| == |before|
    requires before[token..op] == [Token(|literals|, 0)] + LengthBytes(|literals|)
    requires forall i :: token <= i < op ==> d[i] == before[i]
    requires forall i :: op <= i < op + |literals| ==> d[i] == literals[i - op]
    ensures d[token..op + |literals|] == EncodeLiterals(literals, 0)
  {
    SameSlice(d, before, token, op);
    SplitSlice(d, token, op, op + |literals|);
  }

  /** The literals of a sequence, copied eight bytes at a time and never past `limit`. */
  method PutLiterals(dst: array<byte>, token: int, src: seq<byte>, anchor: int, ip: int, ghost limit: int) returns (op: int)
    requires 0 <= token && 0 <= anchor <= ip && ip + 8 <= |src| && limit <= dst.Length
    requires var n := ip - anchor; token + 1 + |LengthBytes(n)| + Max(8, n + 7) <= limit
    modifies dst
    ensures op == token + |EncodeLiterals(src[anchor..ip], 0)| && dst[token..op] == EncodeLiterals(src[anchor..ip], 0)
    ensures forall i :: 0 <= i < dst.Length && !(token <= i < limit) ==> dst[i] == old(dst[i])
  {
    var litLength := ip - anchor;
    hide LengthBytes, Token;
    op := WriteLength(dst, token, litLength);
    ghost var before := dst[..];
    WildCopy8From(dst, op, src, anchor, op + litLength);
    LiteralsComplete(before, dst[..], token, op, src[anchor..ip]);
    op := op + litLength;
  }

  /** Token, literal length and literals; the low half of the token is still 0. */
  method WriteLiterals(w: Room, dst: array<byte>, op0: int, src: seq<byte>, anchor: int, ip: int, ghost source: int)
    returns (outcome: Progress, op: int)
    requires w.Fits(dst.Length) && 0 <= source <= anchor <= ip && ip + MFLIMIT <= source + w.n <= |src|
    requires w.dest <= op0 <= w.oend && Budget(w, op0, anchor - source, 0)
    modifies dst
    ensures !outcome.Lost?
    ensures forall i :: 0 <= i < dst.Length && !(op0 <= i < w.oend) ==> dst[i] == old(dst[i])
    ensures outcome.NoRoom? ==> w.mode == LimitedOutput && w.oend - w.dest < CompressBound(w.n)
    ensures outcome.NoRoom? ==> w.oend < op0 + |EncodeLiterals(src[anchor..ip], 0)| + 2 + 1 + LASTLITERALS
    ensures outcome.Rewind? ==> w.mode == FillOutput && op == op0
    ensures outcome.Written? ==> op == op0 + |EncodeLiterals(src[anchor..ip], 0)| && op + 5 <= w.oend
    ensures outcome.Written? ==> dst[op0..op] == EncodeLiterals(src[anchor..ip], 0)
    ensures outcome.Written? && w.mode == FillOutput ==> op + 11 <= w.oend
    ensures outcome.Written? ==> Budget(w, op, ip - source, 495)
  {
    var litLength := ip - anchor;
    var token := op0;
    op := op0 + 1;
    LiteralsSize(src[anchor..ip]);
    if w.mode == LimitedOutput && op + litLength + (2 + 1 + LASTLITERALS) + litLength / 255 > w.oend {
      return NoRoom, op;
    }
    if w.mode == FillOutput && op + (litLength + 240) / 255 + litLength + 2 + 1 + MFLIMIT - MINMATCH > w.oend {
      return Rewind, op - 1;
    }
    assert |EncodeLiterals(src[anchor..ip], 0)| == 1 + (litLength + 240) / 255 + litLength;
    op := PutLiterals(dst, token, src, anchor, ip, w.oend);
    return Written, op;
  }

  /** Writes the match length into the token and behind the offset. */
  method WriteMatchLength(dst: array<byte>, token: int, op0: int, matchCode: nat, ghost literals: nat) returns (op: int)
    requires 0 <= token < op0 && op0 + |LengthBytes(matchCode)| + 3 <= dst.Length
    requires dst[token] == Token(literals, 0)
    modifies dst
    ensures op == op0 + |LengthBytes(matchCode)| && dst[op0..op] == LengthBytes(matchCode)
    ensures dst[token] == Token(literals, matchCode)
    ensures forall i :: 0 <= i < dst.Length && i != token && !(op0 <= i < op + 3) ==> dst[i] == old(dst[i])
  {
    op := op0;
    if matchCode >= ML_MASK {
      dst[token] := dst[token] + ML_MASK;
      op := WriteMatchExtension(dst, op, matchCode - ML_MASK);
    } else {
      dst[token] := dst[token] + matchCode;
    }
  }

  /** The bytes that are used of `room`, if not all literals fit: one stays free where the next literal would need another length byte. */
  function UsedOf(room: int): int { if (room - 1) % 256 == 15 then room - 1 else room }

  lemma UsedSize(k: nat)
    ensures var n := k - (k + 241) / 256; 0 <= n && 1 + (if n < 15 then 0 else (n - 15) / 255 + 1) + n == UsedOf(k + 1)
  {
    var q, r := (k + 241) / 256, (k + 241) % 256;
    assert k == 256 * q + r - 241;
    if q > 0 {
      var n := 255 * q + r - 241;
      assert n - 15 == 255 * (q - 1) + (r - 1);
      if r == 0 { assert (n - 15) / 255 == q - 2 || n == 14; } else { assert (n - 15) / 255 == q - 1; }
    }
  }

  /** The last literals; with FillOutput, as many of them as still fit. */
  method WriteLastLiterals(w: Room, dst: array<byte>, op0: int, src: seq<byte>, source: int, anchor: int)
    returns (ok: bool, op: int, lastRun: nat)
    requires w.Fits(dst.Length) && 0 <= source <= anchor <= source + w.n <= |src|
    requires w.dest <= op0 <= w.oend && Budget(w, op0, anchor - source, 0)
    requires w.mode == FillOutput ==> op0 < w.oend
    modifies dst
    ensures forall i :: 0 <= i < dst.Length && !(op0 <= i < w.oend) ==> dst[i] == old(dst[i])
    ensures !ok ==> w.mode == LimitedOutput && w.oend - w.dest < CompressBound(w.n)
    ensures !ok ==> w.oend < op0 + |EncodeLiterals(src[anchor..source + w.n], 0)|
    ensures ok ==> anchor + lastRun <= source + w.n && (w.mode != FillOutput ==> anchor + lastRun == source + w.n)
    ensures ok ==> op == op0 + |EncodeLiterals(src[anchor..anchor + lastRun], 0)| <= w.oend
    ensures ok ==> dst[op0..op] == EncodeLiterals(src[anchor..anchor + lastRun], 0)
    ensures ok && anchor + lastRun < source + w.n ==> lastRun >= Min(w.oend - op0 - 1, 14) && op == op0 + UsedOf(w.oend - op0)
  {
    hide *;
    RoomInside(w, dst.Length);
    ok, lastRun := LastRun(w, op0, source, anchor);
    op := op0;
    LiteralsSize(src[anchor..source + w.n]);
    if ok {
      LiteralsSize(src[anchor..anchor + lastRun]);
      op := PutLastLiterals(dst, op0, src, anchor, lastRun);
    }
  }

  /** How many of the last literals are written. */
  method LastRun(w: Room, op: int, source: int, anchor: int) returns (ok: bool, lastRun: nat)
    requires 0 <= source <= anchor <= source + w.n && w.dest <= op <= w.oend && Budget(w, op, anchor - source, 0)
    requires w.mode == FillOutput ==> op < w.oend
    requires w.mode == NotLimited ==> CompressBound(w.n) <= w.oend - w.dest
    ensures !ok ==> w.mode == LimitedOutput && w.oend - w.dest < CompressBound(w.n)
    ensures !ok ==> var n := source + w.n - anchor; w.oend < op + 1 + (if n < 15 then 0 else (n - 15) / 255 + 1) + n
    ensures ok ==> anchor + lastRun <= source + w.n && (w.mode != FillOutput ==> anchor + lastRun == source + w.n)
    ensures ok ==> op + 1 + (if lastRun < 15 then 0 else (lastRun - 15) / 255 + 1) + lastRun <= w.oend
    ensures ok && anchor + lastRun < source + w.n ==>
      lastRun >= Min(w.oend - op - 1, 14) && 1 + (if lastRun < 15 then 0 else (lastRun - 15) / 255 + 1) + lastRun == UsedOf(w.oend - op)
  {
    lastRun := source + w.n - anchor;
    ok := true;
    if w.mode != NotLimited && op + lastRun + 1 + (lastRun + 255 - RUN_MASK) / 255 > w.oend {
      if w.mode == FillOutput {
        var room := w.oend - op - 1;
        lastRun := room - (room + 256 - RUN_MASK) / 256;
        UsedSize(room);
      } else {
        return false, 0;
      }
    }
  }

  lemma LiteralsSize(literals: seq<byte>)
    ensures |EncodeLiterals(literals, 0)| == 1 + |LengthBytes(|literals|)| + |literals|
    ensures |LengthBytes(|literals|)| == if |literals| < 15 then 0 else (|literals| - 15) / 255 + 1
  {
  }

  lemma RoomInside(w: Room, length: int)
    requires w.Fits(length)
    ensures 0 <= w.dest <= w.oend <= length && (w.mode == NotLimited ==> CompressBound(w.n) <= w.oend - w.dest)
  {
  }

  method PutLastLiterals(dst: array<byte>, op0: int, src: seq<byte>, anchor: int, n: nat) returns (op: int)
    requires 0 <= op0 && 0 <= anchor && anchor + n <= |src| && op0 + 1 + |LengthBytes(n)| + n <= dst.Length
    modifies dst
    ensures op == op0 + 1 + |LengthBytes(n)| + n && dst[op0..op] == EncodeLiterals(src[anchor..anchor + n], 0)
    ensures forall i :: 0 <= i < dst.Length && !(op0 <= i < op) ==> dst[i] == old(dst[i])
  {
    hide LengthBytes, EncodeLiterals, Token;
    op := WriteLength(dst, op0, n);
    ghost var before := dst[..];
    MemcpyFrom(dst, op, src, anchor, n);
    LiteralsComplete(before, dst[..], op0, op, src[anchor..anchor + n]);
    op := op + n;
  }
}
