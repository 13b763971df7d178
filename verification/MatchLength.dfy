/** LZ4_count, and the length of a match that may start in another segment. */
module MatchLength {
  import opened Bytes
  import opened BlockFormat
  import opened MatchFinder

  /** The number of bytes, at most `n`, that agree from `a` and from `b` on. */
  function CommonLength(s: seq<byte>, a: nat, b: nat, n: nat): (r: nat)
    requires a + n <= |s| && b + n <= |s|
    ensures r <= n
    decreases n
  {
    if n == 0 || s[a] != s[b] then 0 else 1 + CommonLength(s, a + 1, b + 1, n - 1)
  }

  /** Equal bytes up to the common length, and then a difference or the limit. */
  lemma {:induction false} CommonLengthMeans(s: seq<byte>, a: nat, b: nat, n: nat)
    requires a + n <= |s| && b + n <= |s|
    ensures var r := CommonLength(s, a, b, n);
            s[a..a + r] == s[b..b + r] && (r < n ==> s[a + r] != s[b + r])
    decreases n
  {
    if n > 0 && s[a] == s[b] {
      CommonLengthMeans(s, a + 1, b + 1, n - 1);
      var r := CommonLength(s, a + 1, b + 1, n - 1);
      assert s[a..a + 1 + r] == [s[a]] + s[a + 1..a + 1 + r];
      assert s[b..b + 1 + r] == [s[b]] + s[b + 1..b + 1 + r];
    }
  }

  /** Only one number of common bytes is followed by a difference or by the limit. */
  lemma {:induction false} CommonLengthUnique(s: seq<byte>, a: nat, b: nat, n: nat, r: nat)
    requires a + n <= |s| && b + n <= |s| && r <= n
    requires s[a..a + r] == s[b..b + r] && (r < n ==> s[a + r] != s[b + r])
    ensures r == CommonLength(s, a, b, n)
    decreases n
  {
    if r > 0 {
      assert s[a] == s[a..a + r][0] == s[b..b + r][0] == s[b];
      SliceOfSlice(s, a, a + r, 1, r);
      SliceOfSlice(s, b, b + r, 1, r);
      CommonLengthUnique(s, a + 1, b + 1, n - 1, r - 1);
    }
  }

  lemma CommonLengthSkips(s: seq<byte>, a: nat, b: nat, n: nat, k: nat)
    requires a + n <= |s| && b + n <= |s| && k <= n && s[a..a + k] == s[b..b + k]
    ensures CommonLength(s, a, b, n) == k + CommonLength(s, a + k, b + k, n - k)
  {
    hide CommonLength;
    var r := CommonLength(s, a + k, b + k, n - k);
    CommonLengthMeans(s, a + k, b + k, n - k);
    EqualOn(s, a, b, k, r);
    CommonLengthUnique(s, a, b, n, k + r);
  }

  lemma EqualOn(s: seq<byte>, a: nat, b: nat, k: nat, r: nat)
    requires a + k + r <= |s| && b + k + r <= |s| && s[a..a + k] == s[b..b + k] && s[a + k..a + k + r] == s[b + k..b + k + r]
    ensures s[a..a + (k + r)] == s[b..b + (k + r)]
  {
    SplitSlice(s, a, a + k, a + k + r);
    SplitSlice(s, b, b + k, b + k + r);
  }

  /**
   LZ4_count: eight bytes at a time, then four, two and one. The position of the first difference
   within eight bytes is what LZ4_NbCommonBytes finds in their exclusive or.
   */
  method Count(s: seq<byte>, pIn0: nat, pMatch0: nat, pInLimit: nat) returns (n: nat)
    requires pIn0 <= pInLimit <= |s| && pMatch0 + (pInLimit - pIn0) <= |s|
    ensures n == CommonLength(s, pMatch0, pIn0, pInLimit - pIn0)
  {
    hide CommonLength;
    var pIn, pMatch := pIn0, pMatch0;
    ghost var total := CommonLength(s, pMatch0, pIn0, pInLimit - pIn0);
    while pIn + 7 < pInLimit
      invariant pIn0 <= pIn <= pInLimit && pMatch - pMatch0 == pIn - pIn0
      invariant total == (pIn - pIn0) + CommonLength(s, pMatch, pIn, pInLimit - pIn)
    {
      if s[pMatch..pMatch + 8] != s[pIn..pIn + 8] {
        n := CommonLength(s, pMatch, pIn, 8);
        CommonLengthMeans(s, pMatch, pIn, 8);
        CommonLengthUnique(s, pMatch, pIn, pInLimit - pIn, n);
        return pIn - pIn0 + n;
      }
      CommonLengthSkips(s, pMatch, pIn, pInLimit - pIn, 8);
      pIn, pMatch := pIn + 8, pMatch + 8;
    }
    pIn, pMatch := CountPart(s, pIn, pMatch, pInLimit, 4, pIn0, total);
    pIn, pMatch := CountPart(s, pIn, pMatch, pInLimit, 2, pIn0, total);
    pIn, pMatch := CountPart(s, pIn, pMatch, pInLimit, 1, pIn0, total);
    return pIn - pIn0;
  }

  /** One of the last three steps of LZ4_count. */
  method CountPart(s: seq<byte>, pIn0: nat, pMatch0: nat, pInLimit: nat, k: nat, ghost start: nat, ghost total: nat)
    returns (pIn: nat, pMatch: nat)
    requires start <= pIn0 <= pInLimit <= |s| && pMatch0 + (pInLimit - pIn0) <= |s|
    requires total == (pIn0 - start) + CommonLength(s, pMatch0, pIn0, pInLimit - pIn0)
    requires CommonLength(s, pMatch0, pIn0, pInLimit - pIn0) < 2 * k
    ensures pIn0 <= pIn <= pInLimit && pMatch - pMatch0 == pIn - pIn0
    ensures total == (pIn - start) + CommonLength(s, pMatch, pIn, pInLimit - pIn)
    ensures CommonLength(s, pMatch, pIn, pInLimit - pIn) < k
  {
    hide CommonLength;
    pIn, pMatch := pIn0, pMatch0;
    if pIn + (k - 1) < pInLimit {
      if s[pMatch..pMatch + k] == s[pIn..pIn + k] {
        CommonLengthSkips(s, pMatch, pIn, pInLimit - pIn, k);
        pIn, pMatch := pIn + k, pMatch + k;
      } else {
        CommonLengthBelow(s, pMatch, pIn, pInLimit - pIn, k);
      }
    }
  }

  lemma CommonLengthBelow(s: seq<byte>, a: nat, b: nat, n: nat, k: nat)
    requires a + n <= |s| && b + n <= |s| && k <= n && s[a..a + k] != s[b..b + k]
    ensures CommonLength(s, a, b, n) < k
  {
    var r := CommonLength(s, a, b, n);
    CommonLengthMeans(s, a, b, n);
    hide CommonLength;
    if r >= k {
      SliceOfSlice(s, a, a + r, 0, k);
      SliceOfSlice(s, b, b + r, 0, k);
    }
  }

  lemma {:induction false} CommonLengthSame(s: seq<byte>, a: nat, b: nat, s': seq<byte>, a': nat, b': nat, n: nat)
    requires a + n <= |s| && b + n <= |s| && a' + n <= |s'| && b' + n <= |s'|
    requires s[a..a + n] == s'[a'..a' + n] && s[b..b + n] == s'[b'..b' + n]
    ensures CommonLength(s, a, b, n) == CommonLength(s', a', b', n)
    decreases n
  {
    if n > 0 {
      assert s[a] == s[a..a + n][0] == s'[a'..a' + n][0] == s'[a'];
      assert s[b] == s[b..b + n][0] == s'[b'..b' + n][0] == s'[b'];
      SliceOfSlice(s, a, a + n, 1, n);
      SliceOfSlice(s, b, b + n, 1, n);
      SliceOfSlice(s', a', a' + n, 1, n);
      SliceOfSlice(s', b', b' + n, 1, n);
      CommonLengthSame(s, a + 1, b + 1, s', a' + 1, b' + 1, n - 1);
    }
  }

  lemma CommonLengthAtLeast(s: seq<byte>, a: nat, b: nat, n: nat, k: nat)
    requires a + n <= |s| && b + n <= |s| && k <= n && s[a..a + k] == s[b..b + k]
    ensures k <= CommonLength(s, a, b, n)
  {
    CommonLengthSkips(s, a, b, n, k);
  }

  // ----- Matches -----

  /** How far a match at `ip`, `offset` back, goes before the last literals. */
  ghost function FullLength(j: Job, ip: int, offset: int): (n: nat)
    requires j.Valid() && j.source <= ip <= j.End() - LASTLITERALS && 1 <= offset <= j.At(ip)
    ensures n <= j.End() - LASTLITERALS - ip
  {
    CommonLength(j.Text(), j.At(ip) - offset, j.At(ip), j.End() - LASTLITERALS - ip)
  }

  /** Counting in memory is counting in the text, as long as no segment ends. */
  lemma CountedInText(j: Job, ip: int, m: int, limit: int, t: int)
    requires j.Valid() && j.source <= ip <= limit <= j.End()
    requires 0 <= t && t + (limit - ip) <= j.dictSize + j.inputSize && 0 <= m <= |j.mem| && (ip < limit ==> m == j.Address(t))
    requires j.TwoSegments() ==> j.dictSize <= t || t + (limit - ip) <= j.dictSize
    ensures m + (limit - ip) <= |j.mem| && CommonLength(j.mem, m, ip, limit - ip) == CommonLength(j.Text(), t, j.At(ip), limit - ip)
  {
    hide Job.Text, Job.History, CommonLength;
    var k := limit - ip;
    TextSlice(j, t, k);
    TextSlice(j, j.At(ip), k);
    CommonLengthSame(j.mem, m, ip, j.Text(), t, j.At(ip), k);
  }

  /** What counting up to `l`, where the dictionary ends, says about counting up to `n`. */
  lemma CountedFirst(s: seq<byte>, a: nat, b: nat, l: nat, n: nat, c: nat)
    requires MINMATCH <= l <= n && a + n <= |s| && b + n <= |s| && Same(s, a, b, MINMATCH)
    requires c == CommonLength(s, a + MINMATCH, b + MINMATCH, l - MINMATCH)
    ensures MINMATCH + c < l ==> CommonLength(s, a, b, n) == MINMATCH + c
    ensures MINMATCH + c == l ==> CommonLength(s, a, b, n) == l + CommonLength(s, a + l, b + l, n - l)
  {
    hide CommonLength;
    CommonLengthSkips(s, a, b, l, MINMATCH);
    CommonLengthMeans(s, a, b, l);
    if MINMATCH + c < l {
      CommonLengthUnique(s, a, b, n, MINMATCH + c);
    } else {
      CommonLengthSkips(s, a, b, n, l);
    }
  }

  /** A match is as long as the common length allows, and no shorter than what is known already. */
  lemma FullMatch(j: Job, ip: int, m: int, lowLimit: int, offset: int, n: nat)
    requires j.Valid() && j.source <= ip && MINMATCH <= n && ip + n <= j.End() - LASTLITERALS
    requires Genuine(j, ip, m, lowLimit, offset, n)
    ensures n <= FullLength(j, ip, offset) && Genuine(j, ip, m, lowLimit, offset, FullLength(j, ip, offset))
    ensures Genuine(j, ip, m, lowLimit, offset, MINMATCH)
  {
    hide Job.Text, Job.History, CommonLength;
    var t, p, k := j.At(ip) - offset, j.At(ip), j.End() - LASTLITERALS - ip;
    CommonLengthAtLeast(j.Text(), t, p, k, n);
    CommonLengthMeans(j.Text(), t, p, k);
    SliceOfSlice(j.Text(), t, t + n, 0, MINMATCH);
    SliceOfSlice(j.Text(), p, p + n, 0, MINMATCH);
  }

  /**
   What is counted for a match of at least four bytes at `m` if it is taken to lie in front of `segmentEnd`, and the text to go on at
   `source` from there.
   */
  function CountedLength(s: seq<byte>, ip: nat, m: nat, segmentEnd: int, source: nat, matchlimit: int): (n: nat)
    requires ip + MINMATCH <= matchlimit <= |s| && source <= ip && segmentEnd <= |s|
    ensures MINMATCH <= n && ip + n <= matchlimit
  {
    var limit := Min(ip + (segmentEnd - m), matchlimit);
    if limit < ip + MINMATCH then MINMATCH
    else
      var n := MINMATCH + CommonLength(s, m + MINMATCH, ip + MINMATCH, limit - ip - MINMATCH);
      if ip + n == limit then n + CommonLength(s, source, limit, matchlimit - limit) else n
  }

  /** Counting through the end of a segment, behind the first four bytes. */
  method CountSegments(s: seq<byte>, ip: nat, m: nat, segmentEnd: int, source: nat, matchlimit: int) returns (matchCode: nat)
    requires ip + MINMATCH <= matchlimit <= |s| && source <= ip && segmentEnd <= |s|
    ensures MINMATCH + matchCode == CountedLength(s, ip, m, segmentEnd, source, matchlimit)
  {
    hide CommonLength;
    var limit := ip + (segmentEnd - m);
    if limit > matchlimit { limit := matchlimit; }
    matchCode := 0;
    if ip + MINMATCH <= limit {
      matchCode := Count(s, ip + MINMATCH, m + MINMATCH, limit);
    }
    if ip + MINMATCH + matchCode == limit {
      var more := Count(s, limit, source, matchlimit);
      matchCode := matchCode + more;
    }
  }

  /** Where the two segments can be told apart, or where it does not matter, that is the length of the match. */
  lemma CountedIsFull(j: Job, ip: int, m: int, lowLimit: int, offset: int)
    requires j.Valid() && j.Distinct() && j.source <= ip && ip + MINMATCH <= j.End() - LASTLITERALS && 0 <= m
    requires Genuine(j, ip, m, lowLimit, offset, MINMATCH) && j.TwoSegments() && lowLimit == j.dictionary && j.dictionary + j.dictSize <= |j.mem|
    ensures CountedLength(j.mem, ip, m, j.dictionary + j.dictSize, j.source, j.End() - LASTLITERALS) == FullLength(j, ip, offset)
  {
    hide Job.Text, Job.History, CommonLength, Same;
    var matchlimit := j.End() - LASTLITERALS;
    var text, t, p := j.Text(), j.At(ip) - offset, j.At(ip);
    var limit := Min(ip + (j.dictionary + j.dictSize - m), matchlimit);
    CountedInText(j, ip + MINMATCH, m + MINMATCH, limit, t + MINMATCH);
    CountedFirst(text, t, p, limit - ip, matchlimit - ip, CommonLength(text, t + MINMATCH, p + MINMATCH, limit - ip - MINMATCH));
    if t < j.dictSize {
      CountedInText(j, limit, j.source, matchlimit, t + (limit - ip));
    }
  }

  /** A match within an input that starts where its dictionary starts, as it is counted, whatever the bytes are. */
  ghost predicate CountsRight(source: nat, dictSize: nat, n: nat)
    requires MIN_LENGTH <= n && dictSize <= n
  {
    forall mem: seq<byte>, m: nat, ip: nat ::
      |mem| == source + n && source <= m < ip <= source + n - MFLIMIT && Same(mem, m, ip, MINMATCH) ==>
        Same(mem, m, ip, CountedLength(mem, ip, m, source + dictSize, source, source + n - LASTLITERALS))
  }

  /** Bytes for which it is counted wrong: they repeat the byte in front of the end of the dictionary, and behind it the first two. */
  function Confusing(source: nat, dictSize: nat, n: nat): (mem: seq<byte>)
    ensures |mem| == source + n && forall a :: 0 <= a < |mem| ==> mem[a] == if a == source || a == source + dictSize + 1 then 2 else 1
  {
    seq<byte>(source + n, a => if a == source || a == source + dictSize + 1 then 2 else 1)
  }

  lemma ConfusingCounted(source: nat, dictSize: nat, n: nat)
    requires 5 <= dictSize && dictSize + LASTLITERALS + 2 <= n
    ensures var mem := Confusing(source, dictSize, n);
            && Same(mem, source + 1, source + 2, MINMATCH)
            && dictSize <= CountedLength(mem, source + 2, source + 1, source + dictSize, source, source + n - LASTLITERALS)
  {
    hide CommonLength, Confusing;
    var mem := Confusing(source, dictSize, n);
    var limit := source + dictSize + 1;
    assert forall a, b :: 0 <= a <= b <= |mem| ==> |mem[a..b]| == b - a;
    CommonLengthAtLeast(mem, source + 5, source + 6, limit - source - 6, limit - source - 6);
    assert mem[source..source + 1] == [2] == mem[limit..limit + 1];
    CommonLengthAtLeast(mem, source, limit, source + n - LASTLITERALS - limit, 1);
  }

  /** It is counted right for all bytes exactly if the input is too short for a match to get past the end of the dictionary. */
  lemma CountingIsRight(source: nat, dictSize: nat, n: nat)
    requires MIN_LENGTH < n && 8 <= dictSize <= n
    ensures CountsRight(source, dictSize, n) <==> n <= dictSize + LASTLITERALS + 1
  {
    if n <= dictSize + LASTLITERALS + 1 {
      forall mem: seq<byte>, m: nat, ip: nat | |mem| == source + n && source <= m < ip <= source + n - MFLIMIT && Same(mem, m, ip, MINMATCH)
        ensures Same(mem, m, ip, CountedLength(mem, ip, m, source + dictSize, source, source + n - LASTLITERALS))
      {
        CountedWithin(mem, m, ip, source + n - LASTLITERALS, source + dictSize, source);
      }
    } else {
      var mem := Confusing(source, dictSize, n);
      ConfusingCounted(source, dictSize, n);
      var counted := CountedLength(mem, source + 2, source + 1, source + dictSize, source, source + n - LASTLITERALS);
      assert mem[source + 2..source + 2 + counted][dictSize - 1] == 2 != 1 == mem[source + 1..source + 1 + counted][dictSize - 1];
    }
  }

  lemma CountedWithin(mem: seq<byte>, m: nat, ip: nat, matchlimit: nat, segmentEnd: nat, source: nat)
    requires m < ip && ip + MINMATCH <= matchlimit <= |mem| && source <= ip && segmentEnd <= |mem| && matchlimit <= segmentEnd + 1
    requires Same(mem, m, ip, MINMATCH)
    ensures Same(mem, m, ip, CountedLength(mem, ip, m, segmentEnd, source, matchlimit))
  {
    hide CommonLength;
    var n := CommonLength(mem, m + MINMATCH, ip + MINMATCH, matchlimit - ip - MINMATCH);
    CommonLengthMeans(mem, m + MINMATCH, ip + MINMATCH, matchlimit - ip - MINMATCH);
    SplitSlice(mem, m, m + MINMATCH, m + MINMATCH + n);
    SplitSlice(mem, ip, ip + MINMATCH, ip + MINMATCH + n);
    CommonLengthNothing(mem, source, matchlimit);
  }

  lemma CommonLengthNothing(s: seq<byte>, a: nat, b: nat)
    requires a <= |s| && b <= |s|
    ensures CommonLength(s, a, b, 0) == 0
  {
  }

  /** A match in the dictionary, or one that is taken for it because the input begins at the same address. */
  predicate InDictionary(j: Job, lowLimit: int) { j.TwoSegments() && lowLimit == j.dictionary }

  /**
   The length of a match behind its first four bytes, through the end of the dictionary if need be. It
   is right unless the two segments begin at the same address.
   */
  method MatchCode(j: Job, ip: int, m: int, lowLimit: int, ghost offset: int, ghost n: nat) returns (matchCode: nat)
    requires j.Valid() && j.source <= ip && MINMATCH <= n && ip + n <= j.End() - LASTLITERALS
    requires Genuine(j, ip, m, lowLimit, offset, n)
    ensures ip + MINMATCH + matchCode <= j.End() - LASTLITERALS
    ensures InDictionary(j, lowLimit) ==>
      0 <= m && j.dictionary + j.dictSize <= |j.mem| && MINMATCH + matchCode == CountedLength(j.mem, ip, m, j.dictionary + j.dictSize, j.source, j.End() - LASTLITERALS)
    ensures !InDictionary(j, lowLimit) || j.Distinct() ==>
      && n <= MINMATCH + matchCode == FullLength(j, ip, offset)
      && Genuine(j, ip, m, lowLimit, offset, MINMATCH + matchCode)
  {
    hide Job.Text, Job.History, CommonLength, Same;
    FullMatch(j, ip, m, lowLimit, offset, n);
    var matchlimit := j.End() - LASTLITERALS;
    ghost var text, t, p := j.Text(), j.At(ip) - offset, j.At(ip);
    GenuineAddress(j, ip, m, lowLimit, offset, MINMATCH);
    if j.TwoSegments() && lowLimit == j.dictionary {
      DictionaryInside(j, ip, m, lowLimit, offset, n);
      if j.Distinct() { CountedIsFull(j, ip, m, lowLimit, offset); }
      matchCode := CountSegments(j.mem, ip, m, j.dictionary + j.dictSize, j.source, matchlimit);
    } else {
      CountedInText(j, ip + MINMATCH, m + MINMATCH, matchlimit, t + MINMATCH);
      matchCode := Count(j.mem, ip + MINMATCH, m + MINMATCH, matchlimit);
      CountedFirst(text, t, p, matchlimit - ip, matchlimit - ip, matchCode);
    }
  }

  lemma DictionaryInside(j: Job, ip: int, m: int, lowLimit: int, offset: int, n: nat)
    requires j.Valid() && j.source <= ip && Genuine(j, ip, m, lowLimit, offset, n) && InDictionary(j, lowLimit)
    ensures j.dictionary + j.dictSize <= |j.mem|
  {
    hide Job.Text, Job.History, Same;
  }

  lemma SameOneBack(s: seq<byte>, t: int, p: int, n: nat)
    requires Same(s, t, p, n) && 0 < t && 0 < p && s[t - 1..t] == s[p - 1..p]
    ensures Same(s, t - 1, p - 1, n + 1)
  {
    SplitSlice(s, t - 1, t, t + n);
    SplitSlice(s, p - 1, p, p + n);
  }

  /** One byte in front of a genuine match that agrees makes it a longer one. */
  lemma OneByteBack(j: Job, ip: int, m: int, lowLimit: int, offset: int, n: nat)
    requires j.Valid() && j.source < ip && ip + n <= j.End() && Genuine(j, ip, m, lowLimit, offset, n)
    requires lowLimit < m && 0 < m <= |j.mem| && j.mem[ip - 1] == j.mem[m - 1]
    ensures Genuine(j, ip - 1, m - 1, lowLimit, offset, n + 1)
  {
    hide Job.Text, Job.History, Same;
    var t, p := j.At(ip) - offset, j.At(ip);
    assert Located(j, ip - 1, m - 1, lowLimit, offset);
    TextSlice(j, t - 1, 1);
    TextSlice(j, p - 1, 1);
    assert j.mem[m - 1..m] == [j.mem[m - 1]] == [j.mem[ip - 1]] == j.mem[ip - 1..ip];
    SameOneBack(j.Text(), t, p, n);
  }

  lemma GenuineAddress(j: Job, ip: int, m: int, lowLimit: int, offset: int, n: nat)
    requires j.Valid() && j.source <= ip && ip + n <= j.End() && n > 0 && Genuine(j, ip, m, lowLimit, offset, n)
    ensures 0 <= m < |j.mem| && (lowLimit < m ==> 0 < m)
  {
    TextSlice(j, j.At(ip) - offset, 1);
    hide Job.Text, Job.History;
  }

  lemma LastSame(s: seq<byte>, m: nat, m0: nat, ip: nat, ip0: nat)
    requires m < m0 <= |s| && ip0 <= |s| && ip0 - ip == m0 - m && s[m..m0] == s[ip..ip0]
    ensures s[m0 - 1] == s[ip0 - 1]
  {
    assert s[m..m0][m0 - 1 - m] == s[ip..ip0][m0 - 1 - m];
  }

  /** In front of a difference it does not move at all. */
  lemma StopsAtOnce(s: seq<byte>, m: nat, m0: nat, ip: nat, ip0: nat)
    requires m <= m0 <= |s| && ip <= ip0 <= |s| && ip0 - ip == m0 - m && s[m..m0] == s[ip..ip0]
    requires 0 < m0 && 0 < ip0 && s[m0 - 1] != s[ip0 - 1]
    ensures ip == ip0 && m == m0
  {
    if m < m0 { LastSame(s, m, m0, ip, ip0); }
  }

  /** The catch-up loop moves a match back over equal bytes. */
  method CatchUp(j: Job, anchor: int, ip0: int, m0: int, lowLimit: int, ghost offset: int) returns (ip: int, m: int)
    requires j.Valid() && j.source <= anchor <= ip0 && ip0 + MINMATCH <= j.End()
    requires Genuine(j, ip0, m0, lowLimit, offset, MINMATCH)
    ensures anchor <= ip <= ip0 && Genuine(j, ip, m, lowLimit, offset, MINMATCH + (ip0 - ip))
    ensures 0 <= m == m0 - (ip0 - ip) <= m0 <= |j.mem| && j.mem[m..m0] == j.mem[ip..ip0]
    ensures ip == anchor || m <= lowLimit || (0 < m && j.mem[ip - 1] != j.mem[m - 1])
  {
    ip, m := ip0, m0;
    hide Genuine;
    GenuineAddress(j, ip, m, lowLimit, offset, MINMATCH);
    while ip > anchor && m > lowLimit && j.mem[ip - 1] == j.mem[m - 1]
      invariant anchor <= ip <= ip0 && Genuine(j, ip, m, lowLimit, offset, MINMATCH + (ip0 - ip))
      invariant 0 <= m < |j.mem| && (lowLimit < m ==> 0 < m)
      invariant m == m0 - (ip0 - ip) && m0 <= |j.mem| && j.mem[m..m0] == j.mem[ip..ip0]
      decreases ip
    {
      OneByteBack(j, ip, m, lowLimit, offset, MINMATCH + (ip0 - ip));
      SplitSlice(j.mem, m - 1, m, m0);
      SplitSlice(j.mem, ip - 1, ip, ip0);
      ip, m := ip - 1, m - 1;
      GenuineAddress(j, ip, m, lowLimit, offset, MINMATCH + (ip0 - ip));
    }
  }

  /**
   The match at `ip`, `offset` bytes back, goes as far as it can: on to the last literals or to a difference, and back
   to `anchor`, to the front of its segment or to a difference.
   */
  ghost predicate Stretched(j: Job, anchor: int, ip: int, offset: int, n: int)
    requires j.Valid()
  {
    && 1 <= offset <= j.At(ip) && j.source <= anchor <= ip && 0 <= n && ip + n <= j.End() - LASTLITERALS
    && (ip + n == j.End() - LASTLITERALS || j.Text()[j.At(ip) + n] != j.Text()[j.At(ip) + n - offset])
    && (ip == anchor || j.At(ip) == offset || (j.TwoSegments() && j.At(ip) - offset == j.dictSize)
        || j.Text()[j.At(ip) - 1] != j.Text()[j.At(ip) - 1 - offset])
  }

  /** Where a match has been moved back and then counted, it is stretched. */
  lemma FullIsStretched(j: Job, anchor: int, ip: int, m: int, lowLimit: int, offset: int)
    requires j.Valid() && j.source <= anchor <= ip <= j.End() - MFLIMIT && Genuine(j, ip, m, lowLimit, offset, MINMATCH)
    requires ip == anchor || m <= lowLimit || (0 < m <= |j.mem| && j.mem[ip - 1] != j.mem[m - 1])
    ensures 1 <= offset <= j.At(ip) && Stretched(j, anchor, ip, offset, FullLength(j, ip, offset))
  {
    hide Job.Text, Job.History, CommonLength, Same;
    CommonLengthMeans(j.Text(), j.At(ip) - offset, j.At(ip), j.End() - LASTLITERALS - ip);
    if ip != anchor && lowLimit < m {
      TextSlice(j, j.At(ip) - offset - 1, 1);
      TextSlice(j, j.At(ip) - 1, 1);
      assert j.Text()[j.At(ip) - 1] == j.Text()[j.At(ip) - 1..j.At(ip) - 1 + 1][0] == j.mem[ip - 1];
      assert j.Text()[j.At(ip) - 1 - offset] == j.Text()[j.At(ip) - offset - 1..j.At(ip) - offset - 1 + 1][0] == j.mem[m - 1];
    }
  }
}
