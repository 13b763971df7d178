/**
 The candidates of one match search of lz4hc.c: how each is compared, and which of them the jump to a
 better chain and the shortcut for repeated bytes may leave out.
 */
module HcSearch {
  import opened Bytes
  import opened BlockFormat
  import opened MatchLength
  import opened HcChains

  /** The best match so far: its length, its index, and the index of the position it is for. */
  datatype Best = Best(longest: int, matchpos: int, startpos: int)

  /**
   One search, for the position `ip`, which may also move back to `iLow`; a match has to end before
   `iHigh`, and only one longer than `minLength` is of interest. It may favor matches that are fast to
   decode, and a forward search may swap chains.
   */
  datatype Search = Search(v: Space, ip: int, iLow: int, iHigh: int, minLength: int, favor: bool, swap: bool) {
    predicate Valid() {
      && v.Valid() && 64 * KB <= v.lowLimit && v.end < INDEX_LIMIT && v.dictLimit <= iLow <= ip && ip + MINMATCH <= iHigh < v.end
      && 1 <= minLength && ip - iLow < minLength <= iHigh - iLow && (swap ==> iLow == ip)
    }

    /** The index before which a match would be too far away. */
    function Lowest(): int {
      if v.lowLimit + (DISTANCE_MAX + 1) > ip then v.lowLimit else ip - DISTANCE_MAX
    }

    predicate InReach(m: int) { Lowest() <= m < ip && v.Readable(m) }

    /** The last three bytes of the dictionary, where a candidate is read in part behind it. */
    predicate Behind(m: int) { Gap(v.lowLimit, v.dictLimit, m) }

    /** A search that swaps chains may come to such a candidate, with a match at hand. */
    predicate Candidate(m: int, longest: int) { Lowest() <= m < ip && (Behind(m) ==> swap && MINMATCH <= longest) }

    /** The length of the shortest match that leads to another chain, from a candidate in the prefix. */
    function Shortest(): int { Max(5, Min(minLength + 1, iHigh - ip)) }

    /** There is room for a match after the second byte of the prefix, and the last byte of the dictionary is in reach. */
    predicate MayReadBehind() {
      && swap && Lowest() <= v.dictLimit - 1 && v.dictLimit + 1 + Shortest() <= ip && ip + Shortest() <= iHigh
      && (favor ==> v.dictLimit + 9 <= ip)
    }

    /** The same for a candidate that was reached in another chain. */
    predicate Room(m: int) { m + 2 + Shortest() <= ip && ip + Shortest() <= iHigh && (favor ==> m + 10 <= ip) }

    /** The two bytes around the end of the best match agree with the candidate, too. */
    predicate TwoAlike(m: int, longest: int) {
      var i, k := v.base + iLow + longest - 1, v.base + m - (ip - iLow) + longest - 1;
      0 <= i <= |v.mem| - 2 && 0 <= k <= |v.mem| - 2 && v.mem[i..i + 2] == v.mem[k..k + 2]
    }

    /** What a forward search counts at a candidate of the prefix. */
    ghost predicate Counts(m: int, longest: int, n: nat) {
      && (n > 0 && favor ==> 8 <= ip - m)
      && (v.dictLimit <= m && iLow == ip ==>
            && (0 < n == longest ==> ip + n == iHigh)
            && forall k :: Maximal(v, m, ip, k, iHigh) && MINMATCH <= k && TwoAlike(m, longest) && (favor ==> 8 <= ip - m) ==> n == k)
    }

    /** A result of the search: nothing better than `minLength`, or a genuine match between the limits. */
    ghost predicate Sound(b: Best) {
      && v.Valid()
      && minLength <= b.longest <= iHigh - iLow
      && (minLength < b.longest ==>
            && iLow <= b.startpos <= ip && ip + MINMATCH <= b.startpos + b.longest <= iHigh
            && v.Repeats(b.matchpos, b.startpos, b.longest))
    }

    /** The `n` bytes at `ip` are at `m` too, and could be a match. */
    ghost predicate Fits(m: int, n: int) {
      v.Valid() && MINMATCH <= n && ip + n <= iHigh && v.Readable(m) && v.Repeats(m, ip, n) && (favor ==> 8 <= ip - m)
    }

    /** Nothing fits better than `longest` after `k`, unless it fits at `k` as well. */
    ghost predicate Tried(k: int, longest: int) {
      v.Valid() && forall m, n :: k < m && Fits(m, n) ==> n <= longest || v.Repeats(k, ip, n)
    }

    /** Nothing at `m` fits better than `longest`. */
    ghost predicate Done(m: int, longest: int) {
      v.Valid() && forall n :: Fits(m, n) ==> n <= longest
    }

    /** A forward search that counted `n` bytes at `m` has found as many there. */
    ghost predicate AtLeast(m: int, n: nat) {
      v.Valid() && (n > 0 && iLow == ip ==> MINMATCH <= n && ip + n <= iHigh && v.Repeats(m, ip, n))
    }

    /** No match is longer. */
    ghost predicate Longest(longest: int) {
      v.Valid() && forall m, n :: Fits(m, n) ==> n <= longest
    }
  }

  // ----- Counting -----

  /** The bytes at `m` and at `s` agree for `n` bytes, and then no more, or the limit is reached. */
  ghost predicate Maximal(v: Space, m: int, s: int, n: int, limit: int) {
    v.Valid() && s + n <= limit < v.end && v.Repeats(m, s, n) && (s + n < limit ==> 0 <= n && v.At(m + n) != v.At(s + n))
  }

  lemma Stops(v: Space, m: int, s: int, n: nat, limit: int)
    requires v.Repeats(m, s, n) == true && s + n <= limit < v.end && v.Valid() && v.lowLimit <= m < s && (s + n < limit ==> v.At(m + n) != v.At(s + n))
    ensures Maximal(v, m, s, n, limit) == true
  {
  }

  lemma MaximalIsMost(v: Space, m: int, s: int, n: int, limit: int, k: int)
    requires v.Valid() && Maximal(v, m, s, n, limit) && v.Repeats(m, s, k) && s + k <= limit
    ensures k <= n
  {
    if n < k { RepeatsAt(v, m, s, k, n); }
  }

  lemma RepeatsAt(v: Space, m: int, s: int, n: int, k: nat)
    requires v.Valid() && v.Repeats(m, s, n) && k < n
    ensures v.At(m + k) == v.At(s + k)
  {
    assert v.At(s + k) == v.At(s + k - (s - m));
  }

  /** Equal stretches of the prefix. */
  lemma PrefixRepeats(v: Space, m: int, s: int, n: nat)
    requires v.Valid() && v.dictLimit <= m < s && s - m <= DISTANCE_MAX && s + n <= v.end
    requires v.mem[v.base + m..v.base + m + n] == v.mem[v.base + s..v.base + s + n]
    ensures v.Repeats(m, s, n) == true
  {
    var x, y := v.base + m, v.base + s;
    forall i | s <= i < s + n ensures v.At(i) == v.At(i - (s - m)) {
      assert v.mem[y + (i - s)] == v.mem[y..y + n][i - s] == v.mem[x..x + n][i - s] == v.mem[x + (i - s)];
    }
  }

  /** Equal stretches of the dictionary and the prefix. */
  lemma DictRepeats(v: Space, m: int, s: int, n: nat)
    requires v.Valid() && v.lowLimit <= m && m + n <= v.dictLimit <= s && m < s && s - m <= DISTANCE_MAX && s + n <= v.end && v.lowLimit < v.dictLimit
    requires v.mem[v.dictBase + m..v.dictBase + m + n] == v.mem[v.base + s..v.base + s + n]
    ensures v.Repeats(m, s, n) == true
  {
    var x, y := v.dictBase + m, v.base + s;
    forall i | s <= i < s + n ensures v.At(i) == v.At(i - (s - m)) {
      assert v.mem[y + (i - s)] == v.mem[y..y + n][i - s] == v.mem[x..x + n][i - s] == v.mem[x + (i - s)];
    }
  }

  /** Two repetitions at the same distance, after each other. */
  lemma RepeatsJoined(v: Space, m: int, s: int, a: nat, b: nat)
    requires v.Valid() && v.Repeats(m, s, a) && v.Repeats(m + a, s + a, b)
    ensures v.Repeats(m, s, a + b) == true
  {
    forall i | s <= i < s + a + b ensures v.At(i) == v.At(i - (s - m)) {}
  }

  /** LZ4HC_countBack: how many bytes in front of two places agree. */
  method CountBack(mem: seq<byte>, ip: int, m: int, iMin: int, mMin: int) returns (back: nat)
    requires 0 <= iMin <= ip <= |mem| && 0 <= mMin <= m <= |mem|
    ensures back <= ip - iMin && back <= m - mMin && mem[ip - back..ip] == mem[m - back..m]
    ensures back < ip - iMin && back < m - mMin ==> mem[ip - back - 1] != mem[m - back - 1]
  {
    back := 0;
    while back < Min(ip - iMin, m - mMin) && mem[ip - back - 1] == mem[m - back - 1]
      invariant back <= ip - iMin && back <= m - mMin && mem[ip - back..ip] == mem[m - back..m]
    {
      OneMore(mem, ip - back, m - back, back);
      back := back + 1;
    }
  }

  lemma OneMore(s: seq<byte>, a: int, b: int, n: nat)
    requires 0 < a && a + n <= |s| && 0 < b && b + n <= |s| && s[a..a + n] == s[b..b + n] && s[a - 1] == s[b - 1]
    ensures s[a - 1..a + n] == s[b - 1..b + n]
  {
    SplitSlice(s, a - 1, a, a + n);
    SplitSlice(s, b - 1, b, b + n);
  }

  // ----- One candidate -----

  /** The same bytes at two indices, of which four can be read. */
  predicate SameFour(v: Space, m: int, s: int) { v.Valid() && v.Readable(m) && v.Readable(s) && v.Four(m) == v.Four(s) }

  lemma FourRepeat(v: Space, m: int, s: int)
    requires SameFour(v, m, s) == true && m < s && s - m <= DISTANCE_MAX
    ensures v.Repeats(m, s, MINMATCH) == true
  {
    FourMeans(v, m, s);
  }

  /** The bytes that agree with a candidate in the prefix, of which four are known to. */
  method CountPrefix(v: Space, ip: int, m: int, iHigh: int) returns (n: nat)
    requires SameFour(v, m, ip) == true && v.dictLimit <= m < ip && ip - m <= DISTANCE_MAX && ip + MINMATCH <= iHigh < v.end
    ensures MINMATCH <= n && Maximal(v, m, ip, n, iHigh) == true
  {
    hide CommonLength;
    n := Count(v.mem, v.base + ip + MINMATCH, v.base + m + MINMATCH, v.base + iHigh);
    PrefixMaximal(v, ip, m, n, iHigh);
    n := MINMATCH + n;
  }

  lemma PrefixMaximal(v: Space, ip: int, m: int, n: nat, iHigh: int)
    requires SameFour(v, m, ip) == true && v.dictLimit <= m < ip && ip - m <= DISTANCE_MAX && ip + MINMATCH <= iHigh < v.end
    requires var a, b := v.base + m + MINMATCH, v.base + ip + MINMATCH;
             0 <= a <= b <= v.base + iHigh <= |v.mem| && n == CommonLength(v.mem, a, b, v.base + iHigh - b)
    ensures Maximal(v, m, ip, MINMATCH + n, iHigh) == true
  {
    hide CommonLength;
    FourRepeat(v, m, ip);
    assert v.Valid();
    hide SameFour, Space.Repeats;
    CommonLengthMeans(v.mem, v.base + m + MINMATCH, v.base + ip + MINMATCH, iHigh - ip - MINMATCH);
    PrefixRepeats(v, m + MINMATCH, ip + MINMATCH, n);
    RepeatsJoined(v, m, ip, MINMATCH, n);
    Stops(v, m, ip, MINMATCH + n, iHigh);
  }

  /** The bytes that agree with a candidate in the dictionary, and past its end with the start of the prefix. */
  method CountDict(v: Space, ip: int, m: int, iHigh: int) returns (n: nat)
    requires SameFour(v, m, ip) == true && v.lowLimit <= m && m + MINMATCH <= v.dictLimit <= ip && ip - m <= DISTANCE_MAX && ip + MINMATCH <= iHigh < v.end
    ensures MINMATCH <= n && Maximal(v, m, ip, n, iHigh) == true
  {
    hide *;
    var vLimit := ip + (v.dictLimit - m);
    if vLimit > iHigh { vLimit := iHigh; }
    n := CountInDict(v, ip, m, vLimit);
    if ip + n == vLimit && vLimit < iHigh {
      var more := CountOn(v, ip, m, iHigh, n);
      n := n + more;
    } else {
      MaximalFurther(v, m, ip, n, vLimit, iHigh);
    }
  }

  /** Its first part. */
  method CountInDict(v: Space, ip: int, m: int, vLimit: int) returns (n: nat)
    requires SameFour(v, m, ip) == true && v.lowLimit <= m && ip + MINMATCH <= vLimit < v.end && m + (vLimit - ip) <= v.dictLimit <= ip && ip - m <= DISTANCE_MAX
    ensures MINMATCH <= n && Maximal(v, m, ip, n, vLimit) == true
  {
    hide CommonLength;
    n := Count(v.mem, v.base + ip + MINMATCH, v.dictBase + m + MINMATCH, v.base + vLimit);
    DictMaximal(v, ip, m, n, vLimit);
    n := MINMATCH + n;
  }

  lemma DictMaximal(v: Space, ip: int, m: int, n: nat, vLimit: int)
    requires SameFour(v, m, ip) == true && v.lowLimit <= m && ip + MINMATCH <= vLimit < v.end && m + (vLimit - ip) <= v.dictLimit <= ip && ip - m <= DISTANCE_MAX
    requires var a, b := v.dictBase + m + MINMATCH, v.base + ip + MINMATCH;
             0 <= a && 0 <= b <= v.base + vLimit <= |v.mem| && a + (v.base + vLimit - b) <= |v.mem| && n == CommonLength(v.mem, a, b, v.base + vLimit - b)
    ensures Maximal(v, m, ip, MINMATCH + n, vLimit) == true
  {
    hide CommonLength;
    FourRepeat(v, m, ip);
    assert v.Valid();
    hide SameFour, Space.Repeats;
    CommonLengthMeans(v.mem, v.dictBase + m + MINMATCH, v.base + ip + MINMATCH, vLimit - ip - MINMATCH);
    DictRepeats(v, m + MINMATCH, ip + MINMATCH, n);
    RepeatsJoined(v, m, ip, MINMATCH, n);
    Stops(v, m, ip, MINMATCH + n, vLimit);
  }

  lemma MaximalFurther(v: Space, m: int, s: int, n: int, limit: int, limit': int)
    requires Maximal(v, m, s, n, limit) == true && limit <= limit' < v.end && (s + n == limit ==> limit == limit')
    ensures Maximal(v, m, s, n, limit') == true
  {
  }

  /** Its second part. */
  method CountOn(v: Space, ip: int, m: int, iHigh: int, n: nat) returns (more: nat)
    requires v.lowLimit <= m && m + n == v.dictLimit <= ip && ip + n < iHigh < v.end && Maximal(v, m, ip, n, ip + n) == true
    ensures Maximal(v, m, ip, n + more, iHigh) == true
  {
    hide CommonLength;
    more := Count(v.mem, v.base + ip + n, v.base + v.dictLimit, v.base + iHigh);
    OnMaximal(v, ip, m, iHigh, n, more);
  }

  lemma OnMaximal(v: Space, ip: int, m: int, iHigh: int, n: nat, more: nat)
    requires v.lowLimit <= m && m + n == v.dictLimit <= ip && ip + n < iHigh < v.end && Maximal(v, m, ip, n, ip + n) == true
    requires var a, b := v.base + v.dictLimit, v.base + ip + n; 0 <= a <= b <= v.base + iHigh <= |v.mem| && more == CommonLength(v.mem, a, b, v.base + iHigh - b)
    ensures Maximal(v, m, ip, n + more, iHigh) == true
  {
    hide CommonLength;
    CommonLengthMeans(v.mem, v.base + v.dictLimit, v.base + ip + n, iHigh - ip - n);
    PrefixRepeats(v, m + n, ip + n, more);
    RepeatsJoined(v, m, ip, n, more);
  }

  /** The wider match at a candidate where `n` bytes agree from `ip` on and `back` bytes before it. */
  lemma Widened(s: Search, m: int, n: int, back: nat, b: Best)
    requires s.Valid() == true && s.Sound(b) == true && Maximal(s.v, m, s.ip, n, s.iHigh) == true && MINMATCH <= n
    requires s.iLow <= s.ip - back && s.v.lowLimit <= m - back && s.v.Repeats(m - back, s.ip - back, back) == true && b.longest < n + back
    ensures s.Sound(Best(n + back, m - back, s.ip - back)) == true
  {
    RepeatsJoined(s.v, m - back, s.ip - back, back, n);
  }

  /** Nothing that fits at `m` is longer than the bytes that agree. */
  lemma NothingMore(s: Search, m: int, n: int, longest: int)
    requires s.Valid() == true && Maximal(s.v, m, s.ip, n, s.iHigh) == true && n <= longest
    ensures s.Done(m, longest) == true
  {
    forall k | s.Fits(m, k) ensures k <= longest { MaximalIsMost(s.v, m, s.ip, n, s.iHigh, k); }
  }

  /** A match starts with four equal bytes. */
  lemma StartsOtherwise(s: Search, m: int, longest: int)
    requires s.Valid() == true && s.InReach(m) == true && !SameFour(s.v, m, s.ip)
    ensures s.Done(m, longest) == true
  {
    forall k | s.Fits(m, k) ensures false { FourRepeats(s.v, m, s.ip, k, 0); }
  }

  /** And a longer one than `longest` agrees in the two bytes around that place. */
  lemma EndsOtherwise(s: Search, m: int, longest: int)
    requires s.Valid() == true && s.InReach(m) == true && s.v.dictLimit <= m && s.minLength <= longest <= s.iHigh - s.iLow && !s.TwoAlike(m, longest)
    ensures s.Done(m, longest) == true
  {
    hide Space.Repeats;
    forall n | s.Fits(m, n) ensures n <= longest {
      if longest < n { EndsAlike(s, m, longest, n); }
    }
  }

  lemma EndsAlike(s: Search, m: int, longest: int, n: int)
    requires s.Valid() == true && s.InReach(m) == true && s.v.dictLimit <= m && s.minLength <= longest < n && s.ip + n <= s.iHigh && s.v.Repeats(m, s.ip, n) == true
    ensures s.TwoAlike(m, longest) == true
  {
    hide Space.Repeats;
    var x := longest - 1 - (s.ip - s.iLow);
    RepeatsAt(s.v, m, s.ip, n, x);
    RepeatsAt(s.v, m, s.ip, n, x + 1);
    TwoEqual(s.v.mem, s.v.base + s.ip + x, s.v.base + m + x);
  }

  lemma TwoEqual(s: seq<byte>, i: nat, k: nat)
    requires i + 2 <= |s| && k + 2 <= |s| && s[i] == s[k] && s[i + 1] == s[k + 1]
    ensures s[i..i + 2] == s[k..k + 2]
  {
  }

  /** What is counted, in the three cases. */
  lemma CountsNothing(s: Search, m: int, longest: int)
    requires s.Valid() == true && s.InReach(m) == true && (!s.TwoAlike(m, longest) || !SameFour(s.v, m, s.ip) || (s.favor && s.ip - m < 8))
    ensures s.Counts(m, longest, 0) == true
  {
    forall k | Maximal(s.v, m, s.ip, k, s.iHigh) && MINMATCH <= k ensures SameFour(s.v, m, s.ip) { MaximalStarts(s, m, k); }
    hide SameFour, Maximal, Search.TwoAlike, Search.Valid, Search.InReach;
  }

  lemma MaximalStarts(s: Search, m: int, k: int)
    requires s.Valid() == true && s.InReach(m) == true && Maximal(s.v, m, s.ip, k, s.iHigh) == true && MINMATCH <= k
    ensures SameFour(s.v, m, s.ip)
  {
    FourRepeats(s.v, m, s.ip, k, 0);
  }

  lemma CountsAll(s: Search, m: int, longest: int, n: nat)
    requires s.Valid() == true && s.InReach(m) == true && s.v.dictLimit <= m && s.TwoAlike(m, longest) && s.minLength <= longest <= s.iHigh - s.iLow
    requires Maximal(s.v, m, s.ip, n, s.iHigh) == true && (s.favor ==> 8 <= s.ip - m)
    ensures s.Counts(m, longest, n) == true
  {
    forall k | Maximal(s.v, m, s.ip, k, s.iHigh) && MINMATCH <= k ensures n == k {
      MaximalIsMost(s.v, m, s.ip, n, s.iHigh, k);
      MaximalIsMost(s.v, m, s.ip, k, s.iHigh, n);
    }
    if 0 < n == longest && s.iLow == s.ip && s.ip + n < s.iHigh {
      LastOfTwo(s.v.mem, s.v.base + s.ip + n - 1, s.v.base + m + n - 1);
    }
  }

  lemma CountsMore(s: Search, m: int, longest: int, n: nat, back: nat)
    requires s.Valid() == true && s.InReach(m) == true && s.v.dictLimit <= m && s.TwoAlike(m, longest) && s.minLength <= longest <= s.iHigh - s.iLow
    requires Maximal(s.v, m, s.ip, n, s.iHigh) == true && (s.favor ==> 8 <= s.ip - m) && back <= s.ip - s.iLow
    ensures s.Counts(m, longest, n + back) == true
  {
    if s.iLow == s.ip { CountsAll(s, m, longest, n); }
  }

  lemma LastOfTwo(s: seq<byte>, i: int, k: int)
    requires 0 <= i <= |s| - 2 && 0 <= k <= |s| - 2 && s[i..i + 2] == s[k..k + 2]
    ensures s[i + 1] == s[k + 1]
  {
    assert s[i + 1] == s[i..i + 2][1] == s[k..k + 2][1];
  }

  /** A candidate in the prefix. */
  method TryPrefix(s: Search, m: int, b: Best) returns (matchLength: nat, best: Best)
    requires s.Valid() == true && s.InReach(m) == true && s.Sound(b) == true && s.v.dictLimit <= m && (s.favor ==> 8 <= s.ip - m)
    ensures s.Sound(best) == true && b.longest <= best.longest && s.Done(m, best.longest) == true && s.AtLeast(m, matchLength) == true
    ensures s.Counts(m, b.longest, matchLength) == true && best.longest == Max(b.longest, matchLength)
  {
    matchLength, best := 0, b;
    var v, ip := s.v, s.ip;
    PrefixInside(s, m, b);
    hide *;
    if s.TwoAlike(m, b.longest) {
      if SameFour(v, m, ip) {
        var back := BackInPrefix(s, m);
        var n := CountPrefix(v, ip, m, s.iHigh);
        matchLength := n + back;
        best := Keep(s, m, n, back, b);
        CountsMore(s, m, b.longest, n, back);
      } else {
        CountsNothing(s, m, b.longest);
        StartsOtherwise(s, m, b.longest);
      }
    } else {
      CountsNothing(s, m, b.longest);
      EndsOtherwise(s, m, b.longest);
    }
  }

  lemma PrefixInside(s: Search, m: int, b: Best)
    requires s.Valid() == true && s.InReach(m) == true && s.Sound(b) == true && s.v.dictLimit <= m
    ensures s.v.lowLimit <= s.v.dictLimit <= s.iLow <= s.ip <= s.iHigh - MINMATCH && s.iHigh < s.v.end
    ensures s.ip - m <= DISTANCE_MAX && m < s.ip && 0 <= s.v.base + s.v.dictLimit && s.v.base + s.v.end <= |s.v.mem|
    ensures s.ip - s.iLow < b.longest <= s.iHigh - s.iLow
  {
  }

  /** The bytes before a candidate in the prefix that agree; none if the match must not start earlier. */
  method BackInPrefix(s: Search, m: int) returns (back: nat)
    requires s.Valid() == true && s.InReach(m) == true && s.v.dictLimit <= m
    ensures s.iLow <= s.ip - back && s.v.lowLimit <= m - back && s.v.Repeats(m - back, s.ip - back, back) == true
  {
    back := 0;
    if s.ip != s.iLow {
      back := CountBack(s.v.mem, s.v.base + s.ip, s.v.base + m, s.v.base + s.iLow, s.v.base + s.v.dictLimit);
    }
    PrefixBack(s, m, back);
  }

  /** The same for the dictionary. */
  method BackInDict(s: Search, m: int) returns (back: nat)
    requires s.Valid() == true && s.InReach(m) == true && m < s.v.dictLimit
    ensures s.iLow <= s.ip - back && s.v.lowLimit <= m - back && s.v.Repeats(m - back, s.ip - back, back) == true
  {
    back := 0;
    if s.ip != s.iLow {
      back := CountBack(s.v.mem, s.v.base + s.ip, s.v.dictBase + m, s.v.base + s.iLow, s.v.dictBase + s.v.lowLimit);
    }
    DictBack(s, m, back);
  }

  lemma PrefixBack(s: Search, m: int, back: nat)
    requires s.Valid() == true && s.InReach(m) == true && s.v.dictLimit <= m - back && s.iLow <= s.ip - back
    requires 0 <= s.v.base + m - back <= s.v.base + s.ip <= |s.v.mem| && s.v.mem[s.v.base + s.ip - back..s.v.base + s.ip] == s.v.mem[s.v.base + m - back..s.v.base + m]
    ensures s.v.Repeats(m - back, s.ip - back, back) == true
  {
    PrefixRepeats(s.v, m - back, s.ip - back, back);
  }

  lemma DictBack(s: Search, m: int, back: nat)
    requires s.Valid() == true && s.InReach(m) == true && s.v.lowLimit <= m - back && m <= s.v.dictLimit && s.iLow <= s.ip - back && s.v.lowLimit < s.v.dictLimit
    requires 0 <= s.v.dictBase + m - back && s.v.dictBase + m <= |s.v.mem| && 0 <= s.v.base + s.ip - back && s.v.base + s.ip <= |s.v.mem| && s.v.mem[s.v.base + s.ip - back..s.v.base + s.ip] == s.v.mem[s.v.dictBase + m - back..s.v.dictBase + m]
    ensures s.v.Repeats(m - back, s.ip - back, back) == true
  {
    DictRepeats(s.v, m - back, s.ip - back, back);
  }

  /** A match replaces the best one if it is longer. */
  method Keep(s: Search, m: int, n: int, back: nat, b: Best) returns (best: Best)
    requires s.Valid() == true && s.Sound(b) == true && Maximal(s.v, m, s.ip, n, s.iHigh) == true && MINMATCH <= n
    requires s.iLow <= s.ip - back && s.v.lowLimit <= m - back && s.v.Repeats(m - back, s.ip - back, back) == true
    ensures s.Sound(best) == true && b.longest <= best.longest && s.Done(m, best.longest) == true && s.AtLeast(m, n + back) == true
    ensures best == if b.longest < n + back then Best(n + back, m - back, s.ip - back) else b
  {
    best := b;
    if n + back > b.longest {
      best := Best(n + back, m - back, s.ip - back);
      Widened(s, m, n, back, b);
    }
    NothingMore(s, m, n, best.longest);
  }

  /** A candidate in the dictionary. */
  method TryDict(s: Search, m: int, b: Best) returns (matchLength: nat, best: Best)
    requires s.Valid() == true && s.InReach(m) == true && s.Sound(b) == true && m < s.v.dictLimit
    ensures s.Sound(best) == true && b.longest <= best.longest && s.Done(m, best.longest) == true && s.AtLeast(m, matchLength) == true
    ensures best.longest == Max(b.longest, matchLength)
  {
    matchLength, best := 0, b;
    var v, ip := s.v, s.ip;
    DictInside(s, m);
    hide *;
    if SameFour(v, m, ip) {
      var n := CountDict(v, ip, m, s.iHigh);
      var back := BackInDict(s, m);
      matchLength := n + back;
      best := Keep(s, m, n, back, b);
    } else {
      StartsOtherwise(s, m, b.longest);
    }
  }

  lemma DictInside(s: Search, m: int)
    requires s.Valid() == true && s.InReach(m) == true && m < s.v.dictLimit
    ensures s.v.lowLimit <= s.v.dictLimit <= s.iLow <= s.ip <= s.iHigh - MINMATCH && s.iHigh < s.v.end
    ensures s.ip - m <= DISTANCE_MAX && s.v.lowLimit <= m && m + MINMATCH <= s.v.dictLimit && 0 <= s.v.base + s.v.dictLimit && s.v.base + s.v.end <= |s.v.mem|
    ensures 0 <= s.v.dictBase + s.v.lowLimit && s.v.dictBase + s.v.dictLimit <= |s.v.mem|
  {
  }

  /**
   A candidate in the last three bytes of the dictionary. Four bytes are read, of which at least one
   lies behind the dictionary and can be anything; and what else is counted ends before it begins.
   */
  method TryBehind(s: Search, m: int, b: Best) returns (matchLength: nat, best: Best)
    requires s.Valid() == true && s.Candidate(m, b.longest) == true && s.Behind(m) == true && s.Sound(b) == true
    ensures best == b && s.Done(m, best.longest) == true && matchLength <= best.longest && matchLength <= MINMATCH
  {
    matchLength, best := 0, b;
    var same: bool := *;
    if same {
      matchLength := MINMATCH;
      if matchLength > b.longest {
        best := Best(matchLength, m, s.ip);
      }
    }
  }

  /** A candidate; those at less than eight bytes are slow to decode, and may be left out. */
  method Try(s: Search, m: int, b: Best) returns (matchLength: nat, best: Best, readBehind: bool)
    requires s.Valid() == true && s.Candidate(m, b.longest) == true && s.Sound(b) == true
    ensures s.Sound(best) == true && b.longest <= best.longest && s.Done(m, best.longest) == true && best.longest == Max(b.longest, matchLength)
    ensures !s.Behind(m) ==> s.AtLeast(m, matchLength) == true && s.Counts(m, b.longest, matchLength) == true
    ensures s.Behind(m) ==> matchLength <= MINMATCH
    ensures readBehind == (s.Behind(m) && (s.favor ==> 8 <= s.ip - m))
  {
    readBehind := false;
    if s.favor && s.ip - m < 8 {
      matchLength, best := 0, b;
      TooNear(s, m, b.longest);
    } else if m >= s.v.dictLimit {
      hide Search.Valid, Search.Sound, Search.Counts, Search.AtLeast, Search.Done;
      NotBehind(s, m, b.longest);
      matchLength, best := TryPrefix(s, m, b);
    } else if s.Behind(m) {
      hide Search.Valid, Search.Sound, Search.Counts, Search.AtLeast, Search.Done;
      matchLength, best := TryBehind(s, m, b);
      readBehind := true;
    } else {
      NotBehind(s, m, b.longest);
      CountsAnything(s, m, b.longest);
      hide Search.Valid, Search.Sound, Search.Counts, Search.AtLeast, Search.Done;
      matchLength, best := TryDict(s, m, b);
    }
  }

  lemma NotBehind(s: Search, m: int, longest: int)
    requires s.Valid() == true && s.Candidate(m, longest) == true && !s.Behind(m)
    ensures s.InReach(m) == true
  {
  }

  lemma TooNear(s: Search, m: int, longest: int)
    requires s.Valid() == true && s.Candidate(m, longest) == true && s.favor && s.ip - m < 8
    ensures s.Done(m, longest) == true && (!s.Behind(m) ==> s.AtLeast(m, 0) == true && s.Counts(m, longest, 0) == true)
  {
  }

  lemma CountsAnything(s: Search, m: int, longest: int)
    requires m < s.v.dictLimit && (s.favor ==> 8 <= s.ip - m)
    ensures forall n: nat :: s.Counts(m, longest, n) == true
  {
  }

  // ----- The chain -----

  /** The tables as the search finds them. */
  ghost predicate Prepared(s: Search, l: Links) {
    s.v.Valid() && l.next == s.ip && Chained(l.t, l.c, s.v.lowLimit, s.v.dictLimit, s.ip)
  }

  /** The way from one candidate to the next: not to a later one, and with nothing left out. */
  ghost predicate Arrived(s: Search, l: Links, k: int, pos: nat, longest: int) {
    s.v.Valid() && s.Tried(k, longest) && (s.Lowest() <= k ==> l.Alike(s.v, k + pos, s.ip + pos))
  }

  /** From a candidate to the next one in its chain or another: to an earlier one, unless the chain begins where nothing was inserted. */
  lemma StepBack(s: Search, l: Links, k: int, i: int)
    requires s.Valid() == true && Prepared(s, l) == true && s.Lowest() <= k
    ensures |l.c| == CHAIN_SIZE && 0 <= Delta(l.c, i) <= DISTANCE_MAX < k
    ensures k <= i < s.ip && !s.Behind(i) ==> 1 <= Delta(l.c, i)
  {
  }

  /** Such a place, in the last three bytes of the dictionary, is only come to by another chain. */
  predicate MayStand(s: Search) { s.swap && s.v.lowLimit < s.v.dictLimit }

  lemma Stands(s: Search, t: State)
    requires s.Behind(t.matchIndex + t.matchChainPos) && (0 < t.matchChainPos || s.swap)
    requires 0 < t.matchChainPos ==> OtherChain(s, t) == true
    ensures MayStand(s)
  {
  }

  /** From a candidate to the next one, `pos` bytes further on: in the window, and there to be read. */
  lemma StepInside(s: Search, l: Links, k: int, pos: nat)
    requires s.Valid() == true && Prepared(s, l) == true && s.InReach(k) == true && (pos > 0 ==> k + pos < s.ip && s.v.lowLimit == s.v.dictLimit)
    ensures |l.c| == CHAIN_SIZE && k + pos < s.ip && s.v.Readable(k + pos) == true
    ensures var d := Delta(l.c, k + pos); 1 <= d <= DISTANCE_MAX < k && (s.Lowest() <= k - d ==> s.InReach(k - d) == true)
  {
  }

  /** And no longer match is left out. */
  lemma Stepped(s: Search, l: Links, k: int, pos: nat, longest: int)
    requires s.Valid() == true && l.Linked(s.v) == true && Prepared(s, l) == true && s.InReach(k) == true && s.Done(k, longest) == true
    requires 0 < pos ==> k + pos < s.ip && s.v.lowLimit == s.v.dictLimit && pos + 4 <= longest <= s.iHigh - s.ip
    requires Arrived(s, l, k, pos, longest) == true
    ensures |l.c| == CHAIN_SIZE && Arrived(s, l, k - Delta(l.c, k + pos), pos, longest) == true
  {
    hide *;
    StepInside(s, l, k, pos);
    ArrivedParts(s, l, k, pos, longest);
    TailAt(s, l, k, pos);
    var d := Delta(l.c, k + pos);
    SteppedTo(s, l, k, pos, longest, d);
    if s.Lowest() <= k - d { SteppedAlike(s, l, k, pos, d); }
    ArrivedFrom(s, l, k - d, pos, longest);
  }

  lemma ArrivedParts(s: Search, l: Links, k: int, pos: nat, longest: int)
    requires s.Valid() == true && Arrived(s, l, k, pos, longest) == true && s.InReach(k) == true && Prepared(s, l) == true
    ensures s.v.Valid() && s.Tried(k, longest) == true && l.Alike(s.v, k + pos, s.ip + pos) == true && l.next == s.ip && k < s.ip
  {
  }

  lemma ArrivedFrom(s: Search, l: Links, k: int, pos: nat, longest: int)
    requires s.Valid() == true && s.Tried(k, longest) == true && (s.Lowest() <= k ==> l.Alike(s.v, k + pos, s.ip + pos) == true)
    ensures Arrived(s, l, k, pos, longest) == true
  {
  }

  lemma TailAt(s: Search, l: Links, k: int, pos: nat)
    requires s.Valid() == true && l.Linked(s.v) == true && s.InReach(k) == true && l.next == s.ip && k + pos < s.ip && s.v.Readable(k + pos) == true
    ensures |l.c| == CHAIN_SIZE && l.Tail(s.v, k + pos, Delta(l.c, k + pos)) == true
  {
    hide Links.Tail;
    assert l.Inserted(s.v, k + pos);
  }

  lemma SteppedAlike(s: Search, l: Links, k: int, pos: nat, d: int)
    requires s.Valid() == true && s.InReach(k) == true && l.Tail(s.v, k + pos, d) == true && s.Lowest() <= k - d && l.Alike(s.v, k + pos, s.ip + pos) == true
    ensures l.Alike(s.v, k - d + pos, s.ip + pos) == true
  {
    assert k - d + pos == k + pos - d;
  }

  lemma SteppedTo(s: Search, l: Links, k: int, pos: nat, longest: int, d: int)
    requires s.Valid() == true && l.next == s.ip && s.InReach(k) == true && s.Tried(k, longest) == true && s.Done(k, longest) == true
    requires 0 < pos ==> k + pos < s.ip && s.v.lowLimit == s.v.dictLimit && pos + 4 <= longest <= s.iHigh - s.ip
    requires l.Alike(s.v, k + pos, s.ip + pos) == true && l.Tail(s.v, k + pos, d) == true
    ensures s.Tried(k - d, longest) == true
  {
    hide Space.Repeats, Links.Tail, Links.Alike, Space.Readable;
    forall m, n | k - d < m && s.Fits(m, n) ensures n <= longest {
      if k < m {
        TriedIsDone(s, k, longest, m, n);
      } else if m < k {
        if longest < n { NotBetween(s, l, k, pos, m, n, d); }
      } else {
        assert s.Fits(k, n);
      }
    }
  }

  lemma TriedIsDone(s: Search, k: int, longest: int, m: int, n: int)
    requires s.Valid() == true && s.InReach(k) == true && s.Tried(k, longest) == true && s.Done(k, longest) == true && k < m && s.Fits(m, n) == true
    ensures n <= longest
  {
    if s.v.Repeats(k, s.ip, n) { assert s.Fits(k, n); }
  }

  lemma NotBetween(s: Search, l: Links, k: int, pos: nat, m: int, n: int, d: int)
    requires s.Valid() == true && l.next == s.ip && l.Tail(s.v, k + pos, d) == true && m < k && s.Fits(m, n) == true && pos + 4 <= n
    requires k + pos < s.ip && (pos > 0 ==> s.v.lowLimit == s.v.dictLimit) && l.Alike(s.v, k + pos, s.ip + pos) == true
    ensures m <= k - d
  {
    FourRepeats(s.v, m, s.ip, n, pos);
    assert l.Inserted(s.v, m + pos);
  }

  /** The place in the match with the longest way to the next candidate, as far as places are looked at. */
  function Better(c: seq<int>, m: int, end: int, pos: nat, accel: nat, distance: int, matchChainPos: nat): (r: (int, nat))
    requires |c| == CHAIN_SIZE && 16 <= accel
    decreases end - pos
  {
    if pos >= end then (distance, matchChainPos)
    else
      var candidateDist := Delta(c, m + pos);
      if candidateDist > distance then Better(c, m, end, pos + accel / 16, 16, candidateDist, pos)
      else Better(c, m, end, pos + accel / 16, accel + 1, distance, matchChainPos)
  }

  /** The search for a better chain. */
  method BetterChain(chainTable: array<int>, m: int, longest: int, matchChainPos0: nat) returns (distance: int, matchChainPos: nat)
    requires chainTable.Length == CHAIN_SIZE
    ensures (distance, matchChainPos) == Better(chainTable[..], m, longest - MINMATCH + 1, 0, 16, 1, matchChainPos0)
    ensures distance >= 1 && (distance == 1 ==> matchChainPos == matchChainPos0)
    ensures distance > 1 ==> matchChainPos <= longest - MINMATCH && distance == Delta(chainTable[..], m + matchChainPos)
    ensures MINMATCH <= longest ==> Delta(chainTable[..], m) <= distance
  {
    distance, matchChainPos := 1, matchChainPos0;
    var end := longest - MINMATCH + 1;
    var step, accel, pos := 1, 16, 0;
    while pos < end
      invariant 0 <= pos && 16 <= accel && distance >= 1 && (distance == 1 ==> matchChainPos == matchChainPos0)
      invariant distance > 1 ==> matchChainPos < end && distance == Delta(chainTable[..], m + matchChainPos)
      invariant 0 < pos ==> Delta(chainTable[..], m) <= distance
      invariant Better(chainTable[..], m, end, 0, 16, 1, matchChainPos0) == Better(chainTable[..], m, end, pos, accel, distance, matchChainPos)
      decreases end - pos
    {
      var candidateDist := chainTable[(m + pos) % CHAIN_SIZE];
      step, accel := accel / 16, accel + 1;
      if candidateDist > distance {
        distance, matchChainPos, accel := candidateDist, pos, 16;
      }
      pos := pos + step;
    }
  }

  // ----- Repeated bytes -----

  /** LZ4HC_countPattern, for a pattern of one byte: eight bytes at a time, then one by one. */
  method CountPattern(mem: seq<byte>, ip0: int, iEnd: int, p: byte) returns (n: nat)
    requires 0 <= ip0 <= iEnd <= |mem|
    ensures ip0 + n <= iEnd && (forall k :: ip0 <= k < ip0 + n ==> mem[k] == p) && (ip0 + n < iEnd ==> mem[ip0 + n] != p)
  {
    var ip := ip0;
    while ip < iEnd - 7
      invariant ip0 <= ip <= iEnd && forall k :: ip0 <= k < ip ==> mem[k] == p
    {
      if mem[ip..ip + 8] != seq(8, _ => p) {
        var common := CommonBytes(mem, ip, p);
        return ip + common - ip0;
      }
      assert forall k :: ip <= k < ip + 8 ==> mem[k] == mem[ip..ip + 8][k - ip];
      ip := ip + 8;
    }
    while ip < iEnd && mem[ip] == p
      invariant ip0 <= ip <= iEnd && forall k :: ip0 <= k < ip ==> mem[k] == p
    {
      ip := ip + 1;
    }
    n := ip - ip0;
  }

  /** LZ4_NbCommonBytes, for eight bytes that are not all `p`. */
  method CommonBytes(mem: seq<byte>, ip: nat, p: byte) returns (n: nat)
    requires ip + 8 <= |mem| && mem[ip..ip + 8] != seq(8, _ => p)
    ensures n < 8 && (forall k :: ip <= k < ip + n ==> mem[k] == p) && mem[ip + n] != p
  {
    n := 0;
    if forall k :: ip <= k < ip + 8 ==> mem[k] == p { AllAlike(mem, ip, p); }
    while mem[ip + n] == p
      invariant n < 8 && forall k :: ip <= k < ip + n ==> mem[k] == p
      decreases 8 - n
    {
      n := n + 1;
    }
  }

  lemma AllAlike(mem: seq<byte>, ip: nat, p: byte)
    requires ip + 8 <= |mem| && forall k :: ip <= k < ip + 8 ==> mem[k] == p
    ensures mem[ip..ip + 8] == seq(8, _ => p)
  {
  }

  /** LZ4HC_reverseCountPattern: four bytes at a time, then one by one. */
  method ReverseCountPattern(mem: seq<byte>, ip0: int, iLow: int, p: byte) returns (n: nat)
    requires 0 <= iLow <= ip0 <= |mem|
    ensures iLow <= ip0 - n && (forall k :: ip0 - n <= k < ip0 ==> mem[k] == p) && (iLow < ip0 - n ==> mem[ip0 - n - 1] != p)
  {
    var ip := ip0;
    while ip >= iLow + 4 && mem[ip - 4..ip] == [p, p, p, p]
      invariant iLow <= ip <= ip0 && forall k :: ip <= k < ip0 ==> mem[k] == p
    {
      assert forall k :: ip - 4 <= k < ip ==> mem[k] == mem[ip - 4..ip][k - (ip - 4)];
      ip := ip - 4;
    }
    while ip > iLow && mem[ip - 1] == p
      invariant iLow <= ip <= ip0 && forall k :: ip <= k < ip0 ==> mem[k] == p
    {
      ip := ip - 1;
    }
    n := ip0 - ip;
  }

  /** All bytes up to `to` are `p`, and then there is another one, or the limit. */
  ghost predicate RunsUpTo(v: Space, p: byte, from: int, to: int, limit: int) {
    v.Valid() && from + MINMATCH <= to <= limit < v.end && v.Runs(p, from, to) && (to < limit ==> v.At(to) != p)
  }

  /** And back to `from`, unless that is the first index. */
  ghost predicate RunsDownTo(v: Space, p: byte, from: int, to: int) {
    v.Valid() && from <= to && v.Runs(p, from, to) && (v.lowLimit < from ==> v.At(from - 1) != p)
  }

  lemma PrefixRuns(v: Space, p: byte, from: int, to: int)
    requires v.Valid() && v.dictLimit <= from && to <= v.end && forall k :: v.base + from <= k < v.base + to ==> v.mem[k] == p
    ensures v.Runs(p, from, to) == true
  {
  }

  lemma DictRuns(v: Space, p: byte, from: int, to: int)
    requires v.Valid() && v.lowLimit <= from && to <= v.dictLimit && v.lowLimit < v.dictLimit && forall k :: v.dictBase + from <= k < v.dictBase + to ==> v.mem[k] == p
    ensures v.Runs(p, from, to) == true
  {
  }

  lemma RunsJoin(v: Space, p: byte, a: int, b: int, c: int)
    requires v.Valid() && v.Runs(p, a, b) && v.Runs(p, b, c) && a <= b <= c
    ensures v.Runs(p, a, c) == true
  {
  }

  lemma FourRuns(v: Space, p: byte, i: int)
    requires v.Valid() && v.Readable(i)
    ensures v.Four(i) == [p, p, p, p] <==> v.Runs(p, i, i + 4)
  {
    FourAre(v, i);
    if v.Runs(p, i, i + 4) {
      assert v.At(i) == p && v.At(i + 1) == p && v.At(i + 2) == p && v.At(i + 3) == p;
    }
  }

  /** How far the byte `p` is repeated after `m`, over the end of the dictionary if need be. */
  method CountForward(v: Space, m: int, iHigh: int, p: byte) returns (n: nat)
    requires AllFour(v, m, p) == true && m + MINMATCH <= iHigh && v.dictLimit <= iHigh < v.end
    ensures RunsUpTo(v, p, m, m + n, iHigh) == true
  {
    FourRuns(v, p, m);
    if m < v.dictLimit {
      n := CountPattern(v.mem, v.dictBase + m + 4, v.dictBase + v.dictLimit, p);
      DictRuns(v, p, m + 4, m + 4 + n);
      RunsJoin(v, p, m, m + 4, m + 4 + n);
      n := n + 4;
      if m + n == v.dictLimit {
        var more := CountPattern(v.mem, v.base + v.dictLimit, v.base + iHigh, p);
        PrefixRuns(v, p, v.dictLimit, v.dictLimit + more);
        RunsJoin(v, p, m, m + n, m + n + more);
        n := n + more;
      }
    } else {
      n := CountPattern(v.mem, v.base + m + 4, v.base + iHigh, p);
      PrefixRuns(v, p, m + 4, m + 4 + n);
      RunsJoin(v, p, m, m + 4, m + 4 + n);
      n := n + 4;
    }
  }

  /** How far it is repeated before `m`, over the start of the prefix if need be. */
  method CountBackward(v: Space, m: int, p: byte) returns (n: nat)
    requires v.Valid() == true && v.lowLimit <= m < v.end
    ensures RunsDownTo(v, p, m - n, m) == true
  {
    if m < v.dictLimit {
      n := ReverseCountPattern(v.mem, v.dictBase + m, v.dictBase + v.lowLimit, p);
      DictRuns(v, p, m - n, m);
    } else {
      n := ReverseCountPattern(v.mem, v.base + m, v.base + v.dictLimit, p);
      PrefixRuns(v, p, m - n, m);
      if m - n == v.dictLimit && v.lowLimit < v.dictLimit {
        var more := ReverseCountPattern(v.mem, v.dictBase + v.dictLimit, v.dictBase + v.lowLimit, p);
        DictRuns(v, p, v.dictLimit - more, v.dictLimit);
        RunsJoin(v, p, v.dictLimit - more, v.dictLimit, m);
        n := n + more;
      }
    }
  }

  /** LZ4HC_protectDictEnd, with its unsigned difference. */
  function ProtectDictEnd(dictLimit: int, matchIndex: int): (ok: bool)
    requires 0 <= dictLimit < INDEX_LIMIT && 0 <= matchIndex < INDEX_LIMIT
    ensures ok <==> !(dictLimit - 3 <= matchIndex < dictLimit)
  {
    (dictLimit - 1 - matchIndex) % U32_SIZE >= 3
  }

  /** What fits inside a run of `p` is as long as the shorter of the two runs. */
  lemma FitsInRun(s: Search, p: byte, srcEnd: int, m: int, end: int, n: int)
    requires s.Valid() && RunsUpTo(s.v, p, s.ip, srcEnd, s.iHigh) && RunsUpTo(s.v, p, m, end, s.iHigh) && m < s.ip && end - m != srcEnd - s.ip
    requires s.Fits(m, n)
    ensures n <= Min(end - m, srcEnd - s.ip)
  {
    if end - m < n && end - m < srcEnd - s.ip {
      RepeatsAt(s.v, m, s.ip, n, end - m);
    } else if srcEnd - s.ip < n {
      RepeatsAt(s.v, m, s.ip, n, srcEnd - s.ip);
    }
  }

  lemma RunsPart(v: Space, p: byte, from: int, to: int, limit: int, m: int)
    requires v.Valid() && RunsUpTo(v, p, from, to, limit) && from <= m <= to - MINMATCH
    ensures RunsUpTo(v, p, m, to, limit) == true
  {
  }

  /** And an earlier candidate inside the run is as good as each that it leaves out. */
  lemma Skipped(s: Search, p: byte, srcEnd: int, k: int, m: int, end: int, longest: int)
    requires s.Valid() && RunsUpTo(s.v, p, s.ip, srcEnd, s.iHigh) && RunsUpTo(s.v, p, k, end, s.iHigh) && s.Lowest() <= k <= m < s.ip - 1 && m + MINMATCH <= end
    requires srcEnd - s.ip < end - m || end - k <= srcEnd - s.ip
    requires s.Tried(m + 1, longest) && s.InReach(m + 1) && s.Done(m + 1, longest)
    ensures s.Tried(k, longest) == true
  {
    forall x, n | k < x && s.Fits(x, n) ensures n <= longest || s.v.Repeats(k, s.ip, n) {
      if m + 1 < x {
        TriedIsDone(s, m + 1, longest, x, n);
      } else if x == m + 1 {
        assert s.Fits(m + 1, n);
      } else {
        RunsPart(s.v, p, k, end, s.iHigh, x);
        FitsInRun(s, p, srcEnd, x, end, n);
        RunsRepeat(s.v, p, k, s.ip, n);
      }
    }
  }

  /** A place inside the run: it can be the next candidate. */
  lemma Landed(s: Search, l: Links, p: byte, srcEnd: int, from: int, k: int, m: int, end: int)
    requires s.Valid() && RunsUpTo(s.v, p, s.ip, srcEnd, s.iHigh) && RunsDownTo(s.v, p, from, m) && RunsUpTo(s.v, p, m, end, s.iHigh)
    requires s.InReach(m) && from <= k <= m && s.Lowest() <= k && s.v.Readable(k)
    ensures s.InReach(k) && l.Alike(s.v, k, s.ip) == true && RunsUpTo(s.v, p, k, end, s.iHigh) == true
  {
    RunsJoin(s.v, p, from, m, end);
    FourRuns(s.v, p, k);
    FourRuns(s.v, p, s.ip);
  }

  /** A run that is long enough in both places is a match, without comparing any bytes. */
  lemma RunSound(s: Search, p: byte, srcEnd: int, k: int, end: int, n: int)
    requires s.Valid() && RunsUpTo(s.v, p, s.ip, srcEnd, s.iHigh) && RunsUpTo(s.v, p, k, end, s.iHigh) && s.InReach(k) && s.iLow == s.ip
    requires n == Min(end - k, srcEnd - s.ip) && s.minLength <= n
    ensures s.Sound(Best(n, k, s.ip)) == true
  {
    RunsRepeat(s.v, p, k, s.ip, n);
  }

  lemma RunDone(s: Search, p: byte, srcEnd: int, k: int, end: int, longest: int)
    requires s.Valid() && RunsUpTo(s.v, p, s.ip, srcEnd, s.iHigh) && RunsUpTo(s.v, p, k, end, s.iHigh) && s.InReach(k)
    requires end - k != srcEnd - s.ip && Min(end - k, srcEnd - s.ip) <= longest
    ensures s.Done(k, longest) == true
  {
    forall n | s.Fits(k, n) ensures n <= longest { FitsInRun(s, p, srcEnd, k, end, n); }
  }

  lemma TriedMore(s: Search, k: int, longest: int, longest': int)
    requires s.Valid() && s.Tried(k, longest) && longest <= longest'
    ensures s.Tried(k, longest') == true
  {
  }

  /** Four times the byte `p` is at `m`. */
  predicate AllFour(v: Space, m: int, p: byte) { v.Valid() && v.Readable(m) && v.Four(m) == [p, p, p, p] }

  /** A candidate just before another one, in a run of `p` from `from` to `end`; the run at `ip` is up to `srcEnd`. */
  ghost predicate InRun(s: Search, p: byte, srcEnd: int, from: int, m: int, end: int) {
    && s.Valid() && s.InReach(m) && m + 1 < s.ip
    && RunsUpTo(s.v, p, s.ip, srcEnd, s.iHigh) && RunsDownTo(s.v, p, from, m) && RunsUpTo(s.v, p, m, end, s.iHigh)
  }

  /** How far the run of the candidate goes on, and how far back it is within reach. */
  method MeasureRun(s: Search, m: int, p: byte, ghost srcEnd: int) returns (forwardPatternLength: nat, backLength: nat, ghost from: int)
    requires s.Valid() == true && s.InReach(m) == true && m + 1 < s.ip && AllFour(s.v, m, p) == true && RunsUpTo(s.v, p, s.ip, srcEnd, s.iHigh) == true
    ensures InRun(s, p, srcEnd, from, m, m + forwardPatternLength) == true && from <= m - backLength && s.Lowest() <= m - backLength
    ensures backLength == m - Max(from, s.Lowest())
  {
    StepRoom(s, m);
    hide Search.InReach, RunsUpTo, RunsDownTo, AllFour, Space.Valid, Space.Readable, Space.Runs;
    forwardPatternLength := CountForward(s.v, m, s.iHigh, p);
    backLength := CountBackward(s.v, m, p);
    from := m - backLength;
    backLength := m - Max(m - backLength, s.Lowest());
  }

  /**
   The shortcut for repeated bytes: from the candidate `m` to the place of its run that is best, or
   past the whole run.
   */
  method PatternStep(s: Search, chainTable: array<int>, m: int, p: byte, srcPatternLength: nat, b: Best, ghost l: Links, ghost linked: bool)
    returns (k: int, best: Best, stop: bool)
    requires s.Valid() == true && s.Sound(b) == true && s.InReach(m) == true && m + 1 < s.ip && AllFour(s.v, m, p) == true
    requires RunsUpTo(s.v, p, s.ip, s.ip + srcPatternLength, s.iHigh) == true
    requires chainTable.Length == CHAIN_SIZE && chainTable[..] == l.c && Prepared(s, l) == true
    requires linked ==> l.Linked(s.v) == true && s.InReach(m + 1) == true && s.Tried(m + 1, b.longest) == true && s.Done(m + 1, b.longest) == true
    ensures k <= m && !stop && s.Sound(best) == true && b.longest <= best.longest && (s.Lowest() <= k ==> s.InReach(k) == true)
    ensures linked ==> Arrived(s, l, k, 0, best.longest) == true
  {
    hide *;
    best, stop := b, false;
    var forwardPatternLength, backLength, from := MeasureRun(s, m, p, s.ip + srcPatternLength);
    ghost var end := m + forwardPatternLength;
    RunRoom(s, p, s.ip + srcPatternLength, from, m, end);
    var currentSegmentLength := backLength + forwardPatternLength;
    var atEnd := currentSegmentLength >= srcPatternLength && forwardPatternLength <= srcPatternLength;
    k := if atEnd then m + forwardPatternLength - srcPatternLength else m - backLength;
    var protected := ProtectDictEnd(s.v.dictLimit, k);
    if !protected {
      k := s.v.dictLimit;
    }
    Land(s, l, p, s.ip + srcPatternLength, from, k, m, end, best.longest, linked);
    if !atEnd && protected && s.ip == s.iLow {
      k, best, stop := TakeRun(s, chainTable, k, p, srcPatternLength, Min(currentSegmentLength, srcPatternLength), b, end, l, linked);
    }
  }

  /** Without a way back, the length of the match there is known; and then the chain goes on from there. */
  method TakeRun(s: Search, chainTable: array<int>, m: int, p: byte, srcPatternLength: nat, maxML: int, b: Best, ghost end: int, ghost l: Links, ghost linked: bool)
    returns (k: int, best: Best, stop: bool)
    requires s.Valid() == true && s.Sound(b) == true && s.InReach(m) == true && s.iLow == s.ip
    requires RunsUpTo(s.v, p, s.ip, s.ip + srcPatternLength, s.iHigh) == true && RunsUpTo(s.v, p, m, end, s.iHigh) == true
    requires end - m != srcPatternLength && maxML == Min(end - m, srcPatternLength)
    requires chainTable.Length == CHAIN_SIZE && chainTable[..] == l.c && Prepared(s, l) == true
    requires linked ==> l.Linked(s.v) == true && Arrived(s, l, m, 0, b.longest) == true
    ensures k <= m && !stop && s.Sound(best) == true && b.longest <= best.longest && (s.Lowest() <= k ==> s.InReach(k) == true)
    ensures linked ==> Arrived(s, l, k, 0, best.longest) == true
  {
    k, stop := m, false;
    hide *;
    best, stop := TakeBest(s, m, p, srcPatternLength, maxML, b, end, l, linked);
    if stop { return; }
    Follow(s, l, m, 0, m, best.longest, linked);
    var distToNextPattern := ChainAt(chainTable, m);
    if distToNextPattern > m { return k, best, true; }
    k := m - distToNextPattern;
  }

  method TakeBest(s: Search, m: int, p: byte, srcPatternLength: nat, maxML: int, b: Best, ghost end: int, ghost l: Links, ghost linked: bool)
    returns (best: Best, stop: bool)
    requires s.Valid() == true && s.Sound(b) == true && s.InReach(m) == true && s.iLow == s.ip
    requires RunsUpTo(s.v, p, s.ip, s.ip + srcPatternLength, s.iHigh) == true && RunsUpTo(s.v, p, m, end, s.iHigh) == true
    requires end - m != srcPatternLength && maxML == Min(end - m, srcPatternLength)
    requires linked ==> Arrived(s, l, m, 0, b.longest) == true
    ensures !stop && s.Sound(best) == true && b.longest <= best.longest && s.Done(m, best.longest) == true
    ensures linked ==> Arrived(s, l, m, 0, best.longest) == true
  {
    best, stop := b, false;
    InReachMeans(s, m, b);
    hide *;
    if b.longest < maxML {
      if s.ip - m > DISTANCE_MAX { return best, true; }
      RunSound(s, p, s.ip + srcPatternLength, m, end, maxML);
      best := Best(maxML, m, s.ip);
    }
    RunDone(s, p, s.ip + srcPatternLength, m, end, best.longest);
    if linked { ArrivedMore(s, l, m, 0, b.longest, best.longest); }
  }

  method ChainAt(chainTable: array<int>, i: int) returns (d: int)
    requires chainTable.Length == CHAIN_SIZE
    ensures d == Delta(chainTable[..], i)
  {
    d := chainTable[i % CHAIN_SIZE];
  }

  lemma InReachMeans(s: Search, m: int, b: Best)
    requires s.Valid() == true && s.InReach(m) == true && s.Sound(b) == true
    ensures s.v.Valid() == true && m < s.ip && s.ip - m <= DISTANCE_MAX && s.minLength <= b.longest && 64 * KB <= s.v.lowLimit <= m
  {
  }

  lemma ArrivedMore(s: Search, l: Links, k: int, pos: nat, longest: int, longest': int)
    requires s.Valid() == true && Arrived(s, l, k, pos, longest) == true && longest <= longest'
    ensures Arrived(s, l, k, pos, longest') == true
  {
    TriedMore(s, k, longest, longest');
  }

  /** From a candidate that is done to the next one in the chain of `i`. */
  lemma Follow(s: Search, l: Links, m: int, pos: nat, i: int, longest: int, linked: bool)
    requires s.Valid() == true && Prepared(s, l) == true && s.InReach(m) == true && i == m + pos
    requires 0 < pos ==> i < s.ip && s.v.lowLimit == s.v.dictLimit && pos + 4 <= longest <= s.iHigh - s.ip
    requires linked ==> l.Linked(s.v) == true && Arrived(s, l, m, pos, longest) == true && s.Done(m, longest) == true
    ensures |l.c| == CHAIN_SIZE && 1 <= Delta(l.c, i) <= m
    ensures s.Lowest() <= m - Delta(l.c, i) ==> s.InReach(m - Delta(l.c, i)) == true
    ensures linked ==> Arrived(s, l, m - Delta(l.c, i), pos, longest) == true
  {
    hide *;
    StepInside(s, l, m, pos);
    if linked { Stepped(s, l, m, pos, longest); }
  }

  /** What the step needs to know of the run. */
  lemma RunRoom(s: Search, p: byte, srcEnd: int, from: int, m: int, end: int)
    requires InRun(s, p, srcEnd, from, m, end) == true
    ensures 0 <= s.v.lowLimit <= s.Lowest() <= m < INDEX_LIMIT && s.v.lowLimit <= s.v.dictLimit < INDEX_LIMIT && !(s.v.dictLimit - 3 <= m < s.v.dictLimit)
  {
  }

  /** The place where the step comes to. */
  lemma Land(s: Search, l: Links, p: byte, srcEnd: int, from: int, k: int, m: int, end: int, longest: int, linked: bool)
    requires InRun(s, p, srcEnd, from, m, end) == true && from <= k <= m && s.Lowest() <= k && !(s.v.dictLimit - 3 <= k < s.v.dictLimit)
    requires srcEnd - s.ip < end - m || end - k <= srcEnd - s.ip
    requires linked ==> s.InReach(m + 1) == true && s.Tried(m + 1, longest) == true && s.Done(m + 1, longest) == true
    ensures s.InReach(k) == true && RunsUpTo(s.v, p, k, end, s.iHigh) == true
    ensures linked ==> Arrived(s, l, k, 0, longest) == true
  {
    Landed(s, l, p, srcEnd, from, k, m, end);
    if linked { Skipped(s, p, srcEnd, k, m, end, longest); }
  }

  lemma StepRoom(s: Search, m: int)
    requires s.Valid() == true && s.InReach(m)
    ensures s.v.Valid() == true && m + MINMATCH <= s.iHigh && s.v.dictLimit <= s.iHigh < s.v.end && s.v.lowLimit <= s.Lowest() <= m < s.v.end
  {
  }

  // ----- The whole search -----

  datatype RepeatState = Untested | Not | Confirmed

  /** Where the search is: the next candidate, the chain it follows, and what is known of the pattern at `ip`. */
  datatype State = State(matchIndex: int, best: Best, matchChainPos: nat, repeat: RepeatState, srcPatternLength: nat)

  /** What each turn keeps. */
  ghost predicate Going(s: Search, l: Links, linked: bool, t: State) {
    && s.Valid() && s.Sound(t.best) && t.matchIndex < s.ip
    && (s.Lowest() <= t.matchIndex && s.Behind(t.matchIndex) ==> s.Candidate(t.matchIndex, t.best.longest) && s.MayReadBehind() && !linked)
    && (0 < t.matchChainPos ==> OtherChain(s, t))
    && (t.repeat == Confirmed ==> RunsUpTo(s.v, s.v.At(s.ip), s.ip, s.ip + t.srcPatternLength, s.iHigh))
    && (linked ==> (s.swap ==> s.v.lowLimit == s.v.dictLimit) && l.Linked(s.v) && Arrived(s, l, t.matchIndex, t.matchChainPos, t.best.longest))
  }

  /** After a jump to another chain. */
  predicate OtherChain(s: Search, t: State) {
    && s.swap && t.matchIndex + t.matchChainPos < s.ip && t.matchChainPos + 4 <= t.best.longest
    && (s.v.dictLimit <= t.matchIndex ==> s.Room(t.matchIndex))
  }

  lemma GoingParts(s: Search, l: Links, linked: bool, t: State)
    requires Going(s, l, linked, t) == true && s.Lowest() <= t.matchIndex
    ensures s.Valid() == true && s.v.Valid() && s.v.lowLimit <= s.ip < s.v.end && s.Sound(t.best) == true && s.Candidate(t.matchIndex, t.best.longest) == true
    ensures t.matchIndex < s.ip && 1 <= s.minLength <= t.best.longest <= s.iHigh - s.iLow && (s.swap ==> s.iLow == s.ip)
    ensures s.Behind(t.matchIndex) ==> s.MayReadBehind() && !linked && s.swap && MINMATCH <= t.best.longest
    ensures !s.Behind(t.matchIndex) ==> s.InReach(t.matchIndex) == true
    ensures 0 < t.matchChainPos ==> OtherChain(s, t) == true
    ensures t.repeat == Confirmed ==> RunsUpTo(s.v, s.v.At(s.ip), s.ip, s.ip + t.srcPatternLength, s.iHigh) == true
    ensures linked ==> (s.swap ==> s.v.lowLimit == s.v.dictLimit) && l.Linked(s.v) == true && Arrived(s, l, t.matchIndex, t.matchChainPos, t.best.longest) == true
    ensures 0 <= s.v.dictLimit < INDEX_LIMIT && 1 <= t.matchIndex < INDEX_LIMIT
  {
  }

  lemma GoingFrom(s: Search, l: Links, linked: bool, t: State)
    requires s.Valid() == true && s.v.Valid() && s.v.lowLimit <= s.ip < s.v.end && s.Sound(t.best) == true && t.matchIndex < s.ip
    requires s.Lowest() <= t.matchIndex && s.Behind(t.matchIndex) ==> s.swap && MINMATCH <= t.best.longest && s.MayReadBehind() && !linked
    requires 0 < t.matchChainPos ==> OtherChain(s, t) == true
    requires t.repeat == Confirmed ==> RunsUpTo(s.v, s.v.At(s.ip), s.ip, s.ip + t.srcPatternLength, s.iHigh) == true
    requires linked ==> (s.swap ==> s.v.lowLimit == s.v.dictLimit) && l.Linked(s.v) == true && Arrived(s, l, t.matchIndex, t.matchChainPos, t.best.longest) == true
    ensures Going(s, l, linked, t) == true
  {
  }

  /** A place within reach can be read. */
  lemma PlaceReadable(s: Search, m: int)
    requires s.Valid() == true && s.InReach(m) == true
    ensures !s.Behind(m)
  {
  }

  /** From a candidate in the prefix, only another chain leads behind the dictionary. */
  lemma EntersBehind(s: Search, l: Links, m: int, pos: nat)
    requires s.Valid() == true && Prepared(s, l) == true && s.InReach(m) == true && m + pos < s.ip
    ensures |l.c| == CHAIN_SIZE
    ensures var k := m - Delta(l.c, m + pos); s.Lowest() <= k && s.Behind(k) ==> 0 < pos && s.v.dictLimit <= m
  {
  }

  /** The first byte of the prefix has no near predecessor in its chain. */
  lemma FirstOfPrefix(s: Search, l: Links, m: int, d: int)
    requires s.Valid() == true && Prepared(s, l) == true && s.InReach(m) == true && Delta(l.c, m) <= d && s.Lowest() <= m - d && s.Behind(m - d) && s.v.dictLimit <= m
    ensures s.v.dictLimit < m
  {
    assert Delta(l.c, m) == DISTANCE_MAX || !Gap(s.v.lowLimit, s.v.dictLimit, m - Delta(l.c, m));
  }

  /** The next candidate in the chain that is followed. */
  lemma GoingOn(s: Search, l: Links, linked: bool, t: State, next: State)
    requires Going(s, l, linked, t) == true && Prepared(s, l) == true && s.Lowest() <= t.matchIndex && (linked ==> s.Done(t.matchIndex, t.best.longest) == true)
    requires |l.c| == CHAIN_SIZE && next == t.(matchIndex := t.matchIndex - Delta(l.c, t.matchIndex + t.matchChainPos))
    ensures next.matchIndex <= t.matchIndex && Going(s, l, linked, next) == true && (next.matchIndex < t.matchIndex || MayStand(s))
  {
    hide *;
    GoingParts(s, l, linked, t);
    StepBack(s, l, t.matchIndex, t.matchIndex + t.matchChainPos);
    OtherParts(s, t);
    if next.matchIndex == t.matchIndex {
      Stands(s, t);
      return;
    }
    if linked {
      FollowLinked(s, l, t, next);
    } else if !s.Behind(t.matchIndex) {
      EntersBehind(s, l, t.matchIndex, t.matchChainPos);
      if s.Lowest() <= next.matchIndex && s.Behind(next.matchIndex) {
        EntersByFollowing(s, t.matchIndex, t.matchIndex - next.matchIndex, t.matchChainPos, t.best.longest);
      }
    }
    OtherEarlier(s, t, next);
    GoingFrom(s, l, linked, next);
  }

  lemma FollowLinked(s: Search, l: Links, t: State, next: State)
    requires Going(s, l, true, t) == true && Prepared(s, l) == true && s.Lowest() <= t.matchIndex && s.Done(t.matchIndex, t.best.longest) == true
    requires |l.c| == CHAIN_SIZE && next == t.(matchIndex := t.matchIndex - Delta(l.c, t.matchIndex + t.matchChainPos))
    ensures Arrived(s, l, next.matchIndex, next.matchChainPos, next.best.longest) == true && (s.Lowest() <= next.matchIndex ==> !s.Behind(next.matchIndex))
  {
    hide *;
    GoingParts(s, l, true, t);
    OtherParts(s, t);
    Follow(s, l, t.matchIndex, t.matchChainPos, t.matchIndex + t.matchChainPos, t.best.longest, true);
    if s.Lowest() <= next.matchIndex { PlaceReadable(s, next.matchIndex); }
  }

  lemma OtherParts(s: Search, t: State)
    requires 0 < t.matchChainPos ==> OtherChain(s, t) == true
    requires t.matchIndex < s.ip
    ensures t.matchIndex + t.matchChainPos < s.ip
    ensures 0 < t.matchChainPos ==> s.swap && t.matchChainPos + 4 <= t.best.longest && (s.v.dictLimit <= t.matchIndex ==> s.Room(t.matchIndex))
  {
  }

  lemma OtherMore(s: Search, t: State, next: State)
    requires 0 < t.matchChainPos ==> OtherChain(s, t) == true
    requires next.matchIndex == t.matchIndex && next.matchChainPos == t.matchChainPos && t.best.longest <= next.best.longest
    ensures 0 < next.matchChainPos ==> OtherChain(s, next) == true
  {
  }

  lemma OtherEarlier(s: Search, t: State, next: State)
    requires 0 < t.matchChainPos ==> OtherChain(s, t) == true
    requires next.matchIndex < t.matchIndex && next.matchChainPos == t.matchChainPos && next.best == t.best
    ensures 0 < next.matchChainPos ==> OtherChain(s, next) == true
  {
  }

  lemma EntersByFollowing(s: Search, m: int, d: int, pos: nat, longest: int)
    requires s.Valid() == true && s.swap && s.Room(m) && s.v.dictLimit <= m && pos + 4 <= longest && s.Lowest() <= m - d && s.Behind(m - d)
    ensures s.MayReadBehind() && MINMATCH <= longest
  {
  }

  /** All four bytes at `ip` are the same, and how often they are repeated. */
  method StartPattern(s: Search) returns (repeat: RepeatState, srcPatternLength: nat)
    requires s.Valid() == true && s.v.Valid() && s.v.lowLimit <= s.ip < s.v.end
    ensures repeat != Untested
    ensures repeat == Confirmed ==> RunsUpTo(s.v, s.v.At(s.ip), s.ip, s.ip + srcPatternLength, s.iHigh) == true
  {
    var q := s.v.Four(s.ip);
    FourAre(s.v, s.ip);
    repeat, srcPatternLength := Not, 0;
    if q[0..2] == q[2..4] && q[0] == q[3] {
      assert q[0] == q[0..2][0] == q[2..4][0] == q[2] && q[1] == q[0..2][1] == q[2..4][1] == q[3];
      assert q == [q[0], q[0], q[0], q[0]];
      repeat := Confirmed;
      srcPatternLength := CountForward(s.v, s.ip, s.iHigh, q[0]);
    }
  }

  /** A better chain: the match has just been extended, or found again. */
  lemma Swapped(s: Search, l: Links, m: int, pos0: nat, pos: nat, longest0: int, longest: int)
    requires s.Valid() == true && s.InReach(m) == true && Arrived(s, l, m, pos0, longest0) == true && longest0 <= longest && 0 < longest && s.AtLeast(m, longest) == true && s.iLow == s.ip
    requires m + longest <= s.ip && pos + 4 <= longest && s.v.lowLimit == s.v.dictLimit
    ensures Arrived(s, l, m, pos, longest) == true
  {
    FourRepeats(s.v, m, s.ip, longest, pos);
    TriedMore(s, m, longest0, longest);
  }

  /** A match of the prefix that leads to another chain is long enough. */
  lemma LongEnough(s: Search, m: int, longest0: int, longest: int, n: nat)
    requires s.Valid() == true && s.InReach(m) == true && s.iLow == s.ip && s.v.dictLimit <= m && s.minLength <= longest0 && longest == Max(longest0, n) && n == longest
    requires s.AtLeast(m, n) == true && s.Counts(m, longest0, n) == true && 5 <= longest
    ensures s.Shortest() <= longest && s.ip + s.Shortest() <= s.iHigh && (s.favor ==> 8 <= s.ip - m)
  {
  }

  /** The chain of another place in the match, and where it leads. */
  lemma SwappedTo(s: Search, l: Links, linked: bool, t: State, next: State, n: nat)
    requires Going(s, l, linked, t) == true && Prepared(s, l) == true && s.Lowest() <= t.matchIndex && s.swap && s.Sound(next.best) == true
    requires next.best.longest == Max(t.best.longest, n) && n == next.best.longest && s.Done(t.matchIndex, n) == true && t.matchIndex + n <= s.ip && next.matchChainPos + 4 <= n
    requires !s.Behind(t.matchIndex) ==> s.AtLeast(t.matchIndex, n) == true && s.Counts(t.matchIndex, t.best.longest, n) == true
    requires |l.c| == CHAIN_SIZE && next == t.(matchIndex := t.matchIndex - Delta(l.c, t.matchIndex + next.matchChainPos), matchChainPos := next.matchChainPos, best := next.best)
    requires 1 < t.matchIndex - next.matchIndex && Delta(l.c, t.matchIndex) <= t.matchIndex - next.matchIndex && (s.Behind(t.matchIndex) ==> next.matchChainPos == 0)
    ensures Going(s, l, linked, next) == true
  {
    var m, pos, d := t.matchIndex, next.matchChainPos, t.matchIndex - next.matchIndex;
    SwapNumbers(t.best.longest, n);
    hide *;
    GoingParts(s, l, linked, t);
    if linked {
      SwapLinked(s, l, t, next, n);
    } else if !s.Behind(m) {
      EntersBehind(s, l, m, pos);
      if s.Lowest() <= m - d && s.Behind(m - d) { EntersBySwapping(s, l, m, t.best.longest, n, pos, d); }
    }
    if 0 < pos { OtherBySwapping(s, t, next, n, d); }
    GoingFrom(s, l, linked, next);
  }

  lemma SwapNumbers(longest: int, n: int)
    requires n == Max(longest, n)
    ensures longest <= n && MINMATCH == 4
  {
  }

  lemma SwapLinked(s: Search, l: Links, t: State, next: State, n: nat)
    requires Going(s, l, true, t) == true && Prepared(s, l) == true && s.Lowest() <= t.matchIndex && s.swap && s.Sound(next.best) == true
    requires next.best.longest == n && t.best.longest <= n && s.Done(t.matchIndex, n) == true && t.matchIndex + n <= s.ip && next.matchChainPos + 4 <= n && s.AtLeast(t.matchIndex, n) == true
    requires |l.c| == CHAIN_SIZE && next == t.(matchIndex := t.matchIndex - Delta(l.c, t.matchIndex + next.matchChainPos), matchChainPos := next.matchChainPos, best := next.best)
    ensures Arrived(s, l, next.matchIndex, next.matchChainPos, n) == true && (s.Lowest() <= next.matchIndex ==> !s.Behind(next.matchIndex))
  {
    hide *;
    GoingParts(s, l, true, t);
    BestParts(s, next.best);
    Swapped(s, l, t.matchIndex, t.matchChainPos, next.matchChainPos, t.best.longest, n);
    Follow(s, l, t.matchIndex, next.matchChainPos, t.matchIndex + next.matchChainPos, n, true);
    if s.Lowest() <= next.matchIndex { PlaceReadable(s, next.matchIndex); }
  }

  lemma EntersBySwapping(s: Search, l: Links, m: int, longest0: int, n: nat, pos: nat, d: int)
    requires s.Valid() == true && Prepared(s, l) == true && s.InReach(m) == true && s.swap && s.minLength <= longest0 && n == Max(longest0, n) && pos + 4 <= n && m + n <= s.ip
    requires s.AtLeast(m, n) == true && s.Counts(m, longest0, n) == true && s.Lowest() <= m - d && s.Behind(m - d)
    requires |l.c| == CHAIN_SIZE && Delta(l.c, m) <= d && d == Delta(l.c, m + pos)
    ensures s.MayReadBehind() && MINMATCH <= n
  {
    EntersBehind(s, l, m, pos);
    FirstOfPrefix(s, l, m, d);
    LongEnough(s, m, longest0, n, n);
  }

  lemma OtherBySwapping(s: Search, t: State, next: State, n: nat, d: int)
    requires s.Valid() == true && s.swap && 0 < next.matchChainPos && next.matchChainPos + 4 <= n && next.matchIndex == t.matchIndex - d && 1 < d && next.best.longest == n && t.matchIndex + n <= s.ip
    requires n == Max(t.best.longest, n) && s.minLength <= t.best.longest && s.InReach(t.matchIndex) == true && s.AtLeast(t.matchIndex, n) == true && s.Counts(t.matchIndex, t.best.longest, n) == true
    ensures OtherChain(s, next) == true
  {
    if s.v.dictLimit <= next.matchIndex { LongEnough(s, t.matchIndex, t.best.longest, n, n); }
  }

  /** The second place that a search comes to is behind the dictionary. */
  ghost predicate JumpsBehind(s: Search, l: Links, m: int, longest: int, pos: nat, n: nat) {
    && s.swap && |l.c| == CHAIN_SIZE && s.v.dictLimit <= m && s.InReach(m)
    && MINMATCH <= n && longest <= n && s.TwoAlike(m, longest) && Maximal(s.v, m, s.ip, n, s.iHigh) && m + n <= s.ip && (s.favor ==> 8 <= s.ip - m)
    && var r := Better(l.c, m, n - MINMATCH + 1, 0, 16, 1, pos); 1 < r.0 && s.Lowest() <= m - r.0 && s.Behind(m - r.0)
  }

  /** If any length says so, then what was counted does. */
  ghost predicate Jumping(s: Search, l: Links, t: State) { exists n: nat :: JumpsBehind(s, l, t.matchIndex, t.best.longest, t.matchChainPos, n) }

  lemma JumpingMeans(s: Search, l: Links, t: State, best: Best, matchLength: nat)
    requires s.Valid() == true && Jumping(s, l, t) == true && best.longest == Max(t.best.longest, matchLength)
    requires !s.Behind(t.matchIndex) ==> s.Counts(t.matchIndex, t.best.longest, matchLength) == true
    ensures matchLength == best.longest && t.matchIndex + best.longest <= s.ip && |l.c| == CHAIN_SIZE && s.swap
    ensures var r := Better(l.c, t.matchIndex, best.longest - MINMATCH + 1, 0, 16, 1, t.matchChainPos);
            1 < r.0 && s.Lowest() <= t.matchIndex - r.0 && s.Behind(t.matchIndex - r.0) && (s.favor ==> 8 <= s.ip - (t.matchIndex - r.0))
  {
    var n: nat :| JumpsBehind(s, l, t.matchIndex, t.best.longest, t.matchChainPos, n);
    assert matchLength == n;
  }

  /** The jump to the next candidate of a better chain, if there is one. */
  method Swap(s: Search, chainTable: array<int>, t: State, best: Best, matchLength: nat, ghost l: Links, ghost linked: bool) returns (swapped: bool, next: State, stop: bool)
    requires chainTable.Length == CHAIN_SIZE && chainTable[..] == l.c && Prepared(s, l) == true && Going(s, l, linked, t) == true && s.Lowest() <= t.matchIndex && s.swap
    requires s.Sound(best) == true && best.longest == Max(t.best.longest, matchLength) && matchLength == best.longest && s.Done(t.matchIndex, best.longest) == true
    requires !s.Behind(t.matchIndex) ==> s.AtLeast(t.matchIndex, matchLength) == true && s.Counts(t.matchIndex, t.best.longest, matchLength) == true
    requires s.Behind(t.matchIndex) ==> matchLength <= MINMATCH
    ensures !stop && (swapped ==> next.matchIndex < t.matchIndex && Going(s, l, linked, next) == true)
    ensures |l.c| == CHAIN_SIZE
    ensures var r := Better(l.c, t.matchIndex, best.longest - MINMATCH + 1, 0, 16, 1, t.matchChainPos);
            t.matchIndex + best.longest <= s.ip && 1 < r.0 ==> swapped && next.matchIndex == t.matchIndex - r.0
  {
    SwapLength(s, t, best, matchLength);
    hide *;
    swapped, next, stop := false, t, false;
    var m := t.matchIndex;
    if m + best.longest <= s.ip {
      var distance, pos := BetterChain(chainTable, m, best.longest, t.matchChainPos);
      if distance > 1 {
        PlaceInside(s, m, pos, best.longest);
        StepBack(s, l, m, m + pos);
        if distance > m { return false, t, true; }
        swapped, next := true, t.(matchIndex := m - distance, matchChainPos := pos, best := best);
        SwappedTo(s, l, linked, t, next, matchLength);
      }
    }
  }

  lemma SwapLength(s: Search, t: State, best: Best, matchLength: nat)
    requires best.longest == Max(t.best.longest, matchLength) && matchLength == best.longest && s.Sound(best) == true && s.Valid() == true
    requires !s.Behind(t.matchIndex) ==> s.AtLeast(t.matchIndex, matchLength) == true
    requires s.swap
    requires s.Behind(t.matchIndex) ==> matchLength <= MINMATCH && MINMATCH <= best.longest
    ensures MINMATCH <= best.longest
  {
  }

  lemma BestParts(s: Search, b: Best)
    requires s.Valid() == true && s.Sound(b) == true
    ensures 1 <= b.longest <= s.iHigh - s.iLow
  {
  }

  lemma PlaceInside(s: Search, m: int, pos: int, longest: int)
    requires pos <= longest - MINMATCH && m + longest <= s.ip
    ensures m + pos < s.ip && pos + 4 <= longest
  {
  }

  /** One candidate, and the way to the next one. */
  method Turn(s: Search, chainTable: array<int>, patternAnalysis: bool, t: State, ghost l: Links, ghost linked: bool) returns (next: State, stop: bool, readBehind: bool)
    requires chainTable.Length == CHAIN_SIZE && chainTable[..] == l.c && Prepared(s, l) == true && Going(s, l, linked, t) == true && s.Lowest() <= t.matchIndex
    ensures !stop && next.matchIndex <= t.matchIndex && Going(s, l, linked, next) == true && (next.matchIndex < t.matchIndex || MayStand(s))
    ensures readBehind == (s.Behind(t.matchIndex) && (s.favor ==> 8 <= s.ip - t.matchIndex))
    ensures Jumping(s, l, t) ==> s.Lowest() <= next.matchIndex && s.Behind(next.matchIndex) && (s.favor ==> 8 <= s.ip - next.matchIndex)
  {
    hide *;
    GoingParts(s, l, linked, t);
    var m := t.matchIndex;
    var matchLength, best;
    matchLength, best, readBehind := Try(s, m, t.best);
    if Jumping(s, l, t) { JumpingMeans(s, l, t, best, matchLength); }
    if s.swap && matchLength == best.longest {
      var swapped;
      swapped, next, stop := Swap(s, chainTable, t, best, matchLength, l, linked);
      if swapped || stop { return; }
    }
    if linked { ArrivedMore(s, l, m, t.matchChainPos, t.best.longest, best.longest); }
    var t' := t.(best := best);
    BestParts(s, best);
    OtherMore(s, t, t');
    GoingFrom(s, l, linked, t');
    var distNextMatch := ChainAt(chainTable, m);
    if patternAnalysis && distNextMatch == 1 && t.matchChainPos == 0 {
      var jumped;
      jumped, next, stop := Jump(s, chainTable, t', l, linked);
      if jumped || stop { return; }
      t' := next;
    }
    var distance := ChainAt(chainTable, m + t.matchChainPos);
    next, stop := t'.(matchIndex := m - distance), false;
    GoingOn(s, l, linked, t', next);
  }

  /** The jump within a run of the byte at `ip`, if the next candidate is in one. */
  method Jump(s: Search, chainTable: array<int>, t: State, ghost l: Links, ghost linked: bool) returns (jumped: bool, next: State, stop: bool)
    requires chainTable.Length == CHAIN_SIZE && chainTable[..] == l.c && Prepared(s, l) == true && Going(s, l, linked, t) == true && s.Lowest() <= t.matchIndex
    requires t.matchChainPos == 0 && s.Done(t.matchIndex, t.best.longest) == true
    ensures !stop && Going(s, l, linked, next) == true
    ensures if jumped then next.matchIndex < t.matchIndex else next == t.(repeat := next.repeat, srcPatternLength := next.srcPatternLength)
  {
    hide *;
    jumped, stop := false, false;
    var repeat, srcPatternLength := t.repeat, t.srcPatternLength;
    GoingParts(s, l, linked, t);
    if repeat == Untested {
      repeat, srcPatternLength := StartPattern(s);
    }
    next := t.(repeat := repeat, srcPatternLength := srcPatternLength);
    GoingFrom(s, l, linked, next);
    var candidate := t.matchIndex - 1;
    if repeat == Confirmed && candidate >= s.Lowest() {
      var protected := ProtectDictEnd(s.v.dictLimit, candidate);
      var p := s.v.At(s.ip);
      if protected && AllFour(s.v, candidate, p) {
        CandidateBefore(s, t.matchIndex, candidate);
        if linked { ArrivedHere(s, l, t.matchIndex, t.best.longest); }
        var k, best;
        k, best, stop := PatternStep(s, chainTable, candidate, p, srcPatternLength, t.best, l, linked);
        jumped, next := true, next.(matchIndex := k, best := best);
        if s.Lowest() <= k { PlaceReadable(s, k); }
        GoingFrom(s, l, linked, next);
      }
    }
  }

  lemma CandidateBefore(s: Search, m: int, k: int)
    requires s.Valid() == true && m < s.ip && k == m - 1 && s.Lowest() <= k && !(s.v.dictLimit - 3 <= k < s.v.dictLimit)
    ensures s.InReach(k) == true && k + 1 == m
  {
  }

  lemma ArrivedHere(s: Search, l: Links, m: int, longest: int)
    requires s.Valid() == true && Arrived(s, l, m, 0, longest) == true
    ensures s.Tried(m, longest) == true
  {
  }

  /** The search itself, from the first candidate on; and whether it has read behind the dictionary. */
  method SearchChain(s: Search, chainTable: array<int>, first: int, maxNbAttempts: int, patternAnalysis: bool, ghost l: Links, ghost linked: bool)
    returns (best: Best, nbAttempts: int, readBehind: bool)
    requires chainTable.Length == CHAIN_SIZE && chainTable[..] == l.c && Prepared(s, l) == true
    requires Going(s, l, linked, Start(s, first)) == true && (s.Lowest() <= first ==> !s.Behind(first))
    ensures s.Sound(best) == true
    ensures linked && 0 < nbAttempts ==> s.Longest(best.longest) == true
    ensures s.ip - s.Lowest() < maxNbAttempts && !MayStand(s) ==> 0 < nbAttempts
    ensures readBehind ==> 2 <= maxNbAttempts && s.MayReadBehind()
    ensures 2 <= maxNbAttempts && Jumping(s, l, Start(s, first)) ==> readBehind
  {
    hide *;
    nbAttempts, readBehind := maxNbAttempts, false;
    var t := Start(s, first);
    StartMeans(s, l, first);
    ghost var jumping, attempts := Jumping(s, l, t), 0;
    NoAttempts(s, l, linked, t);
    while t.matchIndex >= s.Lowest() && nbAttempts > 0
      decreases nbAttempts
      invariant Going(s, l, linked, t) == true
      invariant nbAttempts == maxNbAttempts - attempts && 0 <= attempts && (0 < attempts ==> 0 <= nbAttempts)
      invariant MayStand(s) || (attempts <= s.ip - s.Lowest() && attempts < s.ip - t.matchIndex)
      invariant readBehind ==> 2 <= attempts && s.MayReadBehind()
      invariant attempts == 0 ==> t == Start(s, first)
      invariant jumping && attempts == 1 ==> s.Lowest() <= t.matchIndex && s.Behind(t.matchIndex) && (s.favor ==> 8 <= s.ip - t.matchIndex)
      invariant jumping && 2 <= attempts ==> readBehind
    {
      if !MayStand(s) { OneAttempt(s, l, linked, t, attempts); }
      GoingParts(s, l, linked, t);
      nbAttempts, attempts := nbAttempts - 1, attempts + 1;
      var stop, behind;
      t, stop, behind := Turn(s, chainTable, patternAnalysis, t, l, linked);
      readBehind := readBehind || behind;
      if stop { break; }
    }
    best := t.best;
    Finished(s, l, linked, t);
  }

  function Start(s: Search, first: int): State { State(first, Best(s.minLength, 0, 0), 0, Untested, 0) }

  lemma StartMeans(s: Search, l: Links, first: int)
    ensures Start(s, first).matchIndex == first && (Jumping(s, l, Start(s, first)) ==> s.Lowest() <= first)
  {
  }

  lemma NoAttempts(s: Search, l: Links, linked: bool, t: State)
    requires Going(s, l, linked, t) == true
    ensures 0 <= s.ip - s.Lowest() && t.matchIndex < s.ip
  {
  }

  lemma OneAttempt(s: Search, l: Links, linked: bool, t: State, attempts: int)
    requires Going(s, l, linked, t) == true && s.Lowest() <= t.matchIndex && attempts < s.ip - t.matchIndex
    ensures attempts < s.ip - s.Lowest()
  {
  }

  /** After the last candidate within reach, everything has been tried. */
  lemma Finished(s: Search, l: Links, linked: bool, t: State)
    requires Going(s, l, linked, t) == true
    ensures s.Sound(t.best) == true && (linked && t.matchIndex < s.Lowest() ==> s.Longest(t.best.longest) == true)
  {
    if linked && t.matchIndex < s.Lowest() { TriedAll(s, t.matchIndex, t.best.longest); }
  }

  lemma TriedAll(s: Search, k: int, longest: int)
    requires s.Valid() && s.Tried(k, longest) && k < s.Lowest()
    ensures s.Longest(longest) == true
  {
    forall m, n | s.Fits(m, n) ensures n <= longest {
      assert k < m;
    }
  }
}
