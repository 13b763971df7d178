/**
 The match search of lz4hc.c, whatever its hash function is. A match that is found is a genuine one,
 even if the memory has changed since the positions were inserted; and if it has not, with attempts
 left at the end neither the jump to a better chain nor the shortcut for repeated bytes has missed a
 longer one.
 */
module HcMatchFinder {
  import opened Bytes
  import opened BlockFormat
  import opened BlockEncoding
  import opened HcChains
  import opened HcSearch

  /** LZ4HC_match_t: its offset and length, or zeros. */
  datatype HcMatch = HcMatch(off: int, len: int)

  /** Either a match at `ip` that can be written, or none. */
  ghost predicate Found(s: Search, m: HcMatch) {
    && s.Valid()
    && (m == HcMatch(0, 0) ||
        (1 <= m.off <= DISTANCE_MAX && MINMATCH <= m.len && s.ip + m.len <= s.iHigh && s.v.Repeats(s.ip - m.off, s.ip, m.len)))
  }

  /** None is longer; and there is one if any is longer than `minLength`. */
  ghost predicate NoneLonger(s: Search, m: HcMatch) { s.Longest(Max(m.len, s.minLength)) }

  /** LZ4HC_CCtx_internal. The prefix is followed by the input up to the index `end`. */
  class HcContext {
    const hash: seq<byte> -> nat
    const hashTable: array<int>
    const chainTable: array<int>
    var base: int
    var dictBase: int
    var lowLimit: int
    var dictLimit: int
    var end: int
    var nextToUpdate: int

    ghost predicate Valid()
      reads this, hashTable, chainTable
    {
      && hashTable != chainTable && 64 * KB <= lowLimit <= dictLimit <= nextToUpdate <= Max(dictLimit, end - 3) && dictLimit <= end < INDEX_LIMIT
      && Chained(hashTable[..], chainTable[..], lowLimit, dictLimit, nextToUpdate)
    }

    function View(mem: seq<byte>): Space
      reads this`base, this`dictBase, this`lowLimit, this`dictLimit, this`end
    {
      Space(mem, base, dictBase, lowLimit, dictLimit, end)
    }

    ghost function Tables(): Links
      reads this`nextToUpdate, hashTable, chainTable
    {
      Links(hash, hashTable[..], chainTable[..], nextToUpdate)
    }

    /** The tables fit what is in memory: nothing that was inserted has been overwritten. */
    ghost predicate UpToDate(mem: seq<byte>)
      reads this, hashTable, chainTable
    {
      Tables().Linked(View(mem))
    }

    /** LZ4HC_initStreamHC and LZ4HC_init_internal, for a fresh state. */
    constructor (hash: seq<byte> -> nat, start: int)
      requires 0 <= start
      ensures Valid() && base + dictLimit == start && lowLimit == dictLimit == end == 64 * KB && fresh(hashTable) && fresh(chainTable) && this.hash == hash
      ensures forall mem: seq<byte> :: start <= |mem| ==> UpToDate(mem)
    {
      this.hash := hash;
      hashTable := new int[HASH_SIZE](_ => 0);
      chainTable := new int[CHAIN_SIZE](_ => 0);
      base, dictBase, lowLimit, dictLimit, end, nextToUpdate := start - 64 * KB, start - 64 * KB, 64 * KB, 64 * KB, 64 * KB, 64 * KB;
    }

    /** LZ4_initStreamHC: everything is zero. */
    constructor Blank(hash: seq<byte> -> nat)
      ensures Reusable() == true && end == 0 && fresh(hashTable) && fresh(chainTable) && this.hash == hash
    {
      this.hash := hash;
      hashTable := new int[HASH_SIZE](_ => 0);
      chainTable := new int[CHAIN_SIZE](_ => 0);
      base, dictBase, lowLimit, dictLimit, end, nextToUpdate := 0, 0, 0, 0, 0, 0;
    }

    /** The same on a state that was used before. */
    method Wipe()
      requires hashTable != chainTable && hashTable.Length == HASH_SIZE && chainTable.Length == CHAIN_SIZE
      modifies this, hashTable, chainTable
      ensures Reusable() == true && end == 0
    {
      forall h | 0 <= h < hashTable.Length { hashTable[h] := 0; }
      forall k | 0 <= k < chainTable.Length { chainTable[k] := 0; }
      base, dictBase, lowLimit, dictLimit, end, nextToUpdate := 0, 0, 0, 0, 0, 0;
    }

    /** Tables as earlier calls have left them, whatever is in memory now. */
    ghost predicate Reusable()
      reads this`end, hashTable, chainTable
    {
      && hashTable != chainTable && hashTable.Length == HASH_SIZE && chainTable.Length == CHAIN_SIZE && 0 <= end < INDEX_LIMIT
      && (forall h :: 0 <= h < HASH_SIZE ==> 0 <= hashTable[h] <= end)
      && (forall k :: 0 <= k < CHAIN_SIZE ==> 0 <= chainTable[k] <= DISTANCE_MAX)
    }

    lemma ValidIsReusable()
      requires Valid() == true
      ensures Reusable() == true
    {
    }

    /** LZ4HC_clearTables. */
    method ClearTables()
      requires Reusable() == true
      modifies hashTable, chainTable
      ensures forall h :: 0 <= h < hashTable.Length ==> hashTable[h] == 0
      ensures forall k :: 0 <= k < chainTable.Length ==> chainTable[k] == 0xFFFF
    {
      forall h | 0 <= h < hashTable.Length { hashTable[h] := 0; }
      forall k | 0 <= k < chainTable.Length { chainTable[k] := 0xFFFF; }
    }

    /** LZ4HC_init_internal: a new space that begins at `start`, with indices behind all that were used before. */
    method InitInternal(start: int)
      requires Reusable() == true && 0 <= start
      modifies this, hashTable, chainTable
      ensures Valid() == true && lowLimit == dictLimit == nextToUpdate == end && base + end == start && dictBase == base
      ensures 64 * KB <= end == (if old(end) > GB then 0 else old(end)) + 64 * KB
      ensures forall mem: seq<byte> :: start <= |mem| ==> UpToDate(mem)
    {
      var startingOffset := end;
      if startingOffset > GB {
        ClearTables();
        startingOffset := 0;
      }
      startingOffset := startingOffset + 64 * KB;
      nextToUpdate, base, end, dictBase := startingOffset, start - startingOffset, startingOffset, start - startingOffset;
      dictLimit, lowLimit := startingOffset, startingOffset;
    }

    /** The dictionary loses its front. */
    method RaiseLow(low: int)
      requires Valid() == true && lowLimit <= low <= dictLimit
      modifies this`lowLimit
      ensures Valid() == true && lowLimit == low
    {
      ChainedBehind(hashTable[..], chainTable[..], lowLimit, low, dictLimit, nextToUpdate);
      lowLimit := low;
    }

    /** All but the last `n` bytes of the prefix are given up, and these are now at `at`. */
    method MoveTo(at: int, n: nat)
      requires Valid() == true && n <= end - dictLimit
      modifies this`base, this`end, this`dictLimit, this`lowLimit, this`nextToUpdate
      ensures Valid() == true && end == old(end) && lowLimit == dictLimit == end - n && base + end == at + n
    {
      var endIndex := end;
      base := at + n - endIndex;
      dictLimit, lowLimit := endIndex - n, endIndex - n;
      if nextToUpdate < dictLimit { nextToUpdate := dictLimit; }
    }

    /** LZ4HC_hashPtr, for an arbitrary hash function. */
    function HashAt(mem: seq<byte>, a: int): (h: nat)
      requires 0 <= a && a + 4 <= |mem|
      ensures h < HASH_SIZE
    {
      hash(mem[a..a + 4]) % HASH_SIZE
    }

    // ----- Inserting -----

    /** LZ4HC_Insert: all positions before `target` go into the table and the chains. */
    method Insert(mem: seq<byte>, target: int)
      requires Valid() == true && View(mem).Valid() == true && nextToUpdate <= target <= Max(dictLimit, end - 3)
      modifies this`nextToUpdate, hashTable, chainTable
      ensures Valid() == true && nextToUpdate == target && (old(UpToDate(mem)) ==> UpToDate(mem) == true)
      ensures target == old(nextToUpdate) ==> Tables() == old(Tables())
    {
      hide *;
      while nextToUpdate < target
        invariant Valid() == true && nextToUpdate <= target && (old(UpToDate(mem)) ==> UpToDate(mem) == true)
        invariant old(nextToUpdate) <= nextToUpdate && (nextToUpdate == old(nextToUpdate) ==> Tables() == old(Tables()))
      {
        InsertOne(mem, target);
      }
    }

    /** One turn of that loop. */
    method InsertOne(mem: seq<byte>, ghost target: int)
      requires Valid() == true && View(mem).Valid() == true && nextToUpdate < target <= Max(dictLimit, end - 3)
      modifies this`nextToUpdate, hashTable, chainTable
      ensures Valid() == true && nextToUpdate == old(nextToUpdate) + 1 && (old(UpToDate(mem)) ==> UpToDate(mem) == true)
    {
      ghost var t, c, l := hashTable[..], chainTable[..], Tables();
      var idx := nextToUpdate;
      InsertRoom(mem, target);
      var h := HashAt(mem, base + idx);
      ghost var m := Links(hash, t[h := idx], c[idx % CHAIN_SIZE := Min(idx - t[h], DISTANCE_MAX)], idx + 1);
      if UpToDate(mem) { LinkedMore(l, View(mem), h, m); }
      ChainedMore(t, c, lowLimit, dictLimit, idx, h);
      hide *;
      var delta := idx - hashTable[h];
      if delta > DISTANCE_MAX { delta := DISTANCE_MAX; }
      SlotInside(idx, delta);
      chainTable[idx % CHAIN_SIZE] := delta % U16_SIZE;
      hashTable[h] := idx;
      nextToUpdate := idx + 1;
      MinMeans(idx - t[h], DISTANCE_MAX);
      assert chainTable[..] == m.c && hashTable[..] == m.t;
      Renewed(mem, m, target);
    }

    lemma MinMeans(a: int, b: int)
      ensures Min(a, b) == if a > b then b else a
    {
    }

    lemma InsertRoom(mem: seq<byte>, target: int)
      requires Valid() == true && View(mem).Valid() == true && nextToUpdate < target <= Max(dictLimit, end - 3)
      ensures var v := View(mem);
              hashTable != chainTable && hashTable.Length == HASH_SIZE && chainTable.Length == CHAIN_SIZE && 0 <= base + nextToUpdate && base + nextToUpdate + 4 <= |mem|
              && v.Readable(nextToUpdate) && Tables().Hash(v, nextToUpdate) == HashAt(mem, base + nextToUpdate)
      ensures forall h :: 0 <= h < HASH_SIZE ==> 0 <= hashTable[h] < nextToUpdate
    {
    }

    lemma Renewed(mem: seq<byte>, l: Links, target: int)
      requires hashTable != chainTable && 64 * KB <= lowLimit <= dictLimit <= nextToUpdate <= target <= Max(dictLimit, end - 3) && dictLimit <= end < INDEX_LIMIT
      requires Chained(l.t, l.c, lowLimit, dictLimit, nextToUpdate) == true && l.t == hashTable[..] && l.c == chainTable[..] && l.hash == hash && l.next == nextToUpdate
      ensures Valid() == true && Tables() == l && (l.Linked(View(mem)) ==> UpToDate(mem) == true)
    {
      hide Chained, Links.Linked;
    }

    // ----- Searching -----

    /** A search for the position `ip`, for a match that is longer than `minLength`. */
    function Query(mem: seq<byte>, ip: int, iLow: int, iHigh: int, minLength: int, favor: bool, swap: bool): Search
      reads this`base, this`dictBase, this`lowLimit, this`dictLimit, this`end
    {
      Search(View(mem), ip, iLow, iHigh, minLength, favor, swap)
    }

    /** The newest position with the hash of `ip`. */
    function Head(mem: seq<byte>, ip: int): int
      requires 0 <= base + ip && base + ip + 4 <= |mem| && hashTable.Length == HASH_SIZE
      reads this`base, hashTable
    {
      hashTable[HashAt(mem, base + ip)]
    }

    /** The search jumps from the head of the chain to one of the last three bytes of the dictionary. */
    ghost predicate LeadsBehind(s: Search)
      reads this, hashTable, chainTable
    {
      && 0 <= base + s.ip && base + s.ip + 4 <= |s.v.mem| && hashTable.Length == HASH_SIZE
      && Jumping(s, Tables(), Start(s, Head(s.v.mem, s.ip)))
    }

    /**
     LZ4HC_InsertAndGetWiderMatch, without a dictionary context. The attempts that are left tell if the
     search was cut short; `readBehind` tells if it has read four bytes at one of the last three of the dictionary.
     */
    method InsertAndGetWiderMatch(mem: seq<byte>, ip: int, iLow: int, iHigh: int, longest: int, maxNbAttempts: int, patternAnalysis: bool, chainSwap: bool, favor: bool)
      returns (best: Best, nbAttempts: int, readBehind: bool)
      requires Valid() == true && Query(mem, ip, iLow, iHigh, longest, favor, chainSwap).Valid() == true && nextToUpdate <= ip
      modifies this`nextToUpdate, hashTable, chainTable
      ensures Valid() == true && nextToUpdate == ip && (old(UpToDate(mem)) ==> UpToDate(mem) == true)
      ensures ip == old(nextToUpdate) ==> Tables() == old(Tables())
      ensures Query(mem, ip, iLow, iHigh, longest, favor, chainSwap).Sound(best) == true
      ensures old(UpToDate(mem)) && (chainSwap ==> lowLimit == dictLimit) && 0 < nbAttempts ==> Query(mem, ip, iLow, iHigh, longest, favor, chainSwap).Longest(best.longest) == true
      ensures ip - Query(mem, ip, iLow, iHigh, longest, favor, chainSwap).Lowest() < maxNbAttempts && (chainSwap ==> lowLimit == dictLimit) ==> 0 < nbAttempts
      ensures readBehind ==> 2 <= maxNbAttempts && Query(mem, ip, iLow, iHigh, longest, favor, chainSwap).MayReadBehind()
      ensures 2 <= maxNbAttempts && LeadsBehind(Query(mem, ip, iLow, iHigh, longest, favor, chainSwap)) ==> readBehind
    {
      hide *;
      QueryRoom(mem, ip, iLow, iHigh, longest, favor, chainSwap);
      var s := Query(mem, ip, iLow, iHigh, longest, favor, chainSwap);
      Insert(mem, ip);
      ghost var linked := UpToDate(mem) && (chainSwap ==> lowLimit == dictLimit);
      HeadRoom(mem, ip, iLow, iHigh, longest, favor, chainSwap);
      var first := Head(mem, ip);
      best, nbAttempts, readBehind := SearchChain(s, chainTable, first, maxNbAttempts, patternAnalysis, Tables(), linked);
      LeadsParts(mem, s);
    }

    lemma LeadsParts(mem: seq<byte>, s: Search)
      ensures s.v.mem == mem && LeadsBehind(s) ==> 0 <= base + s.ip && base + s.ip + 4 <= |mem| && hashTable.Length == HASH_SIZE && Jumping(s, Tables(), Start(s, Head(mem, s.ip)))
    {
    }

    lemma QueryRoom(mem: seq<byte>, ip: int, iLow: int, iHigh: int, longest: int, favor: bool, swap: bool)
      requires Query(mem, ip, iLow, iHigh, longest, favor, swap).Valid() == true
      ensures View(mem).Valid() == true && ip <= Max(dictLimit, end - 3) && Query(mem, ip, iLow, iHigh, longest, favor, swap).v == View(mem) && View(mem).mem == mem && Query(mem, ip, iLow, iHigh, longest, favor, swap).ip == ip
      ensures (swap ==> lowLimit == dictLimit) ==> !MayStand(Query(mem, ip, iLow, iHigh, longest, favor, swap))
    {
    }

    /** The head of the chain for `ip`. */
    lemma HeadRoom(mem: seq<byte>, ip: int, iLow: int, iHigh: int, longest: int, favor: bool, swap: bool)
      requires Valid() == true && Query(mem, ip, iLow, iHigh, longest, favor, swap).Valid() == true && nextToUpdate == ip
      ensures 0 <= base + ip && base + ip + 4 <= |mem| && hashTable.Length == HASH_SIZE && chainTable.Length == CHAIN_SIZE
      ensures HashAt(mem, base + ip) < hashTable.Length
      ensures var s := Query(mem, ip, iLow, iHigh, longest, favor, swap);
              Prepared(s, Tables()) == true && Tables().c == chainTable[..]
              && Going(s, Tables(), UpToDate(mem) && (swap ==> lowLimit == dictLimit), Start(s, Head(mem, ip))) == true
              && (s.Lowest() <= Head(mem, ip) ==> !s.Behind(Head(mem, ip)))
    {
      HeadHash(mem, ip, iLow, iHigh, longest, favor, swap);
      hide *;
      HeadMeans(mem, ip);
      FirstCandidate(Query(mem, ip, iLow, iHigh, longest, favor, swap), Tables(), Head(mem, ip));
    }

    lemma HeadMeans(mem: seq<byte>, ip: int)
      requires 0 <= base + ip && base + ip + 4 <= |mem| && hashTable.Length == HASH_SIZE
      ensures HashAt(mem, base + ip) < HASH_SIZE && Head(mem, ip) == hashTable[HashAt(mem, base + ip)]
    {
    }

    lemma HeadHash(mem: seq<byte>, ip: int, iLow: int, iHigh: int, longest: int, favor: bool, swap: bool)
      requires Valid() == true && Query(mem, ip, iLow, iHigh, longest, favor, swap).Valid() == true && nextToUpdate == ip
      ensures 0 <= base + ip && base + ip + 4 <= |mem| && hashTable.Length == HASH_SIZE && chainTable.Length == CHAIN_SIZE && HashAt(mem, base + ip) < HASH_SIZE
      ensures var s := Query(mem, ip, iLow, iHigh, longest, favor, swap);
              Prepared(s, Tables()) == true && s.minLength == longest && s.v == View(mem) && s.v.Valid() == true && s.v.Readable(s.ip) == true
              && Tables().c == chainTable[..] && Tables().t == hashTable[..] && Tables().Hash(s.v, s.ip) == HashAt(mem, base + ip) && (UpToDate(mem) <==> Tables().Linked(s.v))
    {
    }

    /** LZ4HC_InsertAndFindBestMatch: forward only, in the chain of `ip`. */
    method InsertAndFindBestMatch(mem: seq<byte>, ip: int, iLimit: int, maxNbAttempts: int, patternAnalysis: bool)
      returns (found: HcMatch, nbAttempts: int)
      requires Valid() == true && Query(mem, ip, ip, iLimit, MINMATCH - 1, false, false).Valid() == true && nextToUpdate <= ip
      modifies this`nextToUpdate, hashTable, chainTable
      ensures Valid() == true && nextToUpdate == ip && (old(UpToDate(mem)) ==> UpToDate(mem) == true)
      ensures Found(Query(mem, ip, ip, iLimit, MINMATCH - 1, false, false), found) == true
      ensures old(UpToDate(mem)) && 0 < nbAttempts ==> NoneLonger(Query(mem, ip, ip, iLimit, MINMATCH - 1, false, false), found) == true
      ensures ip - Query(mem, ip, ip, iLimit, MINMATCH - 1, false, false).Lowest() < maxNbAttempts ==> 0 < nbAttempts
    {
      var best;
      var readBehind;
      best, nbAttempts, readBehind := InsertAndGetWiderMatch(mem, ip, ip, iLimit, MINMATCH - 1, maxNbAttempts, patternAnalysis, false, false);
      found := MatchOf(Query(mem, ip, ip, iLimit, MINMATCH - 1, false, false), best);
    }

    /** LZ4HC_FindLongerMatch: forward only, with all shortcuts. */
    method FindLongerMatch(mem: seq<byte>, ip: int, iHigh: int, minLen: int, nbSearches: int, favorDecSpeed: bool)
      returns (found: HcMatch, nbAttempts: int, readBehind: bool)
      requires Valid() == true && Query(mem, ip, ip, iHigh, minLen, favorDecSpeed, true).Valid() == true && nextToUpdate <= ip
      modifies this`nextToUpdate, hashTable, chainTable
      ensures Valid() == true && nextToUpdate == ip && (old(UpToDate(mem)) ==> UpToDate(mem) == true)
      ensures Found(Query(mem, ip, ip, iHigh, minLen, favorDecSpeed, true), found) == true && (found.len != 0 && !favorDecSpeed ==> minLen < found.len)
      ensures old(UpToDate(mem)) && lowLimit == dictLimit && 0 < nbAttempts ==>
                NoneLonger(Query(mem, ip, ip, iHigh, minLen, favorDecSpeed, true), if favorDecSpeed && found.len == 18 then found.(len := 36) else found) == true
      ensures ip - Query(mem, ip, ip, iHigh, minLen, favorDecSpeed, true).Lowest() < nbSearches && lowLimit == dictLimit ==> 0 < nbAttempts
      ensures readBehind ==> 2 <= nbSearches && Query(mem, ip, ip, iHigh, minLen, favorDecSpeed, true).MayReadBehind()
      ensures 2 <= nbSearches && LeadsBehind(Query(mem, ip, ip, iHigh, minLen, favorDecSpeed, true)) ==> readBehind
    {
      var best;
      best, nbAttempts, readBehind := InsertAndGetWiderMatch(mem, ip, ip, iHigh, minLen, nbSearches, true, true, favorDecSpeed);
      var s := Query(mem, ip, ip, iHigh, minLen, favorDecSpeed, true);
      found := MatchOf(s, best);
      if favorDecSpeed && 18 < found.len <= 36 {
        FoundLess(s, found, 18);
        LongerToo(s, found, 36);
        found := found.(len := 18);
      } else {
        LongerToo(s, found, 36);
      }
    }

    /** LZ4HC_setExternalDict: the prefix becomes the dictionary, and a new prefix begins at `newBlock`. */
    method SetExternalDict(mem: seq<byte>, newBlock: int)
      requires Valid() == true && View(mem).Valid() == true && 0 <= newBlock <= |mem|
      modifies this, hashTable, chainTable
      ensures Valid() == true && lowLimit == old(dictLimit) && dictLimit == end == old(end) && dictBase == old(base) && base + dictLimit == newBlock
      ensures View(mem).Valid() && (old(UpToDate(mem)) ==> UpToDate(mem) == true)
    {
      ghost var before := UpToDate(mem);
      var dictLimit0 := dictLimit;
      if end >= dictLimit + 4 { Insert(mem, end - 3); }
      assert end - 3 <= Max(dictLimit, nextToUpdate);
      ghost var v, l := View(mem), Tables();
      lowLimit := dictLimit;
      dictLimit := end;
      dictBase := base;
      base := newBlock - dictLimit;
      nextToUpdate := dictLimit;
      StillChained(v, l);
      if before { KeptAsDict(v, l, View(mem), Tables()); }
    }

    lemma StillChained(v: Space, l: Links)
      requires hashTable != chainTable && v.Valid() && 64 * KB <= v.lowLimit <= v.dictLimit <= l.next && v.end < INDEX_LIMIT && v.end - 3 <= Max(v.dictLimit, l.next)
      requires l.next <= Max(v.dictLimit, v.end - 3) && Chained(l.t, l.c, v.lowLimit, v.dictLimit, l.next) == true
      requires l.t == hashTable[..] && l.c == chainTable[..] && nextToUpdate == dictLimit == end == v.end && lowLimit == v.dictLimit
      ensures Valid() == true
    {
    }

    /** The input of the next call prolongs the prefix, with the bytes before it as they were. */
    method Extend(mem: seq<byte>, mem': seq<byte>, n: nat)
      requires Valid() == true && View(mem).Valid() == true && View(mem').Valid() == true && end + n < INDEX_LIMIT && base + end + n <= |mem'|
      requires SameBytes(View(mem), View(mem')) == true
      modifies this`end
      ensures Valid() == true && end == old(end) + n && View(mem').Valid() == true && (old(UpToDate(mem)) ==> UpToDate(mem') == true)
    {
      ghost var before, v, l := UpToDate(mem), View(mem), Tables();
      end := end + n;
      Extended(v, l, mem');
    }

    lemma Extended(v: Space, l: Links, mem: seq<byte>)
      requires hashTable != chainTable && v.Valid() && 64 * KB <= v.lowLimit <= v.dictLimit <= l.next <= Max(v.dictLimit, v.end - 3) && v.end <= end < INDEX_LIMIT
      requires Chained(l.t, l.c, v.lowLimit, v.dictLimit, l.next) == true && Tables() == l
      requires View(mem) == v.(mem := mem, end := end) && base + end <= |mem| && v.(mem := mem).Valid() && SameBytes(v, v.(mem := mem)) == true
      ensures Valid() == true && View(mem).Valid() == true && (l.Linked(v) ==> UpToDate(mem) == true)
    {
      hide Chained, Links.Linked;
      if l.Linked(v) { KeptLonger(v, l, View(mem)); }
    }
  }

  /** The bytes of all indices are the same in two memories. */
  ghost predicate SameBytes(v: Space, w: Space)
    requires v.Valid() && w.Valid()
  {
    v.lowLimit == w.lowLimit && v.end == w.end && forall i :: v.lowLimit <= i < v.end ==> v.At(i) == w.At(i)
  }

  /** The prefix with more bytes behind it. */
  lemma KeptLonger(v: Space, l: Links, w: Space)
    requires l.Linked(v) == true && v.Valid() && w.Valid() && w == v.(mem := w.mem, end := w.end) && v.end <= w.end
    requires v.(mem := w.mem).Valid() && SameBytes(v, v.(mem := w.mem)) && v.dictLimit <= l.next <= Max(v.dictLimit, v.end - 3)
    requires Chained(l.t, l.c, v.lowLimit, v.dictLimit, l.next) == true
    ensures l.Linked(w) == true
  {
    hide Links.Linked, Chained;
    forall j | w.Readable(j) && j < l.next ensures v.Readable(j) && v.Four(j) == w.Four(j) {
      FourAre(v, j);
      FourAre(w, j);
      FourEqual(v.Four(j), w.Four(j));
    }
    LinkedKept(l, v, l, w);
  }

  lemma FourEqual(x: seq<byte>, y: seq<byte>)
    requires |x| == |y| == 4 && x[0] == y[0] && x[1] == y[1] && x[2] == y[2] && x[3] == y[3]
    ensures x == y
  {
  }

  /** The old prefix as the dictionary. */
  lemma KeptAsDict(v: Space, l: Links, w: Space, m: Links)
    requires l.Linked(v) == true && Chained(m.t, m.c, w.lowLimit, w.dictLimit, m.next) == true && w.Valid()
    requires m == l.(next := w.dictLimit) && w.mem == v.mem && w.lowLimit == v.dictLimit && w.dictLimit == w.end == v.end && w.dictBase == v.base
    requires v.end - 3 <= Max(v.dictLimit, l.next) && l.next <= Max(v.dictLimit, v.end - 3)
    ensures m.Linked(w) == true
  {
    hide Links.Linked, Chained;
    LinkedValid(l, v);
    assert Kept(v, l.next, w, m.next);
    LinkedKept(l, v, m, w);
  }

  lemma LinkedValid(l: Links, v: Space)
    requires l.Linked(v) == true
    ensures v.Valid()
  {
  }

  /** The search starts with the newest position that has the hash of `ip`. */
  lemma FirstCandidate(s: Search, l: Links, first: int)
    requires s.Valid() == true && Prepared(s, l) == true && s.v.Valid() && s.v.Readable(s.ip) && |l.t| == HASH_SIZE && first == l.t[l.Hash(s.v, s.ip)]
    ensures Going(s, l, l.Linked(s.v) && (s.swap ==> s.v.lowLimit == s.v.dictLimit), Start(s, first)) == true && (s.Lowest() <= first ==> !s.Behind(first))
  {
    FirstInside(s, l, first);
    if s.Lowest() <= first { PlaceReadable(s, first); }
    if l.Linked(s.v) {
      FirstTried(s, l, first);
      FirstAlike(s, l, first);
    }
    hide Links.Linked, Search.Tried, Links.Alike, Chained, Search.InReach;
  }

  lemma FirstInside(s: Search, l: Links, first: int)
    requires s.Valid() && Prepared(s, l) && s.v.Readable(s.ip) && |l.t| == HASH_SIZE && first == l.t[l.Hash(s.v, s.ip)]
    ensures first < s.ip && (s.Lowest() <= first ==> s.InReach(first) == true) && s.Sound(Best(s.minLength, 0, 0)) == true
  {
  }

  lemma FirstAlike(s: Search, l: Links, first: int)
    requires s.Valid() && l.Linked(s.v) == true && Prepared(s, l) == true && s.v.Readable(s.ip) && |l.t| == HASH_SIZE && first == l.t[l.Hash(s.v, s.ip)]
    ensures s.Lowest() <= first ==> l.Alike(s.v, first, s.ip) == true
  {
  }

  lemma FirstTried(s: Search, l: Links, first: int)
    requires s.Valid() && l.Linked(s.v) == true && l.next == s.ip && s.v.Readable(s.ip) && |l.t| == HASH_SIZE && first == l.t[l.Hash(s.v, s.ip)]
    ensures s.Tried(first, s.minLength) == true
  {
    hide Links.Linked, Space.Valid, Space.Readable;
    forall m, n | s.Fits(m, n) ensures m <= first { FitsBefore(s, l, m, n); }
  }

  lemma FitsBefore(s: Search, l: Links, m: int, n: int)
    requires s.Valid() == true && l.Linked(s.v) == true && l.next == s.ip && s.v.Readable(s.ip) && |l.t| == HASH_SIZE && s.Fits(m, n) == true
    ensures s.v.Valid() && m <= l.t[l.Hash(s.v, s.ip)]
  {
    hide Links.Linked;
    FourRepeats(s.v, m, s.ip, n, 0);
    NotNewer(s, l, m);
  }

  lemma NotNewer(s: Search, l: Links, m: int)
    requires s.Valid() && l.Linked(s.v) && l.Inserted(s.v, m) && s.v.Readable(s.ip) && s.v.Four(m) == s.v.Four(s.ip) && |l.t| == HASH_SIZE
    ensures m <= l.t[l.Hash(s.v, s.ip)]
  {
  }

  /** The match that a forward search returns. */
  method MatchOf(s: Search, b: Best) returns (m: HcMatch)
    requires s.Valid() == true && s.Sound(b) == true && s.iLow == s.ip
    ensures Found(s, m) == true && (s.Longest(b.longest) ==> NoneLonger(s, m) == true)
    ensures m.len == if s.minLength < b.longest then b.longest else 0
  {
    m := HcMatch(0, 0);
    if b.longest > s.minLength {
      m := HcMatch(s.ip - b.matchpos, b.longest);
    }
  }

  lemma LongerToo(s: Search, m: HcMatch, n: int)
    ensures NoneLonger(s, m) && m.len <= n ==> NoneLonger(s, m.(len := n)) == true
  {
  }

  lemma FoundLess(s: Search, m: HcMatch, n: int)
    requires Found(s, m) == true && MINMATCH <= n <= m.len
    ensures Found(s, m.(len := n)) == true
  {
    RepeatsInside(s.v, s.ip - m.off, s.ip, m.len, 0, n);
  }

  // ----- What a match is good for -----

  /** The text of all indices: the dictionary, and the prefix with the input. */
  function Text(v: Space): (t: seq<byte>)
    requires v.Valid()
    ensures |t| == v.end - v.lowLimit
  {
    (if v.lowLimit < v.dictLimit then v.mem[v.dictBase + v.lowLimit..v.dictBase + v.dictLimit] else []) + v.mem[v.base + v.dictLimit..v.base + v.end]
  }

  lemma TextAt(v: Space, i: int)
    requires v.Valid() && v.lowLimit <= i < v.end
    ensures Text(v)[i - v.lowLimit] == v.At(i)
  {
  }

  /** From `p` on, `n` bytes repeat those `offset` places earlier. */
  ghost predicate RepeatsAfter(t: seq<byte>, p: int, offset: int, n: nat) {
    1 <= offset <= p && p + n <= |t| && forall i :: p <= i < p + n ==> t[i] == t[i - offset]
  }

  lemma RepeatsInText(v: Space, m: int, s: int, n: nat)
    requires v.Repeats(m, s, n) == true
    ensures v.Valid() && RepeatsAfter(Text(v), s - v.lowLimit, s - m, n) == true
  {
    var t, low, p := Text(v), v.lowLimit, s - v.lowLimit;
    hide Text;
    forall i | p <= i < p + n ensures t[i] == t[i - (s - m)] {
      RepeatsAt(v, m, s, n, i - p);
      TextAt(v, low + i);
      TextAt(v, low + i - (s - m));
    }
  }

  /** Behind the first `p` bytes of the text, the match stands for the next `n` bytes. */
  predicate Decodes(t: seq<byte>, p: int, offset: int, n: nat) {
    1 <= offset <= p && p + n <= |t| && CopyMatch(t[..p], offset, n) == t[..p + n]
  }

  lemma RepeatedText(t: seq<byte>, p: int, offset: int, n: nat)
    requires RepeatsAfter(t, p, offset, n) == true
    ensures Decodes(t, p, offset, n) == true
  {
    hide CopyMatch;
    var r := t[..p + n];
    assert r[..p] == t[..p];
    RepeatsIsCopyMatch(r[..p], offset, r);
  }

  /** A decoder that has the text before `s` copies a match with what is at `m` to what follows there. */
  lemma MatchDecodes(v: Space, m: int, s: int, n: nat)
    requires v.Repeats(m, s, n) == true
    ensures v.Valid() && Decodes(Text(v), s - v.lowLimit, s - m, n) == true
  {
    hide *;
    RepeatsInText(v, m, s, n);
    RepeatedText(Text(v), s - v.lowLimit, s - m, n);
  }

  /** LZ4HC_literalsPrice. */
  function LiteralsPrice(litlen: nat): (price: nat) {
    litlen + if litlen >= RUN_MASK then 1 + (litlen - RUN_MASK) / 255 else 0
  }

  /** LZ4HC_sequencePrice. */
  function SequencePrice(litlen: nat, mlen: nat): (price: nat) {
    1 + 2 + LiteralsPrice(litlen) + if mlen >= ML_MASK + MINMATCH then 1 + (mlen - (ML_MASK + MINMATCH)) / 255 else 0
  }

  /** The prices of the optimal parser are the bytes that are written. */
  lemma PriceIsSize(q: Emitted)
    requires 1 <= q.offset <= DISTANCE_MAX && MINMATCH <= q.length
    ensures SequencePrice(|q.literals|, q.length) == |Encode(q)|
  {
  }

  lemma LastPriceIsSize(literals: seq<byte>)
    ensures 1 + LiteralsPrice(|literals|) == |EncodeLiterals(literals, 0)|
  {
  }

  /** The price of a whole parse. */
  function ParsePrice(qs: seq<Emitted>, last: seq<byte>): (price: nat) {
    if qs == [] then 1 + LiteralsPrice(|last|)
    else SequencePrice(|qs[|qs| - 1].literals|, qs[|qs| - 1].length) + ParsePrice(qs[..|qs| - 1], last)
  }

  lemma {:induction false} ParsePriceIsSize(qs: seq<Emitted>, last: seq<byte>)
    requires Encodable(qs)
    ensures ParsePrice(qs, last) == |EncodeBlock(qs, last)|
  {
    if qs == [] {
      LastPriceIsSize(last);
    } else {
      PriceIsSize(qs[|qs| - 1]);
      ParsePriceIsSize(qs[..|qs| - 1], last);
    }
  }
}
