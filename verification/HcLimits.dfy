/**
 Where the match search of lz4hc.c reads behind an external dictionary: a search that swaps chains can
 come to one of the last three bytes of the dictionary, and reads four bytes there.
 */
module HcLimits {
  import opened Bytes
  import opened BlockFormat
  import opened HcChains
  import opened HcSearch
  import opened HcMatchFinder

  // ----- In a run -----

  /** HASH_FUNCTION and LZ4HC_hashPtr, on a little-endian machine. */
  function LzHash(q: seq<byte>): nat {
    if |q| < 4 then 0 else Le32(q, 0) * 2654435761 % U32_SIZE / 131072
  }

  const B: byte := 0x42
  const A: byte := 0x41

  const TEXT: seq<byte> := [B, B, B, A, B, B, B, B, B, A, B, B, B, B, A]

  /** A block of 16 bytes at 0, and one of 40 at 20. */
  const MEMORY: seq<byte> := Zeros(20) + TEXT + Zeros(25)

  function Zeros(n: nat): (s: seq<byte>)
    ensures |s| == n && forall i :: 0 <= i < n ==> s[i] == 0
  {
    if n == 0 then [] else [0] + Zeros(n - 1)
  }

  lemma TextAt(x: nat)
    requires x + 4 <= 15
    ensures |MEMORY| == 60 && MEMORY[20 + x..24 + x] == TEXT[x..x + 4]
  {
  }

  lemma HashBBBA()
    ensures LzHash([B, B, B, A]) == 13351
  {
    assert Le32([B, B, B, A], 0) == 1094861378;
    Quotient(1094861378 * 2654435761, U32_SIZE, 676661542, 1750008226);
    Quotient(1750008226, 131072, 13351, 65954);
  }

  lemma HashBBAB()
    ensures LzHash([B, B, A, B]) == 20431
  {
    assert Le32([B, B, A, B], 0) == 1111573058;
    Quotient(1111573058 * 2654435761, U32_SIZE, 686989928, 2677932450);
    Quotient(2677932450, 131072, 20431, 418);
  }

  lemma HashBABB()
    ensures LzHash([B, A, B, B]) == 28906
  {
    assert Le32([B, A, B, B], 0) == 1111638338;
    Quotient(1111638338 * 2654435761, U32_SIZE, 687030273, 3788853410);
    Quotient(3788853410, 131072, 28906, 86178);
  }

  lemma HashABBB()
    ensures LzHash([A, B, B, B]) == 15755
  {
    assert Le32([A, B, B, B], 0) == 1111638593;
    Quotient(1111638593 * 2654435761, U32_SIZE, 687030431, 2065139697);
    Quotient(2065139697, 131072, 15755, 100337);
  }

  lemma HashBBBB()
    ensures LzHash([B, B, B, B]) == 3239
  {
    assert Le32([B, B, B, B], 0) == 1111638594;
    Quotient(1111638594 * 2654435761, U32_SIZE, 687030432, 424608162);
    Quotient(424608162, 131072, 3239, 65954);
  }

  lemma Quotient(a: int, d: int, q: int, r: int)
    requires a == q * d + r && 0 <= r < d
    ensures a / d == q && a % d == r
  {
    var x, y := a / d, a % d;
    assert (x - q) * d == r - y;
    assert x - q >= 1 ==> (x - q) * d >= d;
    assert x - q <= -1 ==> (x - q) * d <= -d;
  }

  /** The second block in front of its position 10, behind the first one as dictionary. */
  const SPACE := Space(MEMORY, 20 - (64 * KB + 16), -64 * KB, 64 * KB, 64 * KB + 16, 64 * KB + 56)
  const DL := 64 * KB + 16

  function HashAt(l: Links, i: int): int {
    if SPACE.Valid() && SPACE.Readable(DL + i) then l.Hash(SPACE, DL + i) else -1
  }

  predicate Known(l: Links) {
    && HashAt(l, 0) == HashAt(l, 6) == 13351 && HashAt(l, 1) == HashAt(l, 7) == 20431 && HashAt(l, 2) == HashAt(l, 8) == 28906
    && HashAt(l, 3) == HashAt(l, 9) == 15755 && HashAt(l, 4) == HashAt(l, 5) == HashAt(l, 10) == 3239
  }

  lemma FourIs(x: nat)
    requires x <= 10
    ensures SPACE.Valid() && SPACE.Readable(DL + x) && SPACE.Four(DL + x) == TEXT[x..x + 4]
  {
    TextAt(x);
  }

  lemma FourBytes(t: seq<byte>, x: nat, a: byte, b: byte, c: byte, d: byte)
    requires x + 4 <= |t| && t[x] == a && t[x + 1] == b && t[x + 2] == c && t[x + 3] == d
    ensures t[x..x + 4] == [a, b, c, d]
  {
  }

  lemma TextFours()
    ensures TEXT[0..4] == TEXT[6..10] == [B, B, B, A] && TEXT[1..5] == TEXT[7..11] == [B, B, A, B] && TEXT[2..6] == TEXT[8..12] == [B, A, B, B]
    ensures TEXT[3..7] == TEXT[9..13] == [A, B, B, B] && TEXT[4..8] == TEXT[5..9] == TEXT[10..14] == [B, B, B, B]
  {
    FourBytes(TEXT, 0, B, B, B, A);
    FourBytes(TEXT, 6, B, B, B, A);
    FourBytes(TEXT, 1, B, B, A, B);
    FourBytes(TEXT, 7, B, B, A, B);
    FourBytes(TEXT, 2, B, A, B, B);
    FourBytes(TEXT, 8, B, A, B, B);
    FourBytes(TEXT, 3, A, B, B, B);
    FourBytes(TEXT, 9, A, B, B, B);
    FourBytes(TEXT, 4, B, B, B, B);
    FourBytes(TEXT, 5, B, B, B, B);
    FourBytes(TEXT, 10, B, B, B, B);
  }

  lemma HashIs(l: Links, x: nat)
    requires l.hash == LzHash && x <= 10
    ensures HashAt(l, x) == LzHash(TEXT[x..x + 4]) % HASH_SIZE
  {
    FourIs(x);
  }

  lemma HashesKnown(l: Links)
    requires l.hash == LzHash
    ensures Known(l) == true
  {
    TextFours();
    HashBBBA();
    HashBBAB();
    HashBABB();
    HashABBB();
    HashBBBB();
    hide *;
    HashIs(l, 0);
    HashIs(l, 1);
    HashIs(l, 2);
    HashIs(l, 3);
    HashIs(l, 4);
    HashIs(l, 5);
    HashIs(l, 6);
    HashIs(l, 7);
    HashIs(l, 8);
    HashIs(l, 9);
    HashIs(l, 10);
    KnownFrom(l);
  }

  lemma KnownFrom(l: Links)
    requires HashAt(l, 0) == HashAt(l, 6) == 13351 % HASH_SIZE && HashAt(l, 1) == HashAt(l, 7) == 20431 % HASH_SIZE && HashAt(l, 2) == HashAt(l, 8) == 28906 % HASH_SIZE
    requires HashAt(l, 3) == HashAt(l, 9) == 15755 % HASH_SIZE && HashAt(l, 4) == HashAt(l, 5) == HashAt(l, 10) == 3239 % HASH_SIZE
    ensures Known(l) == true
  {
    hide HashAt;
  }

  /** What the tables then hold: the head of the chain, and two steps. */
  lemma HeadInRun(l: Links)
    requires Known(l) == true && l.next == DL + 10 && l.Linked(SPACE) == true && |l.t| == HASH_SIZE && forall h :: 0 <= h < HASH_SIZE ==> l.t[h] < l.next
    ensures l.t[3239] == DL + 5
  {
    hide Links.Linked, Links.Hash;
    HeadNewest(l, SPACE, DL + 5);
    HeadAlike(l, SPACE, 3239);
    assert HashAt(l, l.t[3239] - DL) == 3239;
  }

  lemma StepsInRun(l: Links)
    requires Known(l) == true && l.next == DL + 10 && l.Linked(SPACE) == true && |l.c| == CHAIN_SIZE && 1 <= Delta(l.c, DL + 5) <= DISTANCE_MAX && 1 <= Delta(l.c, DL + 6) <= DISTANCE_MAX
    ensures Delta(l.c, DL + 5) == 1 && Delta(l.c, DL + 6) == 6
  {
    hide Links.Linked, Links.Hash;
    TailNewest(l, SPACE, DL + 5, DL + 4);
    TailNewest(l, SPACE, DL + 6, DL);
    TailAlike(l, SPACE, DL + 6);
    assert HashAt(l, 6 - Delta(l.c, DL + 6)) == 13351;
  }

  /** The search at position 10 of the second block. */
  const QUERY := Search(SPACE, DL + 10, DL + 10, 64 * KB + 51, MINMATCH - 1, false, true)

  /** From position 5 of the second block, where five bytes agree, to the last byte of the dictionary. */
  lemma JumpInRun(l: Links)
    requires |l.c| == CHAIN_SIZE && Delta(l.c, DL + 5) == 1 && Delta(l.c, DL + 6) == 6
    ensures QUERY.Valid() && JumpsBehind(QUERY, l, DL + 5, MINMATCH - 1, 0, 5)
  {
    FiveAgree();
    TwoAgree();
    hide Maximal, Search.TwoAlike;
    assert Better(l.c, DL + 5, 2, 0, 16, 1, 0) == Better(l.c, DL + 5, 2, 1, 17, 1, 0) == Better(l.c, DL + 5, 2, 2, 16, 6, 1) == (6, 1);
  }

  lemma ByteIs(x: nat)
    requires x < 15
    ensures SPACE.Valid() && SPACE.At(DL + x) == TEXT[x] && |MEMORY| == 60
  {
    var y := if x <= 11 then x else 11;
    TextAt(y);
    assert MEMORY[20 + x] == MEMORY[20 + y..24 + y][x - y];
  }

  lemma FiveAgree()
    ensures SPACE.Valid() && Maximal(SPACE, DL + 5, DL + 10, 5, 64 * KB + 51)
  {
    forall x: nat | x < 15 ensures SPACE.Valid() && SPACE.At(DL + x) == TEXT[x] { ByteIs(x); }
    hide Space.At, MEMORY;
    forall i | DL + 10 <= i < DL + 15 ensures SPACE.At(i) == SPACE.At(i - 5) {
      var x := i - DL;
      assert SPACE.At(DL + x) == TEXT[x] && SPACE.At(DL + (x - 5)) == TEXT[x - 5];
    }
  }

  lemma TwoAgree()
    ensures QUERY.TwoAlike(DL + 5, 3)
  {
    TextAt(5);
    TextAt(10);
    assert MEMORY[27..29] == TEXT[5..9][2..4] && MEMORY[32..34] == TEXT[10..14][2..4];
  }

  lemma Leads(c: HcContext)
    requires c.Valid() == true && c.UpToDate(MEMORY) == true && c.View(MEMORY) == SPACE && c.nextToUpdate == DL + 10 && c.hash == LzHash
    ensures c.LeadsBehind(QUERY)
  {
    hide *;
    var l := c.Tables();
    RunTables(c);
    HashesKnown(l);
    HeadInRun(l);
    StepsInRun(l);
    JumpInRun(l);
    LeadsInRun(c, l);
  }

  lemma RunTables(c: HcContext)
    requires c.Valid() == true && c.UpToDate(MEMORY) == true && c.View(MEMORY) == SPACE && c.nextToUpdate == DL + 10 && c.hash == LzHash
    ensures var l := c.Tables();
            && l.next == DL + 10 && l.hash == LzHash && l.Linked(SPACE) == true && |l.t| == HASH_SIZE && (forall h :: 0 <= h < HASH_SIZE ==> l.t[h] < l.next)
            && |l.c| == CHAIN_SIZE && 1 <= Delta(l.c, DL + 5) <= DISTANCE_MAX && 1 <= Delta(l.c, DL + 6) <= DISTANCE_MAX
    ensures c.hashTable.Length == HASH_SIZE && c.hashTable[..] == c.Tables().t && c.base + DL == 20
  {
    hide Links.Linked;
  }

  lemma LeadsInRun(c: HcContext, l: Links)
    requires l == c.Tables() && l.hash == LzHash && |l.t| == HASH_SIZE && c.hashTable.Length == HASH_SIZE && c.hashTable[..] == l.t && c.hash == LzHash && c.base + DL == 20
    requires l.t[3239] == DL + 5 && QUERY.Valid() && JumpsBehind(QUERY, l, DL + 5, MINMATCH - 1, 0, 5)
    ensures c.LeadsBehind(QUERY)
  {
    hide JumpsBehind, LzHash;
    TextAt(10);
    TextFours();
    HashBBBB();
    assert c.HashAt(MEMORY, 30) == 3239;
    assert JumpsBehind(QUERY, l, Start(QUERY, DL + 5).matchIndex, Start(QUERY, DL + 5).best.longest, Start(QUERY, DL + 5).matchChainPos, 5);
  }

  /** Two blocks at different places. */
  method TwoBlocks() returns (c: HcContext)
    ensures fresh(c) && fresh(c.hashTable) && fresh(c.chainTable) && c.hash == LzHash
    ensures c.Valid() == true && c.UpToDate(MEMORY) == true && c.View(MEMORY) == SPACE && c.nextToUpdate == DL
  {
    c := FirstBlock();
    hide HcContext.Valid, HcContext.UpToDate, SameBytes, Space.Valid;
    TextAt(0);
    c.SetExternalDict(MEMORY, 20);
    NothingInserted(c);
    SameAsItself(c.View(MEMORY));
    c.Extend(MEMORY, MEMORY, 40);
  }

  method FirstBlock() returns (c: HcContext)
    ensures fresh(c) && fresh(c.hashTable) && fresh(c.chainTable) && c.hash == LzHash
    ensures c.Valid() == true && c.UpToDate(MEMORY) == true && c.View(MEMORY).Valid() == true
    ensures c.base == -64 * KB && c.lowLimit == c.dictLimit == 64 * KB && c.end == DL
  {
    c := NoBlock();
    hide HcContext.Valid, HcContext.UpToDate, SameBytes, Space.Valid;
    TextAt(0);
    SameAsItself(c.View(MEMORY));
    c.Extend(MEMORY, MEMORY, 16);
  }

  method NoBlock() returns (c: HcContext)
    ensures fresh(c) && fresh(c.hashTable) && fresh(c.chainTable) && c.hash == LzHash
    ensures c.Valid() == true && c.UpToDate(MEMORY) == true && c.View(MEMORY).Valid() == true
    ensures c.base == -64 * KB && c.lowLimit == c.dictLimit == c.end == 64 * KB
  {
    c := new HcContext(LzHash, 0);
    hide HcContext.Valid, HcContext.UpToDate;
    TextAt(0);
  }

  lemma NothingInserted(c: HcContext)
    requires c.Valid() == true && c.dictLimit == c.end
    ensures c.nextToUpdate == c.dictLimit
  {
  }

  lemma SameAsItself(v: Space)
    requires v.Valid()
    ensures SameBytes(v, v) == true
  {
  }

  lemma QueryIs(c: HcContext)
    requires c.View(MEMORY) == SPACE
    ensures c.Query(MEMORY, DL + 10, DL + 10, 64 * KB + 51, MINMATCH - 1, false, true) == QUERY && QUERY.Valid() == true
  {
    TextAt(0);
  }

  /** The second has a match that leads out of it. */
  method OverreadInRun() returns (c: HcContext, readBehind: bool)
    ensures c.LeadsBehind(QUERY) && readBehind
  {
    c := TwoBlocks();
    hide *;
    QueryIs(c);
    var found, nbAttempts;
    found, nbAttempts, readBehind := c.FindLongerMatch(MEMORY, DL + 10, 64 * KB + 51, MINMATCH - 1, 2, false);
    QueryIs(c);
    Leads(c);
  }

  // ----- For all indices -----

  /** Equal bytes everywhere, but for one behind the shortest match at `ip`. */
  function Contents(v: Space, stop: int): (mem: seq<byte>)
    ensures |mem| == |v.mem|
  {
    seq(|v.mem|, i => if i == v.base + stop then 1 else 0)
  }

  /** A chain that jumps from the second byte of the prefix to the last one of the dictionary, by way of the byte after it. */
  function ChainOf(dictLimit: int): (c: seq<int>)
    ensures |c| == CHAIN_SIZE
  {
    seq(CHAIN_SIZE, k => if k == dictLimit % CHAIN_SIZE then DISTANCE_MAX else if k == (dictLimit + 2) % CHAIN_SIZE then 2 else 1)
  }

  lemma ChainAt(dictLimit: int, i: int)
    requires dictLimit - CHAIN_SIZE <= i < dictLimit + CHAIN_SIZE
    ensures Delta(ChainOf(dictLimit), i) == if (i - dictLimit) % CHAIN_SIZE == 0 then DISTANCE_MAX else if (i - dictLimit - 2) % CHAIN_SIZE == 0 then 2 else 1
  {
  }

  lemma ChainFits(v: Space, ip: int)
    requires v.Valid() && v.lowLimit < v.dictLimit && v.dictLimit + 5 <= ip <= v.dictLimit + DISTANCE_MAX - 1 && 0 <= v.lowLimit
    ensures Chained(seq(HASH_SIZE, _ => v.dictLimit + 1), ChainOf(v.dictLimit), v.lowLimit, v.dictLimit, ip) == true
  {
    forall i | Max(v.lowLimit, ip - CHAIN_SIZE) <= i < ip && !Gap(v.lowLimit, v.dictLimit, i)
      ensures Delta(ChainOf(v.dictLimit), i) == DISTANCE_MAX || !Gap(v.lowLimit, v.dictLimit, i - Delta(ChainOf(v.dictLimit), i))
    {
      ChainAt(v.dictLimit, i);
    }
  }

  lemma {:induction false} BetterStays(dictLimit: int, end: int, pos: nat, accel: nat)
    requires 16 <= accel && 2 <= pos && dictLimit + 1 + end <= dictLimit + CHAIN_SIZE
    ensures Better(ChainOf(dictLimit), dictLimit + 1, end, pos, accel, 2, 1) == (2, 1)
    decreases end - pos
  {
    if pos < end {
      ChainAt(dictLimit, dictLimit + 1 + pos);
      BetterStays(dictLimit, end, pos + accel / 16, accel + 1);
    }
  }

  lemma BetterIs(dictLimit: int, end: int)
    requires 2 <= end && dictLimit + 1 + end <= dictLimit + CHAIN_SIZE
    ensures Better(ChainOf(dictLimit), dictLimit + 1, end, 0, 16, 1, 0) == (2, 1)
  {
    ChainAt(dictLimit, dictLimit + 1);
    ChainAt(dictLimit, dictLimit + 2);
    BetterStays(dictLimit, end, 2, 16);
  }

  /** The same search in that memory. */
  function InContents(s: Search): (r: Search) {
    s.(v := s.v.(mem := Contents(s.v, if s.ip + s.Shortest() < s.iHigh then s.ip + s.Shortest() else s.v.end)))
  }

  lemma ShortestAgrees(s: Search)
    requires s.Valid() && s.MayReadBehind()
    ensures var r := InContents(s); r.Valid() && Maximal(r.v, s.v.dictLimit + 1, s.ip, s.Shortest(), s.iHigh) == true
  {
    var r, m, n := InContents(s), s.v.dictLimit + 1, s.Shortest();
    forall i | s.ip <= i < s.ip + n ensures r.v.At(i) == r.v.At(i - (s.ip - m)) {}
  }

  lemma EndsAgree(s: Search)
    requires s.Valid() && s.MayReadBehind()
    ensures InContents(s).TwoAlike(s.v.dictLimit + 1, s.minLength)
  {
    var r, m := InContents(s), s.v.dictLimit + 1;
    var i, k := r.v.base + r.iLow + s.minLength - 1, r.v.base + m + s.minLength - 1;
    assert r.v.mem[i] == 0 && r.v.mem[i + 1] == 0 && r.v.mem[k] == 0 && r.v.mem[k + 1] == 0;
    assert r.v.mem[i..i + 2] == r.v.mem[k..k + 2];
  }

  lemma WillJump(s: Search, l: Links)
    requires s.Valid() && s.MayReadBehind() && l.c == ChainOf(s.v.dictLimit)
    ensures JumpsBehind(InContents(s), l, s.v.dictLimit + 1, s.minLength, 0, s.Shortest()) == true
  {
    ShortestAgrees(s);
    EndsAgree(s);
    BetterIs(s.v.dictLimit, s.Shortest() - MINMATCH + 1);
  }

  /**
   Whatever the indices are that allow it, there are bytes, a hash function and tables for which the
   search reads behind the dictionary.
   */
  method ReadsBehind(s: Search, attempts: int) returns (c: HcContext, mem: seq<byte>, readBehind: bool)
    requires s.Valid() && s.MayReadBehind() && 2 <= attempts
    ensures mem == InContents(s).v.mem && c.View(mem) == s.v.(mem := mem) && c.LeadsBehind(InContents(s)) && readBehind
  {
    mem := InContents(s).v.mem;
    c := Prepare(s);
    SearchIs(c, s);
    hide *;
    var best, nbAttempts;
    best, nbAttempts, readBehind := c.InsertAndGetWiderMatch(mem, s.ip, s.ip, s.iHigh, s.minLength, attempts, false, true, s.favor);
    SearchIs(c, s);
    LeadsToo(c, s);
  }

  /** A context with these indices, in which all positions have the same hash. */
  method Prepare(s: Search) returns (c: HcContext)
    requires s.Valid() && s.MayReadBehind()
    ensures fresh(c) && fresh(c.hashTable) && fresh(c.chainTable)
    ensures c.View(s.v.mem) == s.v && c.nextToUpdate == s.ip && c.Valid() == true && c.Tables().c == ChainOf(s.v.dictLimit) && c.Tables().t == seq(HASH_SIZE, _ => s.v.dictLimit + 1)
  {
    c := NewContext();
    var t, d := seq(HASH_SIZE, _ => s.v.dictLimit + 1), ChainOf(s.v.dictLimit);
    hide HcContext.Valid, Chained, ChainOf;
    Fill(c.hashTable, t);
    Fill(c.chainTable, d);
    c.base, c.dictBase, c.lowLimit, c.dictLimit, c.end, c.nextToUpdate := s.v.base, s.v.dictBase, s.v.lowLimit, s.v.dictLimit, s.v.end, s.ip;
    ChainFits(s.v, s.ip);
    StillValid(c);
  }

  method NewContext() returns (c: HcContext)
    ensures fresh(c) && fresh(c.hashTable) && fresh(c.chainTable) && c.hashTable != c.chainTable && c.hashTable.Length == HASH_SIZE && c.chainTable.Length == CHAIN_SIZE
  {
    c := new HcContext(_ => 0, 0);
  }

  lemma StillValid(c: HcContext)
    requires c.hashTable != c.chainTable && 64 * KB <= c.lowLimit <= c.dictLimit <= c.nextToUpdate <= c.end - 3 && c.end < INDEX_LIMIT
    requires Chained(c.hashTable[..], c.chainTable[..], c.lowLimit, c.dictLimit, c.nextToUpdate) == true
    ensures c.Valid() == true
  {
    hide Chained;
  }

  lemma SearchIs(c: HcContext, s: Search)
    requires s.Valid() && s.MayReadBehind() && c.View(s.v.mem) == s.v
    ensures var r := InContents(s);
            c.Query(r.v.mem, s.ip, s.ip, s.iHigh, s.minLength, s.favor, true) == r && c.View(r.v.mem) == s.v.(mem := r.v.mem) && r.Valid() == true && s.iLow == s.ip
  {
    ShortestAgrees(s);
  }

  lemma LeadsToo(c: HcContext, s: Search)
    requires s.Valid() == true && s.MayReadBehind() && c.View(s.v.mem) == s.v
    requires c.Tables().c == ChainOf(s.v.dictLimit) && c.Tables().t == seq(HASH_SIZE, _ => s.v.dictLimit + 1)
    ensures c.LeadsBehind(InContents(s))
  {
    WillJump(s, c.Tables());
    var r := InContents(s);
    assert c.Head(r.v.mem, s.ip) == s.v.dictLimit + 1;
  }

  method Fill(a: array<int>, s: seq<int>)
    requires a.Length == |s|
    modifies a
    ensures a[..] == s
  {
    forall k | 0 <= k < a.Length { a[k] := s[k]; }
  }
}
