/**
 LZ4HC_compress_optimal: the parser of the highest levels. It keeps the cheapest way to each of the next
 positions, and then walks back from the last one. Whatever the prices are, the walk ends at the first
 position, each of its steps is a literal or a genuine match, and the block stands for the input.
 */
module HcOptimal {
  import opened Bytes
  import opened BlockFormat
  import opened BlockEncoding
  import opened SequenceWriter
  import opened HcChains
  import opened HcSearch
  import opened HcMatchFinder
  import opened HcParser
  import BlockCompressor
  import EqualBytes
  import MatchFinder

  const OPT_NUM := 4096
  const TRAILING_LITERALS := 3

  /** LZ4HC_optimal_t: the last step on the way to a position, a match of `mlen` bytes or one literal. */
  datatype Optimal = Optimal(price: int, off: int, mlen: int, litlen: nat)

  // ----- The ways to the next positions -----

  /** A match of `mlen` bytes, or one literal, at the index `i`. */
  ghost predicate Step(v: Space, i: int, mlen: int, off: int) {
    1 <= mlen && (mlen != 1 ==> Repeat(i, i - off, mlen).Writable(v))
  }

  /** The step that leads to position `p` behind `ip` begins at one of the positions before it. */
  ghost predicate LeadsTo(v: Space, ip: int, p: int, e: Optimal) { 1 <= e.mlen <= p && Step(v, ip + p - e.mlen, e.mlen, e.off) }

  /** There is a way to all positions up to `n`. */
  ghost predicate Ways(v: Space, ip: int, t: seq<Optimal>, n: int) {
    |t| == OPT_NUM + TRAILING_LITERALS && 0 <= n < |t| && t[0].mlen == 1 && forall p :: 1 <= p <= n ==> LeadsTo(v, ip, p, t[p])
  }

  lemma WaysLiteral(v: Space, ip: int, t: seq<Optimal>, n: int, p: int, e: Optimal)
    requires Ways(v, ip, t, n) == true && 1 <= p <= n + 1 && p < |t| && e.mlen == 1
    ensures Ways(v, ip, t[p := e], Max(n, p)) == true
  {
    hide Repeat.Writable;
  }

  lemma WaysMatch(v: Space, ip: int, t: seq<Optimal>, n: int, p: int, e: Optimal, m: Repeat)
    requires Ways(v, ip, t, n) == true && 1 <= p <= n + 1 && p < |t| && m.Writable(v) == true
    requires MINMATCH <= e.mlen <= m.len && e.off == m.start - m.ref && m.start == ip + p - e.mlen && e.mlen <= p
    ensures Ways(v, ip, t[p := e], Max(n, p)) == true
  {
    ShorterWritable(v, m, e.mlen);
    hide Repeat.Writable;
  }

  /** The first entries never change: three literals, and the first match at its shortest. */
  ghost predicate Opening(t: seq<Optimal>, llen: nat) {
    && |t| == OPT_NUM + TRAILING_LITERALS && t[MINMATCH].mlen == MINMATCH && t[MINMATCH].price == SequencePrice(llen, MINMATCH)
    && forall i :: 0 <= i < MINMATCH ==> t[i].mlen == 1 && t[i].litlen == llen + i && t[i].price == LiteralsPrice(llen + i)
  }

  lemma OpeningKept(t: seq<Optimal>, llen: nat, p: nat, e: Optimal)
    requires Opening(t, llen) == true && MINMATCH < p < |t|
    ensures Opening(t[p := e], llen) == true
  {
    hide LiteralsPrice, SequencePrice;
  }

  /** Nothing has changed up to there. */
  ghost predicate Kept(t: seq<Optimal>, t': seq<Optimal>, n: int) { |t| == |t'| && forall p :: 0 <= p <= n && p < |t| ==> t'[p] == t[p] }

  /** No price has risen up to there. */
  ghost predicate Falls(t: seq<Optimal>, t': seq<Optimal>, n: int) { |t| == |t'| && forall p :: 0 <= p <= n && p < |t| ==> t'[p].price <= t[p].price }

  lemma KeptSame(t: seq<Optimal>, n: int)
    ensures Kept(t, t, n) == true && Falls(t, t, n) == true
  {
  }

  lemma KeptBehind(t: seq<Optimal>, t': seq<Optimal>, n: int, p: nat, e: Optimal)
    requires Kept(t, t', n) == true && n < p < |t'|
    ensures Kept(t, t'[p := e], n) == true
  {
  }

  lemma FallsMore(t: seq<Optimal>, t': seq<Optimal>, n: int, p: nat, e: Optimal)
    requires Falls(t, t', n) == true && p < |t'| && (p <= n ==> e.price <= t'[p].price)
    ensures Falls(t, t'[p := e], n) == true
  {
  }

  lemma OpeningSizes(t: seq<Optimal>, llen: nat)
    requires Opening(t, llen) == true
    ensures |t| == OPT_NUM + TRAILING_LITERALS && TRAILING_LITERALS == 3 && OPT_NUM == 4096 && MINMATCH == 4
  {
  }

  /** Literals up to there cost no less. */
  lemma LiteralsCostMore(t: seq<Optimal>, llen: nat, cur: nat, litlen: nat)
    requires Opening(t, llen) == true && 1 <= cur && 1 <= litlen < MINMATCH && cur + litlen <= MINMATCH
    ensures t[cur].price - LiteralsPrice(t[cur].litlen) + LiteralsPrice(t[cur].litlen + litlen) >= t[cur + litlen].price
  {
  }

  /** Three literals behind the last position. */
  method AddLiterals(opt: array<Optimal>, last: nat, ghost v: Space, ghost ip: int, ghost llen: nat)
    requires Ways(v, ip, opt[..], last) == true && MINMATCH <= last < OPT_NUM && Opening(opt[..], llen) == true
    modifies opt
    ensures Ways(v, ip, opt[..], last + TRAILING_LITERALS) == true && Opening(opt[..], llen) == true && Kept(old(opt[..]), opt[..], last) == true
  {
    hide *;
    OpeningSizes(opt[..], llen);
    ghost var before := opt[..];
    KeptSame(before, last);
    OptimalSizes(v, ip, opt[..], last);
    var addLit := 1;
    while addLit <= TRAILING_LITERALS
      invariant 1 <= addLit <= TRAILING_LITERALS + 1 && Ways(v, ip, opt[..], last + addLit - 1) == true && Opening(opt[..], llen) == true
      invariant Kept(before, opt[..], last) == true
    {
      ghost var t := opt[..];
      var e := Optimal(opt[last].price + LiteralsPrice(addLit), 0, 1, addLit);
      opt[last + addLit] := e;
      assert opt[..] == t[last + addLit := e];
      WaysLiteral(v, ip, t, last + addLit - 1, last + addLit, e);
      OpeningKept(t, llen, last + addLit, e);
      KeptBehind(before, t, last, last + addLit, e);
      MaxMeans(last + addLit - 1, last + addLit);
      addLit := addLit + 1;
    }
  }

  lemma MaxMeans(a: int, b: int)
    ensures Max(a, b) == if a > b then a else b
  {
  }

  lemma OptimalSizes(v: Space, ip: int, t: seq<Optimal>, n: int)
    requires Ways(v, ip, t, n) == true
    ensures |t| == OPT_NUM + TRAILING_LITERALS && TRAILING_LITERALS == 3 && OPT_NUM == 4096 && MINMATCH == 4 && 0 <= n < |t|
  {
  }

  lemma WaysLess(v: Space, ip: int, t: seq<Optimal>, n: int, k: int)
    requires Ways(v, ip, t, n) == true && 0 <= k <= n
    ensures Ways(v, ip, t, k) == true
  {
    hide LeadsTo;
  }

  lemma WaysStart(v: Space, ip: int, t: seq<Optimal>)
    requires |t| == OPT_NUM + TRAILING_LITERALS && t[0].mlen == t[1].mlen == t[2].mlen == t[3].mlen == 1
    ensures Ways(v, ip, t, 3) == true
  {
    hide Repeat.Writable;
  }

  /** The ways to the first positions: literals, and the first match. */
  method FirstWays(opt: array<Optimal>, llen: nat, m: Repeat, ghost v: Space)
    requires opt.Length == OPT_NUM + TRAILING_LITERALS && m.Writable(v) == true && MINMATCH <= m.len < OPT_NUM
    modifies opt
    ensures Ways(v, m.start, opt[..], m.len + TRAILING_LITERALS) == true && Opening(opt[..], llen) == true
  {
    var rPos := 0;
    while rPos < MINMATCH
      invariant 0 <= rPos <= MINMATCH && forall p :: 0 <= p < rPos ==> opt[p] == Optimal(LiteralsPrice(llen + p), 0, 1, llen + p)
    {
      opt[rPos] := Optimal(LiteralsPrice(llen + rPos), 0, 1, llen + rPos);
      rPos := rPos + 1;
    }
    WaysStart(v, m.start, opt[..]);
    ghost var first := opt[..MINMATCH];
    hide Ways, Repeat.Writable, LiteralsPrice, SequencePrice, Opening;
    var mlen := MINMATCH;
    while mlen <= m.len
      invariant MINMATCH <= mlen <= m.len + 1 && Ways(v, m.start, opt[..], mlen - 1) == true
      invariant if mlen == MINMATCH then opt[..MINMATCH] == first else Opening(opt[..], llen) == true
    {
      ghost var t := opt[..];
      var e := Optimal(SequencePrice(llen, mlen), m.start - m.ref, mlen, llen);
      opt[mlen] := e;
      assert opt[..] == t[mlen := e];
      WaysMatch(v, m.start, t, mlen - 1, mlen, e, m);
      if mlen == MINMATCH { Opens(t[mlen := e], llen); } else { OpeningKept(t, llen, mlen, e); }
      mlen := mlen + 1;
    }
    AddLiterals(opt, m.len, v, m.start, llen);
  }

  lemma Opens(t: seq<Optimal>, llen: nat)
    requires |t| == OPT_NUM + TRAILING_LITERALS && t[MINMATCH].mlen == MINMATCH && t[MINMATCH].price == SequencePrice(llen, MINMATCH)
    requires forall p :: 0 <= p < MINMATCH ==> t[p] == Optimal(LiteralsPrice(llen + p), 0, 1, llen + p)
    ensures Opening(t, llen) == true
  {
    hide LiteralsPrice, SequencePrice;
  }

  /** Literals in front of the positions of a match. */
  method BeforeMatch(opt: array<Optimal>, cur: nat, ghost v: Space, ghost ip: int, ghost n: int, ghost llen: nat)
    requires Ways(v, ip, opt[..], n) == true && 1 <= cur && cur + MINMATCH <= n + 1 && Opening(opt[..], llen) == true
    modifies opt
    ensures Ways(v, ip, opt[..], n) == true && Opening(opt[..], llen) == true
    ensures Kept(old(opt[..]), opt[..], cur) == true && Falls(old(opt[..]), opt[..], n) == true
  {
    hide *;
    ghost var before := opt[..];
    KeptSame(before, cur);
    KeptSame(before, n);
    OptimalSizes(v, ip, opt[..], n);
    var baseLitlen := opt[cur].litlen;
    var litlen := 1;
    while litlen < MINMATCH
      invariant 1 <= litlen <= MINMATCH && Ways(v, ip, opt[..], n) == true && Opening(opt[..], llen) == true && opt[cur].litlen == baseLitlen
      invariant Kept(before, opt[..], cur) == true && Falls(before, opt[..], n) == true
    {
      var price := opt[cur].price - LiteralsPrice(baseLitlen) + LiteralsPrice(baseLitlen + litlen);
      var pos := cur + litlen;
      if pos <= MINMATCH { LiteralsCostMore(opt[..], llen, cur, litlen); }
      if price < opt[pos].price {
        ghost var t := opt[..];
        var e := Optimal(price, 0, 1, baseLitlen + litlen);
        opt[pos] := e;
        assert opt[..] == t[pos := e];
        WaysLiteral(v, ip, t, n, pos, e);
        OpeningKept(t, llen, pos, e);
        KeptBehind(before, t, cur, pos, e);
        FallsMore(before, t, n, pos, e);
        MaxMeans(n, pos);
      }
      litlen := litlen + 1;
    }
  }

  /** What a match of `ml` bytes at `cur` costs, and the literals in front of it. */
  function PriceWith(t: seq<Optimal>, cur: nat, ml: nat): (r: (int, nat))
    requires cur < |t|
  {
    if t[cur].mlen == 1 then
      var ll := t[cur].litlen;
      ((if cur > ll then t[cur - ll].price else 0) + SequencePrice(ll, ml), ll)
    else
      (t[cur].price + SequencePrice(0, ml), 0)
  }

  /** Matches at `cur` of up to `len` bytes lead to no cheaper way. */
  ghost predicate Opened(t: seq<Optimal>, cur: nat, len: int) {
    cur + len < |t| && forall ml :: MINMATCH <= ml <= len && cur + ml < |t| ==> t[cur + ml].price <= PriceWith(t, cur, ml).0
  }

  lemma PriceSame(t: seq<Optimal>, t': seq<Optimal>, cur: nat, ml: nat)
    requires Kept(t, t', cur) == true && cur < |t|
    ensures PriceWith(t', cur, ml) == PriceWith(t, cur, ml)
  {
    hide SequencePrice;
  }

  lemma OpenedNothing(t: seq<Optimal>, cur: nat)
    requires cur + MINMATCH < |t|
    ensures Opened(t, cur, MINMATCH - 1) == true
  {
  }

  /** One more length has been tried, and taken if it is cheaper or the first. */
  lemma OpenedMore(t: seq<Optimal>, cur: nat, ml: nat, e: Optimal, taken: bool)
    requires Opened(t, cur, ml - 1) == true && MINMATCH <= ml && cur + ml < |t|
    requires if taken then e.price == PriceWith(t, cur, ml).0 else t[cur + ml].price <= PriceWith(t, cur, ml).0
    ensures Opened(if taken then t[cur + ml := e] else t, cur, ml) == true
  {
    var t' := if taken then t[cur + ml := e] else t;
    forall k: nat | MINMATCH <= k <= ml ensures PriceWith(t', cur, k) == PriceWith(t, cur, k) { PriceSame(t, t', cur, k); }
    hide PriceWith;
    assert Opened(t', cur, ml);
  }

  /** The ways that a match at `cur` opens, where they are cheaper or the first. */
  method UseMatch(opt: array<Optimal>, cur: nat, last0: nat, m: Repeat, favorDecSpeed: bool, ghost v: Space, ghost ip: int, ghost llen: nat) returns (last: nat)
    requires Ways(v, ip, opt[..], last0 + TRAILING_LITERALS) == true && Opening(opt[..], llen) == true && 1 <= cur < last0 && m.Writable(v) == true && m.start == ip + cur
    requires MINMATCH <= m.len && cur + m.len < OPT_NUM
    modifies opt
    ensures Ways(v, ip, opt[..], last) == true && last in {last0, cur + m.len} && last0 <= last && Opening(opt[..], llen) == true
    ensures Kept(old(opt[..]), opt[..], cur) == true && Falls(old(opt[..]), opt[..], last0) == true
    ensures Opened(opt[..], cur, m.len) == true && cur + m.len <= last + TRAILING_LITERALS
  {
    hide *;
    OptimalSizes(v, ip, opt[..], last0 + TRAILING_LITERALS);
    last := last0;
    var ml := MINMATCH;
    ghost var before := opt[..];
    KeptSame(before, cur);
    KeptSame(before, last0);
    OpenedNothing(before, cur);
    ghost var n := last0 + TRAILING_LITERALS;
    MaxMeans(last0 + TRAILING_LITERALS, cur + m.len);
    while ml <= m.len
      invariant MINMATCH <= ml <= m.len + 1 && last0 <= last <= n && (last == last0 || (m.len < ml && last == cur + m.len))
      invariant Kept(before, opt[..], cur) == true && Falls(before, opt[..], last0) == true && Opened(opt[..], cur, ml - 1) == true
      invariant m.len < ml ==> cur + m.len <= last + TRAILING_LITERALS
      invariant Opening(opt[..], llen) == true && Ways(v, ip, opt[..], n) == true && last0 + TRAILING_LITERALS <= n && cur + ml - 1 <= n <= Max(last0 + TRAILING_LITERALS, cur + m.len)
    {
      var pos := cur + ml;
      var (price, ll) := PriceWith(opt[..], cur, ml);
      if pos > last + TRAILING_LITERALS || price <= opt[pos].price - (if favorDecSpeed then 1 else 0) {
        if ml == m.len && last < pos { last := pos; }
        ghost var t := opt[..];
        var e := Optimal(price, m.start - m.ref, ml, ll);
        opt[pos] := e;
        assert opt[..] == t[pos := e];
        WaysMatch(v, ip, t, n, pos, e, m);
        OpeningKept(t, llen, pos, e);
        KeptBehind(before, t, cur, pos, e);
        FallsMore(before, t, last0, pos, e);
        OpenedMore(t, cur, ml, e, true);
        MaxMeans(n, pos);
        n := Max(n, pos);
      } else {
        OpenedMore(opt[..], cur, ml, opt[pos], false);
      }
      MaxMeans(last0 + TRAILING_LITERALS, cur + m.len);
      ml := ml + 1;
    }
    WaysLess(v, ip, opt[..], n, last);
  }

  // ----- The search for ways -----

  /** Where the walk back begins: at `cur`, with a step of `mlen` bytes to `Goal`; positions up to `last` have been looked at. */
  datatype Choice = Choice(cur: nat, last: nat, mlen: int, off: int)
  {
    function Goal(): int { cur + mlen }

    ghost predicate Valid(v: Space, ip: int, t: seq<Optimal>) {
      && Ways(v, ip, t, cur) && Step(v, ip + cur, mlen, off) && cur < last <= Goal() && last <= OPT_NUM && ip + Goal() + LASTLITERALS <= v.end
      && (MINMATCH <= cur || mlen != 1)
    }
  }

  /** What the loop over the positions keeps. */
  ghost predicate Exploring(v: Space, ip: int, next: int, t: seq<Optimal>, cur: int, last: int) {
    && v.Valid() && v.dictLimit <= ip && Ways(v, ip, t, last + TRAILING_LITERALS) && 1 <= cur <= last < OPT_NUM && next <= ip + cur - 1
    && ip + last + LASTLITERALS <= v.end
  }

  lemma ExploringParts(v: Space, ip: int, next: int, t: seq<Optimal>, cur: int, last: int)
    requires Exploring(v, ip, next, t, cur, last) == true
    ensures |t| == OPT_NUM + TRAILING_LITERALS && TRAILING_LITERALS == 3 && OPT_NUM == 4096 && MINMATCH == 4 && LASTLITERALS == 5 && MFLIMIT == 12
    ensures Ways(v, ip, t, last + TRAILING_LITERALS) == true && 1 <= cur <= last < OPT_NUM && next <= ip + cur - 1 && ip + last + LASTLITERALS <= v.end
    ensures v.Valid() == true && v.dictLimit <= ip
  {
    hide LeadsTo, Space.Valid;
  }

  lemma ExploringFrom(v: Space, ip: int, next: int, t: seq<Optimal>, cur: int, last: int)
    requires v.Valid() == true && v.dictLimit <= ip && Ways(v, ip, t, last + TRAILING_LITERALS) == true && 1 <= cur <= last < OPT_NUM && next <= ip + cur - 1
    requires ip + last + LASTLITERALS <= v.end
    ensures Exploring(v, ip, next, t, cur, last) == true
  {
    hide Ways, Space.Valid;
  }

  lemma MatchAt(v: Space, p: int, low: int, favor: bool, found: HcMatch)
    requires Found(Search(v, p, p, v.end - LASTLITERALS, low, favor, true), found) == true && p + MFLIMIT <= v.end
    ensures found.len == 0 || (MINMATCH <= found.len && Repeat(p, p - found.off, found.len).Writable(v) == true && p + found.len + LASTLITERALS <= v.end)
  {
    hide Space.Repeats;
  }

  lemma ForwardSearch(v: Space, p: int, low: int, favor: bool)
    requires v.Valid() == true && 64 * KB <= v.lowLimit && v.end < INDEX_LIMIT && v.dictLimit <= p && p + MFLIMIT <= v.end && 1 <= low && p + low + LASTLITERALS <= v.end
    ensures Search(v, p, p, v.end - LASTLITERALS, low, favor, true).Valid() == true
  {
    hide Space.Valid;
  }

  lemma ForwardQuery(c: HcContext, mem: seq<byte>, p: int, low: int, favor: bool)
    ensures c.Query(mem, p, p, c.end - LASTLITERALS, low, favor, true) == Search(c.View(mem), p, p, c.end - LASTLITERALS, low, favor, true)
    ensures c.View(mem).end == c.end && c.View(mem).dictLimit == c.dictLimit
  {
  }

  /** LZ4HC_FindLongerMatch, for a match that can be written. */
  method FindRepeat(c: HcContext, mem: seq<byte>, p: int, minLen: int, nbSearches: int, favorDecSpeed: bool)
    returns (m: Repeat, ghost exhausted: bool)
    requires c.Valid() == true && c.View(mem).Valid() == true && c.dictLimit <= p && p + MFLIMIT <= c.end && 1 <= minLen && p + minLen + LASTLITERALS <= c.end && c.nextToUpdate <= p
    modifies c`nextToUpdate, c.hashTable, c.chainTable
    ensures c.Valid() == true && c.nextToUpdate == p && m.start == p
    ensures m.len == 0 || (MINMATCH <= m.len && m.Writable(c.View(mem)) == true && p + m.len + LASTLITERALS <= c.end)
    ensures exhausted && minLen == MINMATCH - 1 && !favorDecSpeed ==> Exhausted(c.View(mem), p, Result(m)) == true
    ensures exhausted && !favorDecSpeed ==> NoLonger(c.View(mem), p, if m.len == 0 then minLen else m.len) == true
    ensures old(c.UpToDate(mem)) ==> c.UpToDate(mem) == true && (c.lowLimit == c.dictLimit && Enough(c.View(mem), p, nbSearches) ==> exhausted)
  {
    hide *;
    ContextParts(c, mem);
    ForwardSearch(c.View(mem), p, minLen, favorDecSpeed);
    ForwardQuery(c, mem, p, minLen, favorDecSpeed);
    var found, nbAttempts, readBehind := c.FindLongerMatch(mem, p, c.end - LASTLITERALS, minLen, nbSearches, favorDecSpeed);
    MatchAt(c.View(mem), p, minLen, favorDecSpeed, found);
    m := Repeat(p, p - found.off, found.len);
    exhausted := old(c.UpToDate(mem)) && c.lowLimit == c.dictLimit && 0 < nbAttempts;
    SameReach(c.View(mem), p, minLen, favorDecSpeed, nbSearches);
    if exhausted && minLen == MINMATCH - 1 && !favorDecSpeed { AllTried(c.View(mem), p, found); }
    if exhausted && !favorDecSpeed { NoneIsLonger(c.View(mem), p, minLen, found); }
  }

  /** What a search has led to, in the terms of the lazy parser. */
  function Result(m: Repeat): Lazy { if m.len == 0 then Next(m.start + 1) else Second(m, m) }

  lemma SameReach(v: Space, p: int, low: int, favor: bool, nbSearches: int)
    ensures Enough(v, p, nbSearches) == (p - Search(v, p, p, v.end - LASTLITERALS, low, favor, true).Lowest() < nbSearches)
  {
  }

  lemma NoneIsLonger(v: Space, p: int, minLen: int, found: HcMatch)
    requires NoneLonger(Search(v, p, p, v.end - LASTLITERALS, minLen, false, true), found) == true
    requires found.len == 0 || minLen < found.len
    ensures NoLonger(v, p, if found.len == 0 then minLen else found.len) == true
  {
    hide Space.Repeats, Space.Readable;
    var s := Search(v, p, p, v.end - LASTLITERALS, minLen, false, true);
    forall m, n | At(v, p).Fits(m, n) ensures s.Fits(m, n) { }
  }

  lemma AllTried(v: Space, p: int, found: HcMatch)
    requires v.Valid() && p + MFLIMIT <= v.end && Found(Search(v, p, p, v.end - LASTLITERALS, MINMATCH - 1, false, true), found) == true
    requires NoneLonger(Search(v, p, p, v.end - LASTLITERALS, MINMATCH - 1, false, true), found) == true
    ensures Exhausted(v, p, Result(Repeat(p, p - found.off, found.len))) == true
  {
    hide Space.Repeats, Space.Readable;
    var s := Search(v, p, p, v.end - LASTLITERALS, MINMATCH - 1, false, true);
    forall m, n | At(v, p).Fits(m, n) ensures s.Fits(m, n) { }
    if found.len == 0 {
      forall m: int | v.Readable(m) ensures !v.Repeats(m, p, MINMATCH) { assert !s.Fits(m, MINMATCH); }
    }
  }

  /** It is not useful to search at `cur`: the next position costs no more. */
  predicate Useless(t: seq<Optimal>, cur: nat, fullUpdate: bool)
    requires cur + MINMATCH < |t|
  {
    t[cur + 1].price <= t[cur].price && (fullUpdate ==> t[cur + MINMATCH].price < t[cur].price + 3)
  }

  /**
   The position `cur` has been looked at. Either the next one costs no more; or no match in reach leads further than the
   last position and the literals behind it, and, with `full`, none leads to a cheaper way, except perhaps in its last three bytes.
   */
  ghost predicate Looked(v: Space, ip: int, t: seq<Optimal>, cur: nat, last: int, full: bool) {
    cur + 1 < |t| && (t[cur + 1].price <= t[cur].price || AllOpened(At(v, ip + cur), t, cur, last, full))
  }

  ghost predicate AllOpened(s: Search, t: seq<Optimal>, cur: nat, last: int, full: bool) {
    forall m: int, n: int :: s.Fits(m, n) ==> cur + n <= last + TRAILING_LITERALS && (full ==> Opened(t, cur, n - TRAILING_LITERALS))
  }

  /** All positions in front of `cur` have been looked at. */
  ghost predicate LookedBefore(v: Space, ip: int, t: seq<Optimal>, cur: int, last: int, full: bool) {
    forall k :: 1 <= k < cur ==> Looked(v, ip, t, k, last, full)
  }

  lemma OpenedKept(t: seq<Optimal>, t': seq<Optimal>, k: nat, n: int, last: int)
    requires Opened(t, k, n) == true && k + n <= last && Kept(t, t', k) == true && Falls(t, t', last) == true && k < |t|
    ensures Opened(t', k, n) == true
  {
    forall ml | MINMATCH <= ml <= n ensures PriceWith(t', k, ml) == PriceWith(t, k, ml) { PriceSame(t, t', k, ml); }
    hide PriceWith;
  }

  lemma LookedKept(v: Space, ip: int, t: seq<Optimal>, t': seq<Optimal>, k: nat, last: int, last': int, full: bool)
    requires Looked(v, ip, t, k, last, full) == true && k < last <= last' && Kept(t, t', k) == true && Falls(t, t', last) == true
    ensures Looked(v, ip, t', k, last', full) == true
  {
    hide Search.Fits, Opened;
    if t[k + 1].price > t[k].price && full {
      var s := At(v, ip + k);
      forall m: int, n: int | s.Fits(m, n) ensures Opened(t', k, n - TRAILING_LITERALS) {
        OpenedKept(t, t', k, n - TRAILING_LITERALS, last);
      }
    }
  }

  lemma LookedBeforeKept(v: Space, ip: int, t: seq<Optimal>, t': seq<Optimal>, cur: int, last: int, last': int, full: bool)
    requires LookedBefore(v, ip, t, cur, last, full) == true && cur <= last <= last' && Kept(t, t', cur) == true && Falls(t, t', last) == true
    ensures LookedBefore(v, ip, t', cur, last', full) == true
  {
    hide Looked;
    forall k | 1 <= k < cur ensures Looked(v, ip, t', k, last', full) {
      KeptLess(t, t', cur, k);
      LookedKept(v, ip, t, t', k, last, last', full);
    }
  }

  lemma KeptLess(t: seq<Optimal>, t': seq<Optimal>, n: int, k: int)
    requires Kept(t, t', n) == true && k <= n
    ensures Kept(t, t', k) == true
  {
  }

  lemma LookedNext(v: Space, ip: int, t: seq<Optimal>, cur: nat, last: int, full: bool)
    requires LookedBefore(v, ip, t, cur, last, full) == true && Looked(v, ip, t, cur, last, full) == true
    ensures LookedBefore(v, ip, t, cur + 1, last, full) == true
  {
    hide Looked;
  }

  lemma LookedNothing(v: Space, ip: int, t: seq<Optimal>, last: int, full: bool)
    ensures LookedBefore(v, ip, t, 1, last, full) == true
  {
  }

  lemma UselessLooked(v: Space, ip: int, t: seq<Optimal>, cur: nat, last: int, full: bool)
    requires cur + MINMATCH < |t| && Useless(t, cur, full)
    ensures Looked(v, ip, t, cur, last, full) == true
  {
  }

  /** No match, or none that leads further. */
  lemma NoneLooked(v: Space, ip: int, t: seq<Optimal>, cur: nat, last: int, full: bool)
    requires cur + 1 < |t| && NoLonger(v, ip + cur, if full then MINMATCH - 1 else last - cur) == true
    ensures Looked(v, ip, t, cur, last, full) == true
  {
  }

  /** The longest match has been used. */
  lemma UsedLooked(v: Space, ip: int, t: seq<Optimal>, cur: nat, len: int, last: int, full: bool)
    requires cur + 1 < |t| && NoLonger(v, ip + cur, len) == true && Opened(t, cur, len - TRAILING_LITERALS) == true && cur + len <= last + TRAILING_LITERALS
    ensures Looked(v, ip, t, cur, last, full) == true
  {
    hide Space.Repeats, Space.Readable, PriceWith;
  }

  /** What is behind the last position does not matter. */
  lemma StillOpened(t: seq<Optimal>, t': seq<Optimal>, cur: nat, len: int, last: int)
    requires Opened(t, cur, len) == true && Kept(t, t', last) == true && cur <= last && cur + len <= last + TRAILING_LITERALS && cur < |t|
    ensures Opened(t', cur, len - TRAILING_LITERALS) == true
  {
    forall ml | MINMATCH <= ml <= len ensures PriceWith(t', cur, ml) == PriceWith(t, cur, ml) {
      KeptLess(t, t', last, cur);
      PriceSame(t, t', cur, ml);
    }
    hide PriceWith;
  }

  /** The positions behind `ip`, as far as matches lead; and the last step of the way to the last one. */
  method Explore(c: HcContext, mem: seq<byte>, ip: int, opt: array<Optimal>, last0: nat, nbSearches: int, sufficientLen: int, fullUpdate: bool, favorDecSpeed: bool, ghost llen: nat)
    returns (choice: Choice, ghost last: nat, ghost upto: nat, ghost looked: bool)
    requires c.Valid() == true && Exploring(c.View(mem), ip, c.nextToUpdate, opt[..], 1, last0) == true && MINMATCH <= last0 && Opening(opt[..], llen) == true
    modifies c`nextToUpdate, c.hashTable, c.chainTable, opt
    ensures Opening(opt[..], llen) == true && (old(c.UpToDate(mem)) ==> c.UpToDate(mem) == true)
    ensures c.Valid() == true && choice.Valid(c.View(mem), ip, opt[..]) == true && c.nextToUpdate <= ip + choice.last
    ensures looked ==> LookedBefore(c.View(mem), ip, opt[..], upto, last, fullUpdate) == true
    ensures if choice.last == last && choice.Goal() == last then
              upto == last || c.end < ip + upto + MFLIMIT
            else
              choice.cur == upto && (sufficientLen < choice.mlen || OPT_NUM <= choice.Goal()) && (looked ==> NoLonger(c.View(mem), ip + upto, choice.mlen) == true)
    ensures old(c.UpToDate(mem)) && c.lowLimit == c.dictLimit && !favorDecSpeed && AllEnough(c.View(mem), ip, nbSearches) ==> looked
  {
    hide *;
    ContextParts(c, mem);
    ghost var v := c.View(mem);
    var lastPos, cur := last0, 1;
    looked := c.UpToDate(mem) && c.lowLimit == c.dictLimit && !favorDecSpeed;
    LookedNothing(v, ip, opt[..], lastPos, fullUpdate);
    ExploringParts(v, ip, c.nextToUpdate, opt[..], cur, lastPos);
    while cur < lastPos && ip + cur + MFLIMIT <= c.end
      invariant c.Valid() == true && Exploring(v, ip, c.nextToUpdate, opt[..], cur, lastPos) == true && 1 <= cur <= lastPos < OPT_NUM
      invariant MINMATCH <= lastPos && Opening(opt[..], llen) == true && (old(c.UpToDate(mem)) ==> c.UpToDate(mem) == true)
      invariant looked ==> LookedBefore(v, ip, opt[..], cur, lastPos, fullUpdate) == true && !favorDecSpeed
      invariant old(c.UpToDate(mem)) && c.lowLimit == c.dictLimit && !favorDecSpeed && AllEnough(v, ip, nbSearches) ==> looked
      decreases OPT_NUM - cur
    {
      ExploringParts(v, ip, c.nextToUpdate, opt[..], cur, lastPos);
      if Useless(opt[..], cur, fullUpdate) {
        UselessLooked(v, ip, opt[..], cur, lastPos, fullUpdate);
        if looked { LookedNext(v, ip, opt[..], cur, lastPos, fullUpdate); }
        cur := cur + 1;
        ExploringFrom(v, ip, c.nextToUpdate, opt[..], cur, lastPos);
        continue;
      }
      MinimalLength(v, ip, cur, lastPos);
      if AllEnough(v, ip, nbSearches) { EnoughHere(v, ip, ip + cur, nbSearches); }
      var m, exhausted := FindRepeat(c, mem, ip + cur, if fullUpdate then MINMATCH - 1 else lastPos - cur, nbSearches, favorDecSpeed);
      looked := looked && exhausted;
      if m.len == 0 {
        if looked {
          NoneLooked(v, ip, opt[..], cur, lastPos, fullUpdate);
          LookedNext(v, ip, opt[..], cur, lastPos, fullUpdate);
        }
        cur := cur + 1;
        ExploringFrom(v, ip, c.nextToUpdate, opt[..], cur, lastPos);
        continue;
      }
      if m.len > sufficientLen || m.len + cur >= OPT_NUM {
        choice := Choice(cur, cur + 1, m.len, m.start - m.ref);
        ChosenMatch(v, ip, opt[..], lastPos, choice, m);
        GoalIs(choice);
        return choice, lastPos, cur, looked;
      }
      lastPos := OpenAt(c, mem, ip, opt, cur, lastPos, m, fullUpdate, favorDecSpeed, llen, looked);
      cur := cur + 1;
      ExploringFrom(v, ip, c.nextToUpdate, opt[..], cur, lastPos);
    }
    ExploringParts(v, ip, c.nextToUpdate, opt[..], cur, lastPos);
    LastStep(v, ip, opt[..], lastPos, llen);
    choice := Choice(lastPos - opt[lastPos].mlen, lastPos, opt[lastPos].mlen, opt[lastPos].off);
    last, upto := lastPos, cur;
    GoalIs(choice);
  }

  lemma GoalIs(c: Choice)
    ensures c.Goal() == c.cur + c.mlen
  {
  }

  /** The ways through `cur`: literals, and the match there. */
  method OpenAt(c: HcContext, ghost mem: seq<byte>, ghost ip: int, opt: array<Optimal>, cur: nat, last0: nat, m: Repeat, ghost full: bool, favorDecSpeed: bool, ghost llen: nat, ghost looked: bool)
    returns (last: nat)
    requires Ways(c.View(mem), ip, opt[..], last0 + TRAILING_LITERALS) == true && Opening(opt[..], llen) == true && 1 <= cur < last0 && MINMATCH <= last0 < OPT_NUM
    requires m.Writable(c.View(mem)) == true && m.start == ip + cur && MINMATCH <= m.len && cur + m.len < OPT_NUM
    requires looked ==> LookedBefore(c.View(mem), ip, opt[..], cur, last0, full) == true
    requires looked ==> NoLonger(c.View(mem), ip + cur, m.len) == true
    modifies opt
    ensures Ways(c.View(mem), ip, opt[..], last + TRAILING_LITERALS) == true && last in {last0, cur + m.len} && last0 <= last && Opening(opt[..], llen) == true
    ensures looked ==> LookedBefore(c.View(mem), ip, opt[..], cur + 1, last, full) == true
  {
    hide *;
    ghost var v := c.View(mem);
    OpeningSizes(opt[..], llen);
    ghost var t0 := opt[..];
    BeforeMatch(opt, cur, v, ip, last0 + TRAILING_LITERALS, llen);
    ghost var t1 := opt[..];
    last := UseMatch(opt, cur, last0, m, favorDecSpeed, v, ip, llen);
    ghost var t2 := opt[..];
    AddLiterals(opt, last, v, ip, llen);
    Through(t0, t1, t2, opt[..], cur, last0, last);
    OpeningSizes(opt[..], llen);
    if looked {
      LookedBeforeKept(v, ip, t0, opt[..], cur, last0, last, full);
      StillOpened(t2, opt[..], cur, m.len, last);
      UsedLooked(v, ip, opt[..], cur, m.len, last, full);
      LookedNext(v, ip, opt[..], cur, last, full);
    }
  }

  lemma Through(t0: seq<Optimal>, t1: seq<Optimal>, t2: seq<Optimal>, t3: seq<Optimal>, cur: nat, last0: nat, last: nat)
    requires Kept(t0, t1, cur) == true && Falls(t0, t1, last0 + TRAILING_LITERALS) == true
    requires Kept(t1, t2, cur) == true && Falls(t1, t2, last0) == true && Kept(t2, t3, last) == true && cur < last0 <= last
    ensures Kept(t0, t3, cur) == true && Falls(t0, t3, last0) == true
  {
  }

  lemma MinimalLength(v: Space, ip: int, cur: nat, last: nat)
    requires cur < last && ip + last + LASTLITERALS <= v.end && ip + cur + MFLIMIT <= v.end
    ensures 1 <= MINMATCH - 1 && ip + cur + (MINMATCH - 1) + LASTLITERALS <= v.end && ip + cur + (last - cur) + LASTLITERALS <= v.end
  {
  }

  lemma ChosenMatch(v: Space, ip: int, t: seq<Optimal>, last: nat, c: Choice, m: Repeat)
    requires Ways(v, ip, t, last + TRAILING_LITERALS) == true && c.cur < last && c.last == c.cur + 1 && m.Writable(v) == true && m.start == ip + c.cur
    requires c.mlen == m.len && c.off == m.start - m.ref && last < OPT_NUM
    ensures c.Valid(v, ip, t) == true && c.last == c.cur + 1
  {
    WaysLess(v, ip, t, last + TRAILING_LITERALS, c.cur);
    hide Ways, Space.Repeats;
  }

  lemma LastStep(v: Space, ip: int, t: seq<Optimal>, last: nat, llen: nat)
    requires Ways(v, ip, t, last + TRAILING_LITERALS) == true && MINMATCH <= last < OPT_NUM && Opening(t, llen) == true && ip + last + LASTLITERALS <= v.end
    ensures |t| == OPT_NUM + TRAILING_LITERALS && last < |t| && 1 <= t[last].mlen <= last
    ensures Choice(last - t[last].mlen, last, t[last].mlen, t[last].off).Valid(v, ip, t) == true
  {
    hide Repeat.Writable, LiteralsPrice, SequencePrice;
    assert LeadsTo(v, ip, last, t[last]);
    WaysLess(v, ip, t, last + TRAILING_LITERALS, last - t[last].mlen);
    hide Ways;
  }

  // ----- The walk back, and forth -----

  /** From `r` on, each entry says how far the next step goes, until the goal. */
  ghost predicate Path(v: Space, ip: int, t: seq<Optimal>, r: int, goal: int)
    decreases goal - r
  {
    r == goal || (0 <= r < goal && r < |t| && Step(v, ip + r, t[r].mlen, t[r].off) && Path(v, ip, t, r + t[r].mlen, goal))
  }

  /** Only the entries from there on matter. */
  lemma {:induction false} PathKept(v: Space, ip: int, t: seq<Optimal>, t': seq<Optimal>, r: int, goal: int)
    requires Path(v, ip, t, r, goal) && |t'| == |t| && forall i :: r <= i < |t| && 0 <= i ==> t'[i] == t[i]
    ensures Path(v, ip, t', r, goal) == true
    decreases goal - r
  {
    hide Repeat.Writable;
    if r != goal { PathKept(v, ip, t, t', r + t[r].mlen, goal); }
  }

  lemma PathMore(v: Space, ip: int, t: seq<Optimal>, r: nat, goal: int, e: Optimal)
    requires r < |t| && Step(v, ip + r, e.mlen, e.off) == true && Path(v, ip, t, r + e.mlen, goal) == true && r + e.mlen <= goal
    ensures Path(v, ip, t[r := e], r, goal) == true
  {
    PathKept(v, ip, t, t[r := e], r + e.mlen, goal);
    hide Repeat.Writable;
  }

  lemma StepBackAt(v: Space, ip: int, t: seq<Optimal>, p: nat)
    requires Ways(v, ip, t, p) == true
    ensures p < |t| && 1 <= t[p].mlen && (p < t[p].mlen <==> p == 0)
    ensures 0 < p ==> t[p].mlen <= p && Step(v, ip + (p - t[p].mlen), t[p].mlen, t[p].off) == true && Ways(v, ip, t, p - t[p].mlen) == true
  {
    hide Repeat.Writable;
    if 0 < p {
      assert LeadsTo(v, ip, p, t[p]);
      WaysLess(v, ip, t, p, p - t[p].mlen);
    }
  }

  lemma WaysKept(v: Space, ip: int, t: seq<Optimal>, t': seq<Optimal>, n: nat)
    requires Ways(v, ip, t, n) == true && |t'| == |t| && forall i :: 0 <= i <= n ==> t'[i] == t[i]
    ensures Ways(v, ip, t', n) == true
  {
    hide LeadsTo;
  }

  /** The reverse traversal: afterwards each entry on the way says how far the next step goes. */
  method Reverse(opt: array<Optimal>, choice: Choice, ghost v: Space, ghost ip: int, ghost llen: nat)
    requires choice.Valid(v, ip, opt[..]) == true && Opening(opt[..], llen) == true
    modifies opt
    ensures MatchAhead(opt[..], 0, choice.cur)
    ensures opt.Length == OPT_NUM + TRAILING_LITERALS && Path(v, ip, opt[..], 0, choice.Goal()) == true
  {
    hide *;
    ChoiceParts(v, ip, opt[..], choice);
    var candidatePos, selectedLength, selectedOffset := choice.cur, choice.mlen, choice.off;
    ghost var goal := choice.Goal();
    GoalReached(v, ip, opt[..], goal);
    OpensUpTo(opt[..], llen, candidatePos);
    while true
      invariant 0 <= candidatePos && Ways(v, ip, opt[..], candidatePos) == true && Step(v, ip + candidatePos, selectedLength, selectedOffset) == true
      invariant candidatePos <= choice.cur && OpeningUpTo(opt[..], candidatePos)
      invariant MINMATCH <= candidatePos || selectedLength != 1 || MatchAhead(opt[..], candidatePos + 1, choice.cur)
      invariant candidatePos + selectedLength <= goal && Path(v, ip, opt[..], candidatePos + selectedLength, goal) == true
      decreases candidatePos
    {
      StepBackAt(v, ip, opt[..], candidatePos);
      ghost var t := opt[..];
      var nextLength, nextOffset := opt[candidatePos].mlen, opt[candidatePos].off;
      var e := opt[candidatePos].(mlen := selectedLength, off := selectedOffset);
      opt[candidatePos] := e;
      assert opt[..] == t[candidatePos := e];
      PathMore(v, ip, t, candidatePos, goal, e);
      StepLength(v, ip + candidatePos, e.mlen, e.off);
      WalkBack(t, opt[..], candidatePos, choice.cur, selectedLength, nextLength);
      selectedLength, selectedOffset := nextLength, nextOffset;
      if nextLength > candidatePos { break; }
      candidatePos := candidatePos - nextLength;
      WaysKept(v, ip, t, opt[..], candidatePos);
    }
  }

  /** A match begins at one of the first positions from `a` on, not behind `b`. */
  predicate MatchAhead(t: seq<Optimal>, a: int, b: int) { exists k :: 0 <= k < |t| && a <= k < MINMATCH && k <= b && t[k].mlen != 1 }

  /** What the walk back still has to know of the first entries. */
  predicate OpeningUpTo(t: seq<Optimal>, p: int) {
    MINMATCH < |t| && (MINMATCH <= p ==> t[MINMATCH].mlen == MINMATCH) && forall i :: 0 <= i < MINMATCH && i <= p ==> t[i].mlen == 1
  }

  lemma OpensUpTo(t: seq<Optimal>, llen: nat, p: int)
    requires Opening(t, llen) == true
    ensures OpeningUpTo(t, p)
  {
  }

  lemma WalkBack(t: seq<Optimal>, t': seq<Optimal>, p: nat, cur: int, selected: int, next: int)
    requires OpeningUpTo(t, p) && p < |t| && p <= cur && |t'| == |t| && (forall i :: 0 <= i < |t| && i != p ==> t'[i] == t[i]) && t'[p].mlen == selected && next == t[p].mlen
    requires 1 <= next && (p < next <==> p == 0)
    requires MINMATCH <= p || selected != 1 || MatchAhead(t, p + 1, cur)
    ensures p == 0 ==> MatchAhead(t', 0, cur)
    ensures 0 < p ==> OpeningUpTo(t', p - next) && (MINMATCH <= p - next || next != 1 || MatchAhead(t', p - next + 1, cur))
  {
    if p < MINMATCH {
      if selected != 1 {
        assert t'[p].mlen != 1;
      } else {
        var k :| 0 <= k < |t| && p + 1 <= k < MINMATCH && k <= cur && t[k].mlen != 1;
        assert t'[k].mlen != 1;
      }
    }
  }

  lemma ChoiceParts(v: Space, ip: int, t: seq<Optimal>, c: Choice)
    requires c.Valid(v, ip, t) == true
    ensures Ways(v, ip, t, c.cur) == true && Step(v, ip + c.cur, c.mlen, c.off) == true && c.cur < c.last <= c.Goal() == c.cur + c.mlen && ip + c.Goal() + LASTLITERALS <= v.end
    ensures |t| == OPT_NUM + TRAILING_LITERALS && c.last <= OPT_NUM && (MINMATCH <= c.cur || c.mlen != 1) && MINMATCH == 4
  {
    hide LeadsTo, Step;
  }

  lemma GoalReached(v: Space, ip: int, t: seq<Optimal>, goal: int)
    ensures Path(v, ip, t, goal, goal) == true
  {
  }

  lemma StepLength(v: Space, i: int, mlen: int, off: int)
    requires Step(v, i, mlen, off) == true
    ensures 1 <= mlen && (mlen != 1 ==> Repeat(i, i - off, mlen).Writable(v) == true)
  {
    hide Repeat.Writable;
  }

  lemma PathStep(v: Space, ip: int, t: seq<Optimal>, r: nat, goal: int)
    requires Path(v, ip, t, r, goal) == true && r < goal
    ensures r < |t| && 1 <= t[r].mlen && r + t[r].mlen <= goal && (t[r].mlen != 1 ==> Repeat(ip + r, ip + r - t[r].off, t[r].mlen).Writable(v) == true)
    ensures Path(v, ip, t, r + t[r].mlen, goal) == true
  {
    hide Repeat.Writable;
  }

  // ----- What it may not miss -----

  /**
   No match could have begun between `anchor` and `b`; behind a sequence, not at once, but from the next position on that the
   ways behind it cannot have led to.
   */
  ghost predicate Calm(v: Space, anchor: int, b: int, first: bool) { Quiet(v, if first then anchor else anchor + OPT_NUM, b) }

  /** No sequence begins more than three positions behind such a match. */
  ghost predicate AllSoon(v: Space, start: int, qs: seq<Emitted>)
    requires v.Valid() && v.lowLimit <= start <= v.end && Encodable(qs) && Applicable(Front(v, start), qs)
    decreases |qs|
  {
    qs == [] ||
    (var front, q := qs[..|qs| - 1], qs[|qs| - 1];
     var anchor := v.lowLimit + |Expand(Front(v, start), front)|;
     AllSoon(v, start, front) && Calm(v, anchor, anchor + |q.literals| - (MINMATCH - 1), front == []))
  }

  ghost predicate Eager(v: Space, start: int, qs: seq<Emitted>, anchor: int) { Covers(v, start, qs, anchor) && AllSoon(v, start, qs) }

  lemma EagerNothing(v: Space, start: int)
    requires Covers(v, start, [], start) == true
    ensures Eager(v, start, [], start) == true && Calm(v, start, start, true) == true
  {
  }

  lemma EagerMore(v: Space, start: int, qs: seq<Emitted>, anchor: int, m: Repeat, qs': seq<Emitted>)
    requires Eager(v, start, qs, anchor) == true && Calm(v, anchor, m.start - (MINMATCH - 1), qs == []) == true
    requires AddsFor(qs', qs, anchor, m) && Covers(v, start, qs', m.End()) == true
    ensures Eager(v, start, qs', m.End()) == true
  {
    hide Front, Calm, Expand, Applicable, Encodable, Small;
    FrontSize(v, anchor);
  }

  lemma FrontSize(v: Space, i: int)
    requires v.Valid() && v.lowLimit <= i <= v.end
    ensures |Front(v, i)| == i - v.lowLimit
  {
  }

  /** The sequences that are written, or for which there was no room. */
  lemma WrittenCovers(v: Space, start: int, w: Room, d: seq<byte>, op: int, qs: seq<Emitted>, anchor: int, ok: bool)
    requires if ok then Parsed(v, start, w, d, op, qs, anchor) == true else Overflows(v, start, w, qs, anchor) == true
    ensures Covers(v, start, qs, anchor) == true
  {
    hide Covers;
  }

  lemma CalmNearby(v: Space, anchor: int, ip: int, s: int, first: bool)
    requires Calm(v, anchor, ip, first) == true && s <= ip
    ensures Calm(v, anchor, s, first) == true
  {
    hide NoMatch;
  }

  lemma CalmBehind(v: Space, anchor: int, b: int)
    requires b <= anchor + OPT_NUM
    ensures Calm(v, anchor, b, false) == true
  {
  }

  lemma CalmNext(v: Space, anchor: int, ip: int, first: bool)
    requires Calm(v, anchor, ip, first) == true && NoMatch(v, ip) == true
    ensures Calm(v, anchor, ip + 1, first) == true
  {
    hide NoMatch;
  }

  lemma NoneFound(v: Space, m: Repeat)
    requires Exhausted(v, m.start, Result(m)) == true && m.len == 0
    ensures NoMatch(v, m.start) == true
  {
  }

  /** For equal bytes, there is nothing at the first position, and everything at the second. */
  lemma RunTurn(v: Space, start: int, qs: seq<Emitted>, anchor: int, m: Repeat, exhausted: bool)
    requires Uniform(v, start) == true && Unrolling(v, start, qs, anchor, Next(m.start)) == true && m.start + MFLIMIT <= v.end
    requires m.len == 0 || m.Writable(v) == true
    requires (exhausted ==> Exhausted(v, m.start, Result(m)) == true) && (m.start == start + 1 ==> exhausted)
    ensures qs == [] && anchor == start && if m.len == 0 then m.start == start else m == WholeRun(v, start)
  {
    RunFits(v, start);
    if m.start == start + 1 {
      LongestRun(v, start, Result(m));
    } else if m.len != 0 {
      RepeatsBehind(v, m);
    }
  }

  /** The second position is in reach of the first one only. */
  lemma RunEnough(v: Space, start: int, nbSearches: int)
    requires Uniform(v, start) == true && 2 <= nbSearches
    ensures Enough(v, start + 1, nbSearches) && v.lowLimit == v.dictLimit == start
  {
    hide Space.Runs;
  }

  lemma RunGoesOn(v: Space, start: int)
    ensures Unrolling(v, start, [], start, Next(start + 1)) == true
  {
  }

  lemma RunDone(v: Space, start: int, qs: seq<Emitted>)
    requires AddsFor(qs, [], start, WholeRun(v, start))
    ensures Unrolling(v, start, qs, v.end - LASTLITERALS, Next(v.end - LASTLITERALS)) == true && WholeRun(v, start).End() == v.end - LASTLITERALS
  {
  }

  // ----- The whole call -----

  /** All recorded sequences are written in order. */
  method EncodeWay(v: Space, start: int, w: Room, dst: array<byte>, op0: int, anchor0: int, ip0: int, opt: array<Optimal>, last: nat, ghost goal: int,
                   ghost qs: seq<Emitted>, ghost eager: bool)
    returns (ok: bool, op: int, anchor: int, ip: int, ghost qs': seq<Emitted>)
    requires Parsed(v, start, w, dst[..], op0, qs, anchor0) == true && anchor0 <= ip0
    requires Path(v, ip0, opt[..], 0, goal) == true && last <= goal && last <= OPT_NUM && ip0 + goal + LASTLITERALS <= v.end && MatchAhead(opt[..], 0, last - 1)
    requires eager ==> Eager(v, start, qs, anchor0) == true && Calm(v, anchor0, ip0, qs == []) == true
    modifies dst
    ensures forall i :: 0 <= i < dst.Length && !(w.dest <= i < w.oend) ==> dst[i] == old(dst[i])
    ensures !ok ==> w.mode == LimitedOutput && w.oend - w.dest < CompressBound(w.n) && qs' != [] && Overflows(v, start, w, qs', anchor) == true
    ensures ok ==> Parsed(v, start, w, dst[..], op, qs', anchor) == true && anchor <= ip && ip0 + last <= ip <= v.end - LASTLITERALS
    ensures eager ==> Eager(v, start, qs', anchor) == true && (ok ==> Calm(v, anchor, ip, qs' == []) == true)
  {
    hide *;
    ok, op, anchor, ip, qs' := true, op0, anchor0, ip0, qs;
    ghost var t := opt[..];
    var rPos := 0;
    ShortestIs();
    while rPos < last
      invariant ok && 0 <= rPos <= goal && ip == ip0 + rPos && anchor <= ip && opt[..] == t
      invariant Parsed(v, start, w, dst[..], op, qs', anchor) == true && Path(v, ip0, t, rPos, goal) == true
      invariant forall i :: 0 <= i < dst.Length && !(w.dest <= i < w.oend) ==> dst[i] == old(dst[i])
      invariant (qs' == qs && anchor == anchor0 && rPos < MINMATCH && MatchAhead(t, rPos, last - 1)) || (qs' != [] && ip0 <= anchor && (rPos <= last || anchor == ip))
      invariant eager ==> Eager(v, start, qs', anchor) == true
      decreases goal - rPos
    {
      PathStep(v, ip0, t, rPos, goal);
      var ml, offset := opt[rPos].mlen, opt[rPos].off;
      if ml == 1 {
        AheadStill(t, rPos, last - 1);
        ip, rPos := ip + 1, rPos + 1;
        continue;
      }
      if eager {
        if qs' == qs && anchor == anchor0 && rPos < MINMATCH {
          CalmNearby(v, anchor, ip0, ip - (MINMATCH - 1), qs == []);
        } else {
          CalmBehind(v, anchor, ip - (MINMATCH - 1));
        }
      }
      rPos := rPos + ml;
      var m := Repeat(ip, ip - offset, ml);
      EndIs(m);
      ghost var qs0, before := qs', anchor;
      ok, op, qs' := EncodeSequence(v, start, w, dst, op, anchor, m, qs');
      ip := ip + ml;
      anchor := ip;
      WrittenCovers(v, start, w, dst[..], op, qs', anchor, ok);
      if eager { EagerMore(v, start, qs0, before, m, qs'); }
      if !ok { return; }
    }
    AheadEnds(t, rPos, last - 1);
    CalmBehind(v, anchor, if ip <= anchor + OPT_NUM then ip else anchor);
    if ip > anchor + OPT_NUM { ShortestIs(); }
  }

  lemma ShortestIs()
    ensures MINMATCH == 4 && OPT_NUM == 4096 && LASTLITERALS == 5
  {
  }

  lemma AheadStill(t: seq<Optimal>, r: nat, b: int)
    ensures r < |t| && t[r].mlen == 1 && MatchAhead(t, r, b) ==> MatchAhead(t, r + 1, b) && r + 1 < MINMATCH
  {
    if r < |t| && t[r].mlen == 1 && MatchAhead(t, r, b) {
      var k :| 0 <= k < |t| && r <= k < MINMATCH && k <= b && t[k].mlen != 1;
      assert r + 1 <= k;
    }
  }

  lemma AheadEnds(t: seq<Optimal>, r: nat, b: int)
    ensures b < r ==> !MatchAhead(t, r, b)
  {
  }

  lemma AheadBefore(t: seq<Optimal>, a: int, b: int, c: int)
    requires MatchAhead(t, a, b) && b <= c
    ensures MatchAhead(t, a, c)
  {
  }

  lemma EndIs(m: Repeat)
    ensures m.End() == m.start + m.len
  {
  }

  /** A stretch of equal bytes that is long enough to be written at once. */
  ghost predicate LongRun(v: Space, start: int, nbSearches: int, sufficientLen: int, favorDecSpeed: bool) {
    Uniform(v, start) && 2 <= nbSearches && sufficientLen < WholeRun(v, start).len && !favorDecSpeed
  }

  lemma LongRunParts(v: Space, start: int, nbSearches: int, sufficientLen: int, favorDecSpeed: bool)
    requires LongRun(v, start, nbSearches, sufficientLen, favorDecSpeed) == true
    ensures Uniform(v, start) == true && 2 <= nbSearches && sufficientLen < WholeRun(v, start).len && !favorDecSpeed
  {
    hide Uniform, WholeRun;
  }

  /** One turn of the main loop. */
  method Round(c: HcContext, mem: seq<byte>, start: int, w: Room, dst: array<byte>, op0: int, anchor0: int, ip0: int, opt: array<Optimal>,
               nbSearches: int, sufficientLen: int, fullUpdate: bool, favorDecSpeed: bool, ghost qs: seq<Emitted>, ghost eager: bool)
    returns (ok: bool, op: int, anchor: int, ip: int, ghost qs': seq<Emitted>, ghost eager': bool)
    requires c.Valid() == true && Parsed(c.View(mem), start, w, dst[..], op0, qs, anchor0) == true && anchor0 <= ip0 && ip0 + MFLIMIT <= c.end && c.nextToUpdate <= ip0
    requires opt.Length == OPT_NUM + TRAILING_LITERALS && sufficientLen < OPT_NUM
    requires eager ==> Eager(c.View(mem), start, qs, anchor0) == true && Calm(c.View(mem), anchor0, ip0, qs == []) == true
    modifies c`nextToUpdate, c.hashTable, c.chainTable, dst, opt
    ensures c.Valid() == true && forall i :: 0 <= i < dst.Length && !(w.dest <= i < w.oend) ==> dst[i] == old(dst[i])
    ensures !ok ==> w.mode == LimitedOutput && w.oend - w.dest < CompressBound(w.n) && qs' != [] && Overflows(c.View(mem), start, w, qs', anchor) == true
    ensures ok ==> Parsed(c.View(mem), start, w, dst[..], op, qs', anchor) == true && anchor <= ip && ip0 < ip <= c.end && c.nextToUpdate <= ip
    ensures eager' ==> Eager(c.View(mem), start, qs', anchor) == true && (ok ==> Calm(c.View(mem), anchor, ip, qs' == []) == true)
    ensures old(c.UpToDate(mem)) ==> c.UpToDate(mem) == true
    ensures old(c.UpToDate(mem)) && eager && !favorDecSpeed && c.lowLimit == c.dictLimit && Enough(c.View(mem), ip0, nbSearches) ==> eager'
    ensures old(c.UpToDate(mem)) && LongRun(c.View(mem), start, nbSearches, sufficientLen, favorDecSpeed) == true && Unrolling(c.View(mem), start, qs, anchor0, Next(ip0)) == true ==>
      Unrolling(c.View(mem), start, qs', anchor, Next(ip)) == true
  {
    hide *;
    ghost var v := c.View(mem);
    ContextParts(c, mem);
    RoundParts(v, start, w, dst[..], op0, qs, anchor0, ip0);
    ghost var uniform := c.UpToDate(mem) && LongRun(v, start, nbSearches, sufficientLen, favorDecSpeed) && Unrolling(v, start, qs, anchor0, Next(ip0));
    ok, op, anchor, ip, qs' := true, op0, anchor0, ip0, qs;
    var m, exhausted := FindRepeat(c, mem, ip, MINMATCH - 1, nbSearches, favorDecSpeed);
    EndIs(m);
    if uniform {
      LongRunParts(v, start, nbSearches, sufficientLen, favorDecSpeed);
      RunEnough(v, start, nbSearches);
      RunTurn(v, start, qs, anchor, m, exhausted);
      RunGoesOn(v, start);
    }
    eager' := eager && exhausted && !favorDecSpeed;
    if m.len == 0 {
      if eager' {
        NoneFound(v, m);
        CalmNext(v, anchor, ip, qs == []);
      }
      ip := ip + 1;
      return;
    }
    if m.len > sufficientLen {
      if eager' { CalmNearby(v, anchor, ip, ip - (MINMATCH - 1), qs == []); }
      ok, op, qs' := EncodeSequence(c.View(mem), start, w, dst, op, anchor, m, qs);
      ip := m.End();
      anchor := ip;
      WrittenCovers(v, start, w, dst[..], op, qs', anchor, ok);
      if eager' { EagerMore(v, start, qs, anchor0, m, qs'); }
      CalmBehind(v, anchor, ip);
      if uniform { RunDone(v, start, qs'); }
      return;
    }
    FirstWays(opt, ip - anchor, m, v);
    ExploringFrom(v, ip, c.nextToUpdate, opt[..], 1, m.len);
    var choice, _, _, _ := Explore(c, mem, ip, opt, m.len, nbSearches, sufficientLen, fullUpdate, favorDecSpeed, ip - anchor);
    ContextParts(c, mem);
    ChoiceParts(v, ip, opt[..], choice);
    Reverse(opt, choice, v, ip, ip - anchor);
    AheadBefore(opt[..], 0, choice.cur, choice.last - 1);
    ok, op, anchor, ip, qs' := EncodeWay(c.View(mem), start, w, dst, op, anchor, ip, opt, choice.last, choice.Goal(), qs, eager');
  }

  lemma RoundParts(v: Space, start: int, w: Room, d: seq<byte>, op: int, qs: seq<Emitted>, anchor: int, ip: int)
    requires Parsed(v, start, w, d, op, qs, anchor) == true && anchor <= ip && ip + MFLIMIT <= v.end
    ensures v.Valid() == true && v.dictLimit <= ip && 1 <= MINMATCH - 1 && ip + (MINMATCH - 1) + LASTLITERALS <= v.end && MINMATCH == 4 && LASTLITERALS == 5 && MFLIMIT == 12 && TRAILING_LITERALS == 3
    ensures OPT_NUM == 4096
  {
    hide Space.Valid, Front;
  }

  /**
   The answer of the optimal parser: the block for its parse, or nothing, exactly as there is room for that block. An eager
   one begins with the first match, or at most three positions behind it, and takes up again where the ways behind a match
   must have ended.
   */
  ghost predicate Optimally(v: Space, start: int, room: int, answer: seq<byte>, eager: bool) {
    exists qs: seq<Emitted>, anchor: int :: FromWays(v, start, room, answer, eager, qs, anchor)
  }

  ghost predicate FromWays(v: Space, start: int, room: int, answer: seq<byte>, eager: bool, qs: seq<Emitted>, anchor: int) {
    && FromLazy(v, start, room, answer, false, qs, anchor)
    && (eager ==> AllSoon(v, start, qs) && (!BlockCompressor.Cut(room, qs) ==> Calm(v, anchor, v.end - MFLIMIT + 1, qs == [])))
  }

  lemma WellFormed(v: Space, start: int, room: int, answer: seq<byte>, qs: seq<Emitted>, anchor: int)
    requires FromLazy(v, start, room, answer, false, qs, anchor) == true
    ensures Encodable(qs)
  {
    hide Encodable;
  }

  lemma IsOptimal(v: Space, start: int, room: int, answer: seq<byte>, eager: bool, qs: seq<Emitted>, anchor: int)
    requires FromLazy(v, start, room, answer, false, qs, anchor) == true
    requires Encodable(qs) && (eager ==> Eager(v, start, qs, anchor) == true && (!BlockCompressor.Cut(room, qs) ==> Calm(v, anchor, v.end - MFLIMIT + 1, qs == []) == true))
    ensures Optimally(v, start, room, answer, eager) == true
  {
    hide FromLazy, AllSoon, Calm, Covers;
    assert FromWays(v, start, room, answer, eager, qs, anchor) by { hide AllSoon, Calm, Covers; }
  }

  lemma Unrolled(v: Space, start: int, qs: seq<Emitted>, anchor: int, ip: int)
    requires Uniform(v, start) == true && Unrolling(v, start, qs, anchor, Next(ip)) == true && qs != []
    ensures OneRun(v, start, qs) && anchor == v.end - LASTLITERALS && start + MatchFinder.MIN_LENGTH <= v.end
  {
    hide Space.Runs;
  }

  lemma IsCut(v: Space, start: int, w: Room, qs: seq<Emitted>, anchor: int)
    requires Overflows(v, start, w, qs, anchor) == true
    ensures Encodable(qs) && BlockCompressor.Cut(w.oend - w.dest, qs) == true
  {
    hide Encodable, EncodeAll, EncodeBlock, BlockCompressor.Cut;
  }

  lemma RunEndsHere(v: Space, start: int, qs: seq<Emitted>, anchor: int, ip: int)
    requires Uniform(v, start) == true && Unrolling(v, start, qs, anchor, Next(ip)) == true && v.end < ip + MFLIMIT
    ensures OneRun(v, start, qs) && anchor == v.end - LASTLITERALS && start + MatchFinder.MIN_LENGTH <= v.end
  {
    hide Space.Runs;
    RunEnds(v, start, qs, anchor, Next(ip));
  }

  /**
   LZ4HC_compress_optimal, unless the output is to be filled. The block stands for the input behind the
   text of all indices in front of it, whatever the tables hold; and there is none only for want of room. With
   tables that are up to date, more attempts than indices in reach and no dictionary, the parse is eager.
   */
  method CompressOptimal(c: HcContext, mem: seq<byte>, start: int, w: Room, dst: array<byte>, nbSearches: int, targetLength: int, fullUpdate: bool, favorDecSpeed: bool)
    returns (result: nat, ghost eager: bool)
    requires c.Valid() == true && c.View(mem).Valid() == true && c.dictLimit <= start <= c.end && c.nextToUpdate <= start
    requires w.n == c.end - start && w.Fits(dst.Length) && w.mode != FillOutput
    modifies c`nextToUpdate, c.hashTable, c.chainTable, dst
    ensures c.Valid() == true && forall i :: 0 <= i < dst.Length && !(w.dest <= i < w.oend) ==> dst[i] == old(dst[i])
    ensures result == 0 ==> w.mode == LimitedOutput && w.oend - w.dest < CompressBound(w.n)
    ensures result > 0 ==> 0 <= w.dest && w.dest + result <= w.oend <= dst.Length
    ensures result > 0 ==> var v := c.View(mem);
      && v.Valid() && v.lowLimit <= start <= v.end && 0 <= v.base + start && v.base + v.end <= |mem|
      && BlockCompressor.Represents(dst[w.dest..w.dest + result], Front(v, start), mem[v.base + start..v.base + v.end]) == true
    ensures 0 <= w.dest <= w.dest + result <= dst.Length && Optimally(c.View(mem), start, w.oend - w.dest, dst[w.dest..w.dest + result], eager) == true
    ensures old(c.UpToDate(mem)) ==> c.UpToDate(mem) == true
    ensures old(c.UpToDate(mem)) && !favorDecSpeed && c.lowLimit == c.dictLimit && AllEnough(c.View(mem), start, nbSearches) ==> eager
    ensures old(c.UpToDate(mem)) && LongRun(c.View(mem), start, nbSearches, Min(targetLength, OPT_NUM - 1), favorDecSpeed) == true ==>
      result <= EqualBytes.EqualBound(w.n) && (EqualBytes.EqualBound(w.n) <= w.oend - w.dest ==> 0 < result)
  {
    hide *;
    ghost var v := c.View(mem);
    ContextParts(c, mem);
    ParsedNothing(v, start, w, dst[..]);
    ParsedParts(v, start, w, dst[..], w.dest, [], start);
    ParsedCovers(v, start, w, dst[..], w.dest, [], start);
    EagerNothing(v, start);
    InMemory(v, start);
    OptSizes();
    var opt := new Optimal[OPT_NUM + TRAILING_LITERALS](_ => Optimal(0, 0, 0, 0));
    var sufficientLen := if targetLength >= OPT_NUM then OPT_NUM - 1 else targetLength;
    SufficientIs(targetLength);
    ghost var uniform := c.UpToDate(mem) && LongRun(v, start, nbSearches, sufficientLen, favorDecSpeed);
    if uniform { LongRunParts(v, start, nbSearches, sufficientLen, favorDecSpeed); }
    UnrollingStarts(v, start);
    var ok, op, anchor, ip := true, w.dest, start, start;
    ghost var qs := [];
    eager := true;
    while ip + MFLIMIT <= c.end
      invariant c.Valid() == true && Parsed(v, start, w, dst[..], op, qs, anchor) == true && start <= anchor <= ip && c.nextToUpdate <= ip
      invariant ok && fresh(opt) && forall i :: 0 <= i < dst.Length && !(w.dest <= i < w.oend) ==> dst[i] == old(dst[i])
      invariant eager ==> Eager(v, start, qs, anchor) == true && Calm(v, anchor, ip, qs == []) == true
      invariant old(c.UpToDate(mem)) ==> c.UpToDate(mem) == true && (!favorDecSpeed && c.lowLimit == c.dictLimit && AllEnough(v, start, nbSearches) ==> eager)
      invariant uniform ==> Unrolling(v, start, qs, anchor, Next(ip)) == true
      decreases c.end - ip
    {
      if AllEnough(v, start, nbSearches) { EnoughHere(v, start, ip, nbSearches); }
      ok, op, anchor, ip, qs, eager := Round(c, mem, start, w, dst, op, anchor, ip, opt, nbSearches, sufficientLen, fullUpdate, favorDecSpeed, qs, eager);
      if !ok {
        NothingFits(v, start, w, qs, anchor, false);
        IsCut(v, start, w, qs, anchor);
        IsOptimal(v, start, w.oend - w.dest, [], eager, qs, anchor);
        if uniform {
          Unrolled(v, start, qs, anchor, ip);
          RunBound(v, start, w.oend - w.dest, [], false, qs, anchor);
        }
        assert dst[w.dest..w.dest + 0] == [];
        return 0, eager;
      }
      ParsedParts(v, start, w, dst[..], op, qs, anchor);
    }
    if uniform { RunEndsHere(v, start, qs, anchor, ip); }
    if eager { CalmNearby(v, anchor, ip, c.end - MFLIMIT + 1, qs == []); }
    result := FinishBlock(c.View(mem), start, w, dst, op, anchor, qs, false);
    WellFormed(v, start, w.oend - w.dest, dst[w.dest..w.dest + result], qs, anchor);
    IsOptimal(v, start, w.oend - w.dest, dst[w.dest..w.dest + result], eager, qs, anchor);
    if uniform { RunBound(v, start, w.oend - w.dest, dst[w.dest..w.dest + result], false, qs, anchor); }
  }

  lemma SufficientIs(targetLength: int)
    ensures (if targetLength >= OPT_NUM then OPT_NUM - 1 else targetLength) == Min(targetLength, OPT_NUM - 1)
  {
  }

  lemma EnoughHere(v: Space, start: int, ip: int, nbSearches: int)
    requires AllEnough(v, start, nbSearches) && start <= ip && ip + MFLIMIT <= v.end
    ensures Enough(v, ip, nbSearches)
  {
    hide Enough;
  }

  lemma OptSizes()
    ensures 0 < OPT_NUM && 0 <= OPT_NUM + TRAILING_LITERALS && 0 < MFLIMIT
  {
  }
}
