/**
 The positions that lz4hc.c searches: a prefix and an external dictionary in one index space, and the
 chains that lead from a position to the newest one before it with the same hash.
 */
module HcChains {
  import opened Bytes
  import opened BlockFormat

  const HASH_SIZE := 32768
  const CHAIN_SIZE := 65536
  /** A stream starts anew beyond 2 GB, and then takes an input of at most 0x7E000000 bytes. */
  const INDEX_LIMIT := 2 * GB + 0x7E00_0001

  // ----- The index space -----

  /**
   The bytes that an index stands for: at `base + i` in the prefix `[dictLimit, end)`, and at
   `dictBase + i` in the dictionary `[lowLimit, dictLimit)`.
   */
  datatype Space = Space(mem: seq<byte>, base: int, dictBase: int, lowLimit: int, dictLimit: int, end: int) {
    predicate Valid() {
      && lowLimit <= dictLimit <= end && 0 <= base + dictLimit && base + end <= |mem|
      && (lowLimit < dictLimit ==> 0 <= dictBase + lowLimit && dictBase + dictLimit <= |mem|)
    }

    function At(i: int): byte
      requires Valid() && lowLimit <= i < end
    {
      if i < dictLimit then mem[dictBase + i] else mem[base + i]
    }

    /** Four bytes can be read at `i`; not so in the last three bytes of the dictionary. */
    predicate Readable(i: int) { lowLimit <= i && i + 4 <= end && !Gap(lowLimit, dictLimit, i) }

    function Four(i: int): seq<byte>
      requires Valid() && Readable(i)
    {
      if i < dictLimit then mem[dictBase + i..dictBase + i + 4] else mem[base + i..base + i + 4]
    }

    /** The `n` bytes at `s` repeat those at `m`, which is near enough. */
    ghost predicate Repeats(m: int, s: int, n: int) {
      && Valid() && lowLimit <= m < s && s - m <= DISTANCE_MAX && s + n <= end
      && forall i :: s <= i < s + n ==> At(i) == At(i - (s - m))
    }

    /** All bytes from `from` to `to` are the same. */
    ghost predicate Runs(p: byte, from: int, to: int) {
      Valid() && lowLimit <= from && to <= end && forall i :: from <= i < to ==> At(i) == p
    }
  }

  /** In the last three bytes of the dictionary no four bytes can be read. */
  predicate Gap(low: int, dictLimit: int, i: int) { low <= i && dictLimit - 3 <= i < dictLimit }

  /** The four bytes at two places are the same. */
  predicate FourAlike(v: Space, i: int, j: int)
    requires v.Valid() && v.Readable(i) && v.Readable(j)
  {
    v.At(i) == v.At(j) && v.At(i + 1) == v.At(j + 1) && v.At(i + 2) == v.At(j + 2) && v.At(i + 3) == v.At(j + 3)
  }

  lemma FourMeans(v: Space, i: int, j: int)
    requires v.Valid() && v.Readable(i) && v.Readable(j)
    ensures v.Four(i) == v.Four(j) <==> FourAlike(v, i, j)
  {
    FourAre(v, i);
    FourAre(v, j);
    var x, y := v.Four(i), v.Four(j);
    hide *;
    if x[0] == y[0] && x[1] == y[1] && x[2] == y[2] && x[3] == y[3] { assert x == y; }
  }

  lemma FourAre(v: Space, i: int)
    requires v.Valid() && v.Readable(i)
    ensures var x := v.Four(i); |x| == 4 && x[0] == v.At(i) && x[1] == v.At(i + 1) && x[2] == v.At(i + 2) && x[3] == v.At(i + 3)
  {
  }

  /** A repetition contains the shorter ones inside it. */
  lemma RepeatsInside(v: Space, m: int, s: int, n: int, a: nat, k: nat)
    requires v.Valid() && v.Repeats(m, s, n) && a + k <= n
    ensures v.Repeats(m + a, s + a, k)
  {
    forall i | s + a <= i < s + a + k ensures v.At(i) == v.At(i - (s - m)) {}
  }

  lemma FourRepeats(v: Space, m: int, s: int, n: int, a: nat)
    requires v.Valid() && v.Repeats(m, s, n) && a + 4 <= n && v.Readable(m + a) && v.Readable(s + a)
    ensures v.Four(m + a) == v.Four(s + a)
  {
    FourMeans(v, m + a, s + a);
    var x := s + a;
    assert v.At(x) == v.At(x - (s - m)) && v.At(x + 1) == v.At(x + 1 - (s - m));
    assert v.At(x + 2) == v.At(x + 2 - (s - m)) && v.At(x + 3) == v.At(x + 3 - (s - m));
  }

  /** Stretches of one byte repeat each other. */
  lemma RunsRepeat(v: Space, p: byte, m: int, s: int, n: int)
    requires v.Valid() && v.Runs(p, m, m + n) && v.Runs(p, s, s + n) && m < s && s - m <= DISTANCE_MAX
    ensures v.Repeats(m, s, n) == true
  {
    forall i | s <= i < s + n ensures v.At(i) == v.At(i - (s - m)) {}
  }

  // ----- The chains -----

  /** How far the chain leads back from `i`. */
  function Delta(c: seq<int>, i: int): int
    requires |c| == CHAIN_SIZE
  {
    c[i % CHAIN_SIZE]
  }

  /**
   Entries lead to positions that were inserted, and the chains from them to others, or out of reach. From
   positions that were not inserted, chains lead anywhere before them, or nowhere.
   */
  ghost predicate Chained(t: seq<int>, c: seq<int>, low: int, dictLimit: int, next: int) {
    && |t| == HASH_SIZE && |c| == CHAIN_SIZE && (forall k :: 0 <= k < CHAIN_SIZE ==> 0 <= c[k] <= DISTANCE_MAX)
    && (forall h :: 0 <= h < HASH_SIZE ==> 0 <= t[h] < next && !Gap(low, dictLimit, t[h]))
    && (forall i :: Max(low, next - CHAIN_SIZE) <= i < next && !Gap(low, dictLimit, i) ==>
          1 <= Delta(c, i) && (Delta(c, i) == DISTANCE_MAX || !Gap(low, dictLimit, i - Delta(c, i))))
  }

  /** One more position, in front of its chain. */
  lemma ChainedMore(t: seq<int>, c: seq<int>, low: int, dictLimit: int, next: int, h: nat)
    requires Chained(t, c, low, dictLimit, next) == true && h < HASH_SIZE && 0 <= low && dictLimit <= next
    ensures |t| == HASH_SIZE && |c| == CHAIN_SIZE
    ensures Chained(t[h := next], c[next % CHAIN_SIZE := Min(next - t[h], DISTANCE_MAX)], low, dictLimit, next + 1) == true
  {
    var d := c[next % CHAIN_SIZE := Min(next - t[h], DISTANCE_MAX)];
    forall i | Max(low, next + 1 - CHAIN_SIZE) <= i < next ensures Delta(d, i) == Delta(c, i) { OtherSlot(i, next); }
  }

  /** The front of the dictionary may be given up. */
  lemma ChainedBehind(t: seq<int>, c: seq<int>, low: int, low': int, dictLimit: int, next: int)
    requires Chained(t, c, low, dictLimit, next) && low <= low'
    ensures Chained(t, c, low', dictLimit, next) == true
  {
    forall i | Max(low', next - CHAIN_SIZE) <= i < next && !Gap(low', dictLimit, i)
      ensures 1 <= Delta(c, i) && (Delta(c, i) == DISTANCE_MAX || !Gap(low', dictLimit, i - Delta(c, i)))
    {
      assert !Gap(low, dictLimit, i);
      assert Delta(c, i) == DISTANCE_MAX || !Gap(low, dictLimit, i - Delta(c, i));
    }
    forall h | 0 <= h < HASH_SIZE ensures !Gap(low', dictLimit, t[h]) { assert !Gap(low, dictLimit, t[h]); }
  }

  lemma SlotInside(i: int, delta: int)
    ensures 0 <= i % CHAIN_SIZE < CHAIN_SIZE && (0 <= delta <= DISTANCE_MAX ==> delta % U16_SIZE == delta)
  {
  }

  lemma OtherSlot(i: int, j: int)
    requires 0 <= i < j < i + CHAIN_SIZE
    ensures i % CHAIN_SIZE != j % CHAIN_SIZE
  {
  }

  /** The tables and the hash function. */
  datatype Links = Links(hash: seq<byte> -> nat, t: seq<int>, c: seq<int>, next: int) {
    ghost predicate Sizes() { |t| == HASH_SIZE && |c| == CHAIN_SIZE }

    function Hash(v: Space, i: int): (h: nat)
      requires v.Valid() && v.Readable(i)
      ensures h < HASH_SIZE
    {
      hash(v.Four(i)) % HASH_SIZE
    }

    predicate Alike(v: Space, i: int, j: int) {
      v.Valid() && v.Readable(i) && v.Readable(j) && Hash(v, i) == Hash(v, j)
    }

    predicate Inserted(v: Space, i: int) { v.Readable(i) && i < next }

    /** The table has the newest position of each hash, if it is in the space at all. */
    ghost predicate Heads(v: Space)
      requires v.Valid() && Sizes()
    {
      && (forall j :: Inserted(v, j) ==> j <= t[Hash(v, j)])
      && (forall h :: 0 <= h < HASH_SIZE && v.lowLimit <= t[h] ==> v.Readable(t[h]) && Hash(v, t[h]) == h)
    }

    /** The chain leads from a position to the newest one before it with its hash, if that is near enough. */
    ghost predicate Tails(v: Space)
      requires v.Valid() && Sizes()
    {
      forall i :: Inserted(v, i) && next - CHAIN_SIZE <= i ==> Tail(v, i, Delta(c, i))
    }

    ghost predicate Tail(v: Space, i: int, d: int) {
      && v.Valid() && v.Readable(i)
      && (forall j :: Inserted(v, j) && j < i && Hash(v, j) == Hash(v, i) ==> j <= i - d)
      && (v.lowLimit <= i - d && d < DISTANCE_MAX ==> Alike(v, i - d, i))
    }

    ghost predicate Linked(v: Space) {
      v.Valid() && Sizes() && Heads(v) && Tails(v)
    }
  }

  lemma HeadNewest(l: Links, v: Space, j: int)
    requires l.Linked(v) == true && l.Inserted(v, j)
    ensures v.Valid() && |l.t| == HASH_SIZE && j <= l.t[l.Hash(v, j)]
  {
  }

  lemma HeadAlike(l: Links, v: Space, h: nat)
    requires l.Linked(v) == true && |l.t| == HASH_SIZE && h < HASH_SIZE && v.lowLimit <= l.t[h]
    ensures v.Valid() && v.Readable(l.t[h]) && l.Hash(v, l.t[h]) == h
  {
  }

  lemma TailNewest(l: Links, v: Space, i: int, j: int)
    requires l.Linked(v) == true && l.Inserted(v, i) && l.next - CHAIN_SIZE <= i && l.Inserted(v, j) && j < i && l.Alike(v, i, j)
    ensures |l.c| == CHAIN_SIZE && j <= i - Delta(l.c, i)
  {
    hide Links.Tail;
    assert l.Tail(v, i, Delta(l.c, i));
    TailParts(l, v, i, Delta(l.c, i), j);
  }

  lemma TailParts(l: Links, v: Space, i: int, d: int, j: int)
    requires l.Tail(v, i, d) == true
    ensures l.Inserted(v, j) && j < i && l.Alike(v, i, j) ==> j <= i - d
    ensures v.lowLimit <= i - d && d < DISTANCE_MAX ==> l.Alike(v, i - d, i)
  {
  }

  lemma TailAlike(l: Links, v: Space, i: int)
    requires l.Linked(v) == true && l.Inserted(v, i) && l.next - CHAIN_SIZE <= i
    ensures |l.c| == CHAIN_SIZE && (v.lowLimit <= i - Delta(l.c, i) && Delta(l.c, i) < DISTANCE_MAX ==> l.Alike(v, i - Delta(l.c, i), i))
  {
    hide Links.Tail;
    assert l.Tail(v, i, Delta(l.c, i));
    TailParts(l, v, i, Delta(l.c, i), i);
  }

  /** One more position, in front of its chain. */
  lemma LinkedMore(l: Links, v: Space, h: nat, m: Links)
    requires v.Valid() && l.Linked(v) && Chained(l.t, l.c, v.lowLimit, v.dictLimit, l.next) && v.dictLimit <= l.next && v.Readable(l.next) && h == l.Hash(v, l.next)
    requires 0 <= v.lowLimit
    requires m == Links(l.hash, l.t[h := l.next], l.c[l.next % CHAIN_SIZE := Min(l.next - l.t[h], DISTANCE_MAX)], l.next + 1)
    ensures m.Linked(v) == true
  {
    forall i | Max(v.lowLimit, l.next + 1 - CHAIN_SIZE) <= i < l.next ensures Delta(m.c, i) == Delta(l.c, i) { OtherSlot(i, l.next); }
    assert forall i :: v.Readable(i) ==> m.Hash(v, i) == l.Hash(v, i);
    assert Delta(m.c, l.next) == Min(l.next - l.t[h], DISTANCE_MAX);
    MoreHeads(l, v, h, m);
    MoreTails(l, v, h, m);
  }

  lemma MoreHeads(l: Links, v: Space, h: nat, m: Links)
    requires v.Valid() && l.Sizes() && l.Heads(v) && v.dictLimit <= l.next && v.Readable(l.next) && h == l.Hash(v, l.next) && 0 <= v.lowLimit
    requires m.hash == l.hash && m.t == l.t[h := l.next] && |m.c| == CHAIN_SIZE && m.next == l.next + 1
    requires forall k :: 0 <= k < HASH_SIZE ==> l.t[k] < l.next
    ensures m.Heads(v) == true
  {
    forall j | m.Inserted(v, j) ensures j <= m.t[m.Hash(v, j)] {
      if j < l.next { assert l.Inserted(v, j); }
    }
    forall k | 0 <= k < HASH_SIZE && v.lowLimit <= m.t[k] ensures v.Readable(m.t[k]) && m.Hash(v, m.t[k]) == k {
      if k != h { assert l.Hash(v, l.t[k]) == k; }
    }
  }

  lemma MoreTails(l: Links, v: Space, h: nat, m: Links)
    requires v.Valid() && l.Sizes() && l.Heads(v) == true && l.Tails(v) == true && v.dictLimit <= l.next && v.Readable(l.next) && h == l.Hash(v, l.next)
    requires m.hash == l.hash && m.Sizes() && m.next == l.next + 1 && 0 <= v.lowLimit
    requires Delta(m.c, l.next) == Min(l.next - l.t[h], DISTANCE_MAX)
    requires forall i :: Max(v.lowLimit, l.next + 1 - CHAIN_SIZE) <= i < l.next ==> Delta(m.c, i) == Delta(l.c, i)
    ensures m.Tails(v) == true
  {
    hide Links.Tail, Links.Heads, Links.Hash, Space.Valid, Space.Four;
    forall i | m.Inserted(v, i) && m.next - CHAIN_SIZE <= i ensures m.Tail(v, i, Delta(m.c, i)) == true {
      if i < l.next { OldTail(l, v, m, i); } else { NewTail(l, v, h, m); }
    }
  }

  lemma OldTail(l: Links, v: Space, m: Links, i: int)
    requires v.Valid() && l.Sizes() && l.Tails(v) == true && v.Readable(i) && l.next + 1 - CHAIN_SIZE <= i < l.next && m.hash == l.hash
    ensures m.Tail(v, i, Delta(l.c, i)) == true
  {
    assert l.Tail(v, i, Delta(l.c, i));
    hide Space.Valid, Space.Four;
    forall j | m.Inserted(v, j) && j < i && m.Hash(v, j) == m.Hash(v, i) ensures j <= i - Delta(l.c, i) {
      assert l.Inserted(v, j) && l.Hash(v, j) == l.Hash(v, i);
    }
    if v.lowLimit <= i - Delta(l.c, i) && Delta(l.c, i) < DISTANCE_MAX { assert l.Alike(v, i - Delta(l.c, i), i); }
  }

  lemma NewTail(l: Links, v: Space, h: nat, m: Links)
    requires v.Valid() && l.Sizes() && l.Heads(v) == true && v.Readable(l.next) && h == l.Hash(v, l.next) && m.hash == l.hash && m.next == l.next + 1
    ensures m.Tail(v, l.next, Min(l.next - l.t[h], DISTANCE_MAX)) == true
  {
    hide Space.Valid, Space.Four;
    forall j | m.Inserted(v, j) && j < l.next && m.Hash(v, j) == m.Hash(v, l.next) ensures j <= l.t[h] {
      assert l.Inserted(v, j) && l.Hash(v, j) == h;
    }
    if v.lowLimit <= l.t[h] { assert l.Hash(v, l.t[h]) == h; }
  }

  /** Every position that can be read and was inserted has the same bytes as before. */
  ghost predicate Kept(v: Space, next: int, w: Space, next': int)
    requires v.Valid() && w.Valid()
  {
    && v.lowLimit <= w.lowLimit && next <= next'
    && forall j :: w.Readable(j) && j < next' ==> v.Readable(j) && j < next && v.Four(j) == w.Four(j)
  }

  /** Then the tables stay as good as they were. */
  lemma LinkedKept(l: Links, v: Space, m: Links, w: Space)
    requires v.Valid() && w.Valid() && l.Linked(v) && m == l.(next := m.next) && Kept(v, l.next, w, m.next)
    requires Chained(l.t, l.c, w.lowLimit, w.dictLimit, m.next) && m.next <= Max(w.dictLimit, w.end - 3)
    ensures m.Linked(w) == true
  {
    HeadsKept(l, v, m, w);
    forall i | m.Inserted(w, i) && m.next - CHAIN_SIZE <= i ensures m.Tail(w, i, Delta(m.c, i)) == true {
      assert l.Inserted(v, i) && l.Tail(v, i, Delta(l.c, i));
      TailKept(l, v, m, w, i, Delta(l.c, i));
    }
  }

  lemma HeadsKept(l: Links, v: Space, m: Links, w: Space)
    requires v.Valid() && w.Valid() && l.Sizes() && l.Heads(v) && m == l.(next := m.next) && Kept(v, l.next, w, m.next)
    requires Chained(l.t, l.c, w.lowLimit, w.dictLimit, m.next) && m.next <= Max(w.dictLimit, w.end - 3)
    ensures m.Heads(w) == true
  {
    assert w.dictLimit <= w.end;
    hide Space.Valid, Space.Four;
    forall j | m.Inserted(w, j) ensures j <= m.t[m.Hash(w, j)] {
      assert l.Inserted(v, j) && m.Hash(w, j) == l.Hash(v, j);
    }
    forall h | 0 <= h < HASH_SIZE && w.lowLimit <= m.t[h] ensures w.Readable(m.t[h]) && m.Hash(w, m.t[h]) == h {
      assert w.Readable(m.t[h]);
      assert v.lowLimit <= l.t[h] && l.Hash(v, l.t[h]) == h;
    }
  }

  lemma TailKept(l: Links, v: Space, m: Links, w: Space, i: int, d: int)
    requires v.Valid() && w.Valid() && m == l.(next := m.next) && Kept(v, l.next, w, m.next) && m.Inserted(w, i) && v.Readable(i) && l.Tail(v, i, d)
    requires d >= 1 && (d == DISTANCE_MAX || !Gap(w.lowLimit, w.dictLimit, i - d))
    ensures m.Tail(w, i, d) == true
  {
    hide Space.Valid, Space.Four;
    forall j | m.Inserted(w, j) && j < i && m.Hash(w, j) == m.Hash(w, i) ensures j <= i - d {
      assert l.Inserted(v, j) && l.Hash(v, j) == l.Hash(v, i);
    }
    if w.lowLimit <= i - d && d < DISTANCE_MAX {
      assert w.Readable(i - d);
      assert l.Alike(v, i - d, i);
      assert i - d < m.next;
    }
  }
}
