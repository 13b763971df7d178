/**
 xxHash: one-shot hashing and streaming state, 32 and 64 bits wide. Feeding an input in pieces gives
 the hash of the whole, wherever it is cut and however often the 32-bit length has wrapped.
 */
module XxHash {
  import opened Bytes

  // ----- Stripes -----

  const STRIPE_32 := 16
  const STRIPE_64 := 32
  const U64_SIZE := 0x1_0000_0000_0000_0000

  predicate StripeSize(width: nat) { width == STRIPE_32 || width == STRIPE_64 }

  /** `n` bytes are a whole number of stripes. */
  predicate Whole(width: nat, n: int)
    requires StripeSize(width)
  {
    n % width == 0
  }

  lemma Stripes()
    ensures StripeSize(STRIPE_32) && StripeSize(STRIPE_64) && STRIPE_32 == 16 && STRIPE_64 == 32
  {
  }

  lemma OneMoreStripe(width: nat, n: int)
    requires StripeSize(width) && Whole(width, n)
    ensures Whole(width, width + n)
  {
    if width == STRIPE_32 {
    } else {
    }
  }

  /** Feeds the whole stripes of `s` to the lanes. */
  function Absorb<L>(step: (L, seq<byte>) -> L, width: nat, lanes: L, s: seq<byte>): (r: L)
    requires StripeSize(width)
    decreases |s|
  {
    if |s| < width then lanes else Absorb(step, width, step(lanes, s[..width]), s[width..])
  }

  /** Whole stripes can be fed first, and the rest after them. */
  lemma {:induction false} AbsorbConcat<L>(step: (L, seq<byte>) -> L, width: nat, lanes: L, a: seq<byte>, b: seq<byte>)
    requires StripeSize(width) && Whole(width, |a|)
    ensures Absorb(step, width, lanes, a + b) == Absorb(step, width, Absorb(step, width, lanes, a), b)
    decreases |a|
  {
    if |a| == 0 {
      assert a + b == b;
    } else {
      WholeStripe(|a|, width);
      assert (a + b)[..width] == a[..width] && (a + b)[width..] == a[width..] + b;
      AbsorbConcat(step, width, step(lanes, a[..width]), a[width..], b);
    }
  }

  lemma WholeStripe(n: nat, width: nat)
    requires StripeSize(width) && 0 < n && Whole(width, n)
    ensures width <= n && Whole(width, n - width)
  {
    if width == STRIPE_32 {
    } else {
    }
  }

  /** The first `n` bytes of `fed` are in the lanes, and the rest is in the buffer. */
  ghost predicate Holds<L>(step: (L, seq<byte>) -> L, width: nat, init: L, fed: seq<byte>, lanes: L, buffer: seq<byte>) {
    StripeSize(width) &&
    var n := |fed| - |buffer|;
    && |buffer| < width && 0 <= n && Whole(width, n) && buffer == fed[n..]
    && lanes == Absorb(step, width, init, fed[..n])
  }

  /** Input that does not fill the buffer. */
  lemma HoldsMore<L>(step: (L, seq<byte>) -> L, width: nat, init: L, fed: seq<byte>, lanes: L, buffer: seq<byte>, input: seq<byte>)
    requires Holds(step, width, init, fed, lanes, buffer) && |buffer + input| < width
    ensures Holds(step, width, init, fed + input, lanes, buffer + input)
  {
    var n := |fed| - |buffer|;
    assert (fed + input)[..n] == fed[..n] && (fed + input)[n..] == fed[n..] + input;
  }

  lemma WholeSum(a: nat, b: nat, width: nat)
    requires StripeSize(width) && Whole(width, a) && Whole(width, b)
    ensures Whole(width, a + b)
  {
    if width == STRIPE_32 {
    } else {
    }
  }

  lemma FlushedSplit(fed: seq<byte>, buffer: seq<byte>, input: seq<byte>, k: nat)
    requires |buffer| <= |fed| && buffer == fed[|fed| - |buffer|..] && k <= |input|
    ensures fed + input == fed[..|fed| - |buffer|] + (buffer + input)
    ensures (fed + input)[|fed + input| - k..] == input[|input| - k..]
  {
    assert fed == fed[..|fed| - |buffer|] + buffer;
  }

  /** Input that fills it: stripes go to the lanes, and only the end of the input is left. */
  lemma HoldsFlushed<L>(step: (L, seq<byte>) -> L, width: nat, init: L, fed: seq<byte>, lanes: L, buffer: seq<byte>, input: seq<byte>, k: nat)
    requires Holds(step, width, init, fed, lanes, buffer)
    requires k < width && k <= |input| && Whole(width, |buffer| + |input| - k)
    ensures Holds(step, width, init, fed + input, Absorb(step, width, lanes, buffer + input), input[|input| - k..])
  {
    hide Absorb, Whole;
    var n, q := |fed| - |buffer|, |buffer| + |input| - k;
    WholeSum(n, q, width);
    FlushedSplit(fed, buffer, input, k);
    AbsorbOn(step, width, init, fed[..n], buffer + input, q);
  }

  /** A stripe whose beginning was left over from before. */
  lemma AbsorbFirst<L>(step: (L, seq<byte>) -> L, width: nat, lanes: L, rest: seq<byte>, input: seq<byte>)
    requires StripeSize(width) && |rest| <= width <= |rest| + |input|
    ensures var k := width - |rest|;
            Absorb(step, width, lanes, rest + input) == Absorb(step, width, step(lanes, rest + input[..k]), input[k..])
  {
    hide Absorb;
    var k := width - |rest|;
    FrontAndBack(rest, input, k);
    AbsorbOne(step, width, lanes, rest + input);
  }

  lemma FrontAndBack(rest: seq<byte>, input: seq<byte>, k: nat)
    requires k <= |input|
    ensures (rest + input)[..|rest| + k] == rest + input[..k] && (rest + input)[|rest| + k..] == input[k..]
  {
  }

  lemma AbsorbOne<L>(step: (L, seq<byte>) -> L, width: nat, lanes: L, s: seq<byte>)
    requires StripeSize(width) && width <= |s|
    ensures Absorb(step, width, lanes, s) == Absorb(step, width, step(lanes, s[..width]), s[width..])
  {
  }

  /** Behind whole stripes `front`, feeding `more` is feeding its first `q` bytes, if less than a stripe is left. */
  lemma AbsorbOn<L>(step: (L, seq<byte>) -> L, width: nat, lanes: L, front: seq<byte>, more: seq<byte>, q: nat)
    requires StripeSize(width) && Whole(width, |front|)
    requires q <= |more| < q + width && Whole(width, q)
    ensures Absorb(step, width, lanes, (front + more)[..|front| + q]) == Absorb(step, width, Absorb(step, width, lanes, front), more)
  {
    assert (front + more)[..|front| + q] == front + more[..q] && more == more[..q] + more[q..];
    AbsorbConcat(step, width, lanes, front, more[..q]);
    AbsorbConcat(step, width, Absorb(step, width, lanes, front), more[..q], more[q..]);
  }

  // ----- 32 bits -----

  const PRIME32_1: bv32 := 2654435761
  const PRIME32_2: bv32 := 2246822519
  const PRIME32_3: bv32 := 3266489917
  const PRIME32_4: bv32 := 668265263
  const PRIME32_5: bv32 := 374761393

  function Rotl32(x: bv32, r: bv32): bv32
    requires r <= 32
  {
    (x << r) | (x >> (32 - r))
  }

  function Byte32(b: byte): bv32 { (b as bv8) as bv32 }

  /** XXH_readLE32. */
  function Read32(s: seq<byte>, i: nat): bv32
    requires i + 4 <= |s|
  {
    Byte32(s[i]) | (Byte32(s[i + 1]) << 8) | (Byte32(s[i + 2]) << 16) | (Byte32(s[i + 3]) << 24)
  }

  datatype Lanes<W> = Lanes(v1: W, v2: W, v3: W, v4: W)

  function Init32(seed: bv32): Lanes<bv32> {
    Lanes(seed + PRIME32_1 + PRIME32_2, seed + PRIME32_2, seed + 0, seed - PRIME32_1)
  }

  function Round32(seed: bv32, input: bv32): bv32 {
    Rotl32(seed + input * PRIME32_2, 13) * PRIME32_1
  }

  /** One stripe of 16 bytes; a shorter one is never fed. */
  function Stripe32(l: Lanes<bv32>, s: seq<byte>): Lanes<bv32> {
    if |s| < STRIPE_32 then l
    else Lanes(Round32(l.v1, Read32(s, 0)), Round32(l.v2, Read32(s, 4)), Round32(l.v3, Read32(s, 8)), Round32(l.v4, Read32(s, 12)))
  }

  function Avalanche32(h: bv32): bv32 {
    var a := (h ^ (h >> 15)) * PRIME32_2;
    var b := (a ^ (a >> 13)) * PRIME32_3;
    b ^ (b >> 16)
  }

  /** PROCESS4. */
  function Four32(h: bv32, w: bv32): bv32 { Rotl32(h + w * PRIME32_3, 17) * PRIME32_4 }

  /** PROCESS1. */
  function One32(h: bv32, b: byte): bv32 { Rotl32(h + Byte32(b) * PRIME32_5, 11) * PRIME32_1 }

  /** What the last bytes do: four at a time, then single ones. */
  function Finalize32(h: bv32, s: seq<byte>): bv32
    decreases |s|
  {
    if |s| >= 4 then Finalize32(Four32(h, Read32(s, 0)), s[4..])
    else if |s| >= 1 then Finalize32(One32(h, s[0]), s[1..])
    else Avalanche32(h)
  }

  function Merge32(l: Lanes<bv32>): bv32 {
    Rotl32(l.v1, 1) + Rotl32(l.v2, 7) + Rotl32(l.v3, 12) + Rotl32(l.v4, 18)
  }

  function Short32(seed: bv32): bv32 { seed + PRIME32_5 }

  function WithLength32(h: bv32, n: nat): bv32
    requires n < U32_SIZE
  {
    h + (n as bv32)
  }

  /** The hash of `s`, said without loops or state. */
  function Hash32(seed: bv32, s: seq<byte>): bv32 {
    var h := if |s| >= STRIPE_32 then Merge32(Absorb(Stripe32, STRIPE_32, Init32(seed), s)) else Short32(seed);
    Finalize32(WithLength32(h, |s| % U32_SIZE), s[|s| - |s| % STRIPE_32..])
  }

  /** The loop over whole stripes. */
  method Feed32(l0: Lanes<bv32>, input: seq<byte>, p0: nat) returns (l: Lanes<bv32>, p: nat)
    requires p0 <= |input|
    ensures p0 <= p <= |input| < p + STRIPE_32 && Whole(STRIPE_32, p - p0)
    ensures l == Absorb(Stripe32, STRIPE_32, l0, input[p0..])
  {
    hide Stripe32;
    l, p := l0, p0;
    while p + STRIPE_32 <= |input|
      invariant p0 <= p <= |input| && Whole(STRIPE_32, p - p0)
      invariant Absorb(Stripe32, STRIPE_32, l, input[p..]) == Absorb(Stripe32, STRIPE_32, l0, input[p0..])
    {
      assert input[p..][..STRIPE_32] == input[p..p + STRIPE_32] && input[p..][STRIPE_32..] == input[p + STRIPE_32..];
      l := Stripe32(l, input[p..p + STRIPE_32]);
      p := p + STRIPE_32;
    }
  }

  lemma Finalize32Four(h: bv32, data: seq<byte>, p: nat)
    requires p + 4 <= |data|
    ensures Finalize32(h, data[p..]) == Finalize32(Four32(h, Read32(data, p)), data[p + 4..])
  {
    ReadBehind32(data, p);
    hide Four32, One32, Avalanche32, Read32;
    assert data[p..][4..] == data[p + 4..];
  }

  lemma ReadBehind32(data: seq<byte>, p: nat)
    requires p + 4 <= |data|
    ensures Read32(data[p..], 0) == Read32(data, p)
  {
    hide Byte32;
  }

  lemma Finalize32One(h: bv32, data: seq<byte>, p: nat)
    requires p < |data| < p + 4
    ensures Finalize32(h, data[p..]) == Finalize32(One32(h, data[p]), data[p + 1..])
  {
    hide Four32, One32, Avalanche32, Read32;
    assert data[p..][1..] == data[p + 1..];
  }

  lemma Finalize32Nothing(h: bv32, data: seq<byte>, p: nat)
    requires p == |data|
    ensures Finalize32(h, data[p..]) == Avalanche32(h)
  {
    hide Four32, One32, Avalanche32, Read32;
  }

  /** XXH32_finalize: each case of its switch goes on with the ones below it. */
  method XXH32Finalize(h0: bv32, data: seq<byte>, p0: nat) returns (h: bv32)
    requires p0 <= |data| < p0 + STRIPE_32
    ensures h == Finalize32(h0, data[p0..])
  {
    hide Finalize32, Four32, One32, Avalanche32, Read32;
    var n, p := |data| - p0, p0;
    h := h0;
    if n >= 12 {
      Finalize32Four(h, data, p);
      h, p := Four32(h, Read32(data, p)), p + 4;
    }
    if n >= 8 {
      Finalize32Four(h, data, p);
      h, p := Four32(h, Read32(data, p)), p + 4;
    }
    if n >= 4 {
      Finalize32Four(h, data, p);
      h, p := Four32(h, Read32(data, p)), p + 4;
    }
    if n % 4 == 3 {
      Finalize32One(h, data, p);
      h, p := One32(h, data[p]), p + 1;
    }
    if n % 4 >= 2 {
      Finalize32One(h, data, p);
      h, p := One32(h, data[p]), p + 1;
    }
    if n % 4 >= 1 {
      Finalize32One(h, data, p);
      h, p := One32(h, data[p]), p + 1;
    }
    Finalize32Nothing(h, data, p);
    h := Avalanche32(h);
  }

  /** The hash, put together from the lanes behind the whole stripes and the bytes behind them. */
  lemma HashAtOnce32(seed: bv32, s: seq<byte>, p: nat)
    requires p <= |s| < p + STRIPE_32 && Whole(STRIPE_32, p)
    ensures Hash32(seed, s) ==
      Finalize32(WithLength32(if |s| >= STRIPE_32 then Merge32(Absorb(Stripe32, STRIPE_32, Init32(seed), s)) else Short32(seed), |s| % U32_SIZE), s[p..])
  {
    hide Absorb, Stripe32, Merge32, Finalize32, Init32, Short32, WithLength32;
    assert p == |s| - |s| % STRIPE_32;
  }

  lemma StripeWidths()
    ensures 0 < STRIPE_32 && 0 < STRIPE_64 && 0 < U32_SIZE && Whole(STRIPE_32, 0) && Whole(STRIPE_64, 0)
  {
  }

  /** XXH32. */
  method XXH32(input: seq<byte>, seed: bv32) returns (h: bv32)
    ensures h == Hash32(seed, input)
  {
    hide *;
    StripeWidths();
    var p := 0;
    if |input| >= STRIPE_32 {
      var l;
      assert input[0..] == input;
      l, p := Feed32(Init32(seed), input, 0);
      h := Merge32(l);
    } else {
      h := Short32(seed);
    }
    h := WithLength32(h, |input| % U32_SIZE);
    HashAtOnce32(seed, input, p);
    h := XXH32Finalize(h, input, p);
  }

  /** The hash, put together from the lanes behind `n` bytes and the bytes that are left. */
  lemma HashOfParts32(seed: bv32, s: seq<byte>, n: nat)
    requires n <= |s| < n + STRIPE_32 && Whole(STRIPE_32, n)
    ensures var l := Absorb(Stripe32, STRIPE_32, Init32(seed), s[..n]);
            Hash32(seed, s) ==
            Finalize32(WithLength32(if |s| >= STRIPE_32 then Merge32(l) else Short32(l.v3), |s| % U32_SIZE), s[n..])
  {
    hide Stripe32, Merge32, Finalize32, Short32, WithLength32;
    assert s == s[..n] + s[n..];
    AbsorbConcat(Stripe32, STRIPE_32, Init32(seed), s[..n], s[n..]);
    assert |s| % STRIPE_32 == |s| - n;
    if n == 0 { SeedInLanes32(seed); }
  }

  lemma SeedInLanes32(seed: bv32)
    ensures Init32(seed).v3 == seed
  {
  }

  lemma WrapAdd(a: nat, b: nat)
    ensures (a % U32_SIZE + b % U32_SIZE) % U32_SIZE == (a + b) % U32_SIZE
  {
    assert a + b == U32_SIZE * (a / U32_SIZE + b / U32_SIZE) + (a % U32_SIZE + b % U32_SIZE);
  }

  /** XXH32_state_t, and the input it has been fed. */
  class State32 {
    var totalLen32: nat
    var largeLen: bool
    var lanes: Lanes<bv32>
    const mem32: array<byte>
    var memsize: nat
    ghost const seed: bv32
    ghost var fed: seq<byte>

    ghost predicate Valid()
      reads this, mem32
    {
      && mem32.Length == STRIPE_32 && memsize < STRIPE_32 && Counted(|fed|)
      && Holds(Stripe32, STRIPE_32, Init32(seed), fed, lanes, mem32[..memsize])
    }

    /** The length wraps at 32 bits, but it is remembered whether there was ever a whole stripe. */
    ghost predicate Counted(n: nat)
      reads this`totalLen32, this`largeLen
    {
      totalLen32 == n % U32_SIZE && (largeLen <==> n >= STRIPE_32)
    }

    method Count(len: nat, ghost n: nat)
      requires Counted(n)
      modifies this`totalLen32, this`largeLen
      ensures Counted(n + len)
    {
      WrapAdd(n, len);
      totalLen32 := (totalLen32 + len % U32_SIZE) % U32_SIZE;
      largeLen := largeLen || len >= STRIPE_32 || totalLen32 >= STRIPE_32;
    }

    /** XXH32_reset. */
    constructor (seed: bv32)
      ensures Valid() && fresh(mem32) && fed == [] && this.seed == seed
    {
      this.seed, fed := seed, [];
      totalLen32, largeLen, memsize := 0, false, 0;
      lanes := Init32(seed);
      mem32 := new byte[STRIPE_32];
    }

    /** More bytes in the buffer. */
    method Buffer(input: seq<byte>)
      requires mem32.Length == STRIPE_32 && memsize + |input| <= STRIPE_32
      modifies this`memsize, mem32
      ensures memsize == old(memsize) + |input| && mem32[..memsize] == old(mem32[..memsize]) + input
    {
      forall i | 0 <= i < |input| { mem32[memsize + i] := input[i]; }
      memsize := memsize + |input|;
    }

    /** The buffer is filled up to a stripe, which goes into the lanes. */
    method FillUp(input: seq<byte>) returns (p: nat)
      requires mem32.Length == STRIPE_32 && 0 < memsize <= STRIPE_32 <= memsize + |input|
      modifies this`memsize, this`lanes, mem32
      ensures memsize == 0 && p == STRIPE_32 - old(memsize) && lanes == Stripe32(old(lanes), old(mem32[..memsize]) + input[..p])
    {
      hide Stripe32;
      p := STRIPE_32 - memsize;
      Buffer(input[..p]);
      assert mem32[..STRIPE_32] == mem32[..];
      lanes := Stripe32(lanes, mem32[..]);
      memsize := 0;
    }

    /** Buffer and input make at least one stripe; what is left of the input goes into the buffer. */
    method Flush(input: seq<byte>)
      requires mem32.Length == STRIPE_32 && memsize < STRIPE_32 <= memsize + |input|
      modifies this`memsize, this`lanes, mem32
      ensures lanes == Absorb(Stripe32, STRIPE_32, old(lanes), old(mem32[..memsize]) + input)
      ensures memsize < STRIPE_32 && memsize <= |input| && mem32[..memsize] == input[|input| - memsize..]
      ensures Whole(STRIPE_32, old(memsize) + |input| - memsize)
    {
      hide *;
      Stripes();
      ghost var l, b := lanes, mem32[..memsize];
      var p := 0;
      if memsize > 0 {
        AbsorbFirst(Stripe32, STRIPE_32, l, b, input);
        p := FillUp(input);
      } else {
        assert b + input == input[0..];
      }
      ghost var p0 := p;
      lanes, p := Feed32(lanes, input, p);
      if |b| > 0 { OneMoreStripe(STRIPE_32, p - p0); }
      Buffer(input[p..]);
    }

    /** XXH32_update. */
    method Update(input: seq<byte>)
      requires Valid()
      modifies this, mem32
      ensures Valid() && fed == old(fed) + input
    {
      hide Stripe32, Absorb, Init32, Counted, Holds, Whole;
      Count(|input|, |fed|);
      if memsize + |input| < STRIPE_32 {
        HoldsMore(Stripe32, STRIPE_32, Init32(seed), fed, lanes, mem32[..memsize], input);
        Buffer(input);
        assert Holds(Stripe32, STRIPE_32, Init32(seed), fed + input, lanes, mem32[..memsize]);
      } else {
        ghost var l, buffer := lanes, mem32[..memsize];
        Flush(input);
        HoldsFlushed(Stripe32, STRIPE_32, Init32(seed), fed, l, buffer, input, memsize);
        assert Holds(Stripe32, STRIPE_32, Init32(seed), fed + input, lanes, mem32[..memsize]);
      }
      fed := fed + input;
    }

    /** XXH32_digest. */
    method Digest() returns (h: bv32)
      requires Valid()
      ensures h == Hash32(seed, fed)
    {
      hide Stripe32, Absorb, Init32, Merge32, Finalize32, Short32, WithLength32, Hash32;
      HashOfParts32(seed, fed, |fed| - memsize);
      h := if largeLen then Merge32(lanes) else Short32(lanes.v3);
      h := WithLength32(h, totalLen32);
      assert mem32[..memsize][0..] == mem32[..memsize];
      h := XXH32Finalize(h, mem32[..memsize], 0);
    }
  }

  /** Hashing an input in parts, however it is cut, gives the hash of the whole. */
  method HashInParts32(parts: seq<seq<byte>>, seed: bv32) returns (h: bv32)
    ensures h == Hash32(seed, Flatten(parts))
  {
    hide Hash32;
    var state := new State32(seed);
    for k := 0 to |parts|
      invariant state.Valid() && state.fed == Flatten(parts[..k]) && fresh(state) && fresh(state.mem32) && state.seed == seed
    {
      state.Update(parts[k]);
      assert parts[..k + 1][..k] == parts[..k];
    }
    assert parts[..|parts|] == parts;
    h := state.Digest();
  }

  function Flatten(parts: seq<seq<byte>>): (s: seq<byte>) {
    if parts == [] then [] else Flatten(parts[..|parts| - 1]) + parts[|parts| - 1]
  }

  // ----- 64 bits -----

  const PRIME64_1: bv64 := 11400714785074694791
  const PRIME64_2: bv64 := 14029467366897019727
  const PRIME64_3: bv64 := 1609587929392839161
  const PRIME64_4: bv64 := 9650029242287828579
  const PRIME64_5: bv64 := 2870177450012600261

  function Rotl64(x: bv64, r: bv64): bv64
    requires r <= 64
  {
    (x << r) | (x >> (64 - r))
  }

  function Byte64(b: byte): bv64 { (b as bv8) as bv64 }

  /** Four bytes, as a word of eight. */
  function Half64(s: seq<byte>, i: nat): bv64
    requires i + 4 <= |s|
  {
    Byte64(s[i]) | (Byte64(s[i + 1]) << 8) | (Byte64(s[i + 2]) << 16) | (Byte64(s[i + 3]) << 24)
  }

  /** XXH_readLE64. */
  function Read64(s: seq<byte>, i: nat): bv64
    requires i + 8 <= |s|
  {
    Half64(s, i) | (Half64(s, i + 4) << 32)
  }

  function Init64(seed: bv64): Lanes<bv64> {
    Lanes(seed + PRIME64_1 + PRIME64_2, seed + PRIME64_2, seed + 0, seed - PRIME64_1)
  }

  function Round64(acc: bv64, input: bv64): bv64 {
    Rotl64(acc + input * PRIME64_2, 31) * PRIME64_1
  }

  function MergeRound64(acc: bv64, val: bv64): bv64 {
    (acc ^ Round64(0, val)) * PRIME64_1 + PRIME64_4
  }

  /** One stripe of 32 bytes; a shorter one is never fed. */
  function Stripe64(l: Lanes<bv64>, s: seq<byte>): Lanes<bv64> {
    if |s| < STRIPE_64 then l
    else Lanes(Round64(l.v1, Read64(s, 0)), Round64(l.v2, Read64(s, 8)), Round64(l.v3, Read64(s, 16)), Round64(l.v4, Read64(s, 24)))
  }

  function Avalanche64(h: bv64): bv64 {
    var a := (h ^ (h >> 33)) * PRIME64_2;
    var b := (a ^ (a >> 29)) * PRIME64_3;
    b ^ (b >> 32)
  }

  /** PROCESS8_64. */
  function Eight64(h: bv64, w: bv64): bv64 { Rotl64(h ^ Round64(0, w), 27) * PRIME64_1 + PRIME64_4 }

  /** PROCESS4_64. */
  function Four64(h: bv64, w: bv64): bv64 { Rotl64(h ^ (w * PRIME64_1), 23) * PRIME64_2 + PRIME64_3 }

  /** PROCESS1_64. */
  function One64(h: bv64, b: byte): bv64 { Rotl64(h ^ (Byte64(b) * PRIME64_5), 11) * PRIME64_1 }

  /** What the last bytes do: eight at a time, then four, then single ones. */
  function Finalize64(h: bv64, s: seq<byte>): bv64
    decreases |s|
  {
    if |s| >= 8 then Finalize64(Eight64(h, Read64(s, 0)), s[8..])
    else if |s| >= 4 then Finalize64(Four64(h, Half64(s, 0)), s[4..])
    else if |s| >= 1 then Finalize64(One64(h, s[0]), s[1..])
    else Avalanche64(h)
  }

  function Mingled64(v1: bv64, v2: bv64, v3: bv64, v4: bv64): bv64 { Rotl64(v1, 1) + Rotl64(v2, 7) + Rotl64(v3, 12) + Rotl64(v4, 18) }

  function Merge64(l: Lanes<bv64>): bv64 {
    var h := Mingled64(l.v1, l.v2, l.v3, l.v4);
    MergeRound64(MergeRound64(MergeRound64(MergeRound64(h, l.v1), l.v2), l.v3), l.v4)
  }

  function Short64(seed: bv64): bv64 { seed + PRIME64_5 }

  function WithLength64(h: bv64, n: nat): bv64
    requires n < U64_SIZE
  {
    h + (n as bv64)
  }

  /** The hash of `s`, whose length a size_t has to hold. */
  function Hash64(seed: bv64, s: seq<byte>): bv64
    requires |s| < U64_SIZE
  {
    var h := if |s| >= STRIPE_64 then Merge64(Absorb(Stripe64, STRIPE_64, Init64(seed), s)) else Short64(seed);
    Finalize64(WithLength64(h, |s|), s[|s| - |s| % STRIPE_64..])
  }

  /** The loop over whole stripes. */
  method Feed64(l0: Lanes<bv64>, input: seq<byte>, p0: nat) returns (l: Lanes<bv64>, p: nat)
    requires p0 <= |input|
    ensures p0 <= p <= |input| < p + STRIPE_64 && Whole(STRIPE_64, p - p0)
    ensures l == Absorb(Stripe64, STRIPE_64, l0, input[p0..])
  {
    hide Stripe64;
    l, p := l0, p0;
    while p + STRIPE_64 <= |input|
      invariant p0 <= p <= |input| && Whole(STRIPE_64, p - p0)
      invariant Absorb(Stripe64, STRIPE_64, l, input[p..]) == Absorb(Stripe64, STRIPE_64, l0, input[p0..])
    {
      assert input[p..][..STRIPE_64] == input[p..p + STRIPE_64] && input[p..][STRIPE_64..] == input[p + STRIPE_64..];
      l := Stripe64(l, input[p..p + STRIPE_64]);
      p := p + STRIPE_64;
    }
  }

  lemma Finalize64Eight(h: bv64, data: seq<byte>, p: nat)
    requires p + 8 <= |data|
    ensures Finalize64(h, data[p..]) == Finalize64(Eight64(h, Read64(data, p)), data[p + 8..])
  {
    ReadBehind64(data, p);
    hide Eight64, Four64, One64, Avalanche64, Read64, Half64;
    assert data[p..][8..] == data[p + 8..];
  }

  lemma ReadBehind64(data: seq<byte>, p: nat)
    requires p + 4 <= |data|
    ensures Half64(data[p..], 0) == Half64(data, p) && (p + 8 <= |data| ==> Read64(data[p..], 0) == Read64(data, p))
  {
    hide Byte64;
  }

  lemma Finalize64Four(h: bv64, data: seq<byte>, p: nat)
    requires p + 4 <= |data| < p + 8
    ensures Finalize64(h, data[p..]) == Finalize64(Four64(h, Half64(data, p)), data[p + 4..])
  {
    ReadBehind64(data, p);
    hide Eight64, Four64, One64, Avalanche64, Read64, Half64;
    assert data[p..][4..] == data[p + 4..];
  }

  lemma Finalize64One(h: bv64, data: seq<byte>, p: nat)
    requires p < |data| < p + 4
    ensures Finalize64(h, data[p..]) == Finalize64(One64(h, data[p]), data[p + 1..])
  {
    hide Eight64, Four64, One64, Avalanche64, Read64, Half64;
    assert data[p..][1..] == data[p + 1..];
  }

  lemma Finalize64Nothing(h: bv64, data: seq<byte>, p: nat)
    requires p == |data|
    ensures Finalize64(h, data[p..]) == Avalanche64(h)
  {
    hide Eight64, Four64, One64, Avalanche64, Read64, Half64;
  }

  /** XXH64_finalize: each case of its switch goes on with the ones below it. */
  method XXH64Finalize(h0: bv64, data: seq<byte>, p0: nat) returns (h: bv64)
    requires p0 <= |data| < p0 + STRIPE_64
    ensures h == Finalize64(h0, data[p0..])
  {
    hide *;
    var n, p := |data| - p0, p0;
    Remainders(n);
    h := h0;
    if n >= 24 {
      Finalize64Eight(h, data, p);
      h, p := Eight64(h, Read64(data, p)), p + 8;
    }
    if n >= 16 {
      Finalize64Eight(h, data, p);
      h, p := Eight64(h, Read64(data, p)), p + 8;
    }
    if n >= 8 {
      Finalize64Eight(h, data, p);
      h, p := Eight64(h, Read64(data, p)), p + 8;
    }
    h := XXH64FinalizeRest(h, data, p);
  }

  lemma Remainders(n: nat)
    requires n < STRIPE_64
    ensures STRIPE_64 == 32
  {
  }

  /** Its cases below 8. */
  method XXH64FinalizeRest(h0: bv64, data: seq<byte>, p0: nat) returns (h: bv64)
    requires p0 <= |data| < p0 + 8
    ensures h == Finalize64(h0, data[p0..])
  {
    hide *;
    var n, p := |data| - p0, p0;
    h := h0;
    if n >= 4 {
      Finalize64Four(h, data, p);
      h, p := Four64(h, Half64(data, p)), p + 4;
    }
    if n % 4 == 3 {
      Finalize64One(h, data, p);
      h, p := One64(h, data[p]), p + 1;
    }
    if n % 4 >= 2 {
      Finalize64One(h, data, p);
      h, p := One64(h, data[p]), p + 1;
    }
    if n % 4 >= 1 {
      Finalize64One(h, data, p);
      h, p := One64(h, data[p]), p + 1;
    }
    Finalize64Nothing(h, data, p);
    h := Avalanche64(h);
  }

  lemma HashAtOnce64(seed: bv64, s: seq<byte>, p: nat)
    requires p <= |s| < p + STRIPE_64 && Whole(STRIPE_64, p) && |s| < U64_SIZE
    ensures Hash64(seed, s) ==
      Finalize64(WithLength64(if |s| >= STRIPE_64 then Merge64(Absorb(Stripe64, STRIPE_64, Init64(seed), s)) else Short64(seed), |s|), s[p..])
  {
    hide Absorb, Stripe64, Merge64, Finalize64, Init64, Short64, WithLength64;
    assert p == |s| - |s| % STRIPE_64;
  }

  /** XXH64. */
  method XXH64(input: seq<byte>, seed: bv64) returns (h: bv64)
    requires |input| < U64_SIZE
    ensures h == Hash64(seed, input)
  {
    hide *;
    StripeWidths();
    var p := 0;
    if |input| >= STRIPE_64 {
      var l;
      assert input[0..] == input;
      l, p := Feed64(Init64(seed), input, 0);
      h := Merge64(l);
    } else {
      h := Short64(seed);
    }
    h := WithLength64(h, |input|);
    HashAtOnce64(seed, input, p);
    h := XXH64Finalize(h, input, p);
  }

  lemma HashOfParts64(seed: bv64, s: seq<byte>, n: nat)
    requires n <= |s| < n + STRIPE_64 && Whole(STRIPE_64, n) && |s| < U64_SIZE
    ensures var l := Absorb(Stripe64, STRIPE_64, Init64(seed), s[..n]);
            Hash64(seed, s) == Finalize64(WithLength64(if |s| >= STRIPE_64 then Merge64(l) else Short64(l.v3), |s|), s[n..])
  {
    hide Stripe64, Merge64, Finalize64, Short64, WithLength64;
    assert s == s[..n] + s[n..];
    AbsorbConcat(Stripe64, STRIPE_64, Init64(seed), s[..n], s[n..]);
    assert |s| % STRIPE_64 == |s| - n;
    if n == 0 { SeedInLanes64(seed); }
  }

  lemma SeedInLanes64(seed: bv64)
    ensures Init64(seed).v3 == seed
  {
  }

  /** XXH64_state_t, and the input it has been fed. */
  class State64 {
    var totalLen: nat
    var lanes: Lanes<bv64>
    const mem64: array<byte>
    var memsize: nat
    ghost const seed: bv64
    ghost var fed: seq<byte>

    ghost predicate Valid()
      reads this, mem64
    {
      && mem64.Length == STRIPE_64 && memsize < STRIPE_64 && totalLen == |fed| % U64_SIZE
      && Holds(Stripe64, STRIPE_64, Init64(seed), fed, lanes, mem64[..memsize])
    }

    /** XXH64_reset. */
    constructor (seed: bv64)
      ensures Valid() && fresh(mem64) && fed == [] && this.seed == seed
    {
      this.seed, fed := seed, [];
      totalLen, memsize := 0, 0;
      lanes := Init64(seed);
      mem64 := new byte[STRIPE_64];
    }

    /** More bytes in the buffer. */
    method Buffer(input: seq<byte>)
      requires mem64.Length == STRIPE_64 && memsize + |input| <= STRIPE_64
      modifies this`memsize, mem64
      ensures memsize == old(memsize) + |input| && mem64[..memsize] == old(mem64[..memsize]) + input
    {
      forall i | 0 <= i < |input| { mem64[memsize + i] := input[i]; }
      memsize := memsize + |input|;
    }

    /** The buffer is filled up to a stripe, which goes into the lanes. */
    method FillUp(input: seq<byte>) returns (p: nat)
      requires mem64.Length == STRIPE_64 && 0 < memsize <= STRIPE_64 <= memsize + |input|
      modifies this`memsize, this`lanes, mem64
      ensures memsize == 0 && p == STRIPE_64 - old(memsize) && lanes == Stripe64(old(lanes), old(mem64[..memsize]) + input[..p])
    {
      hide Stripe64;
      p := STRIPE_64 - memsize;
      Buffer(input[..p]);
      assert mem64[..STRIPE_64] == mem64[..];
      lanes := Stripe64(lanes, mem64[..]);
      memsize := 0;
    }

    /** Buffer and input make at least one stripe; what is left of the input goes into the buffer. */
    method Flush(input: seq<byte>)
      requires mem64.Length == STRIPE_64 && memsize < STRIPE_64 <= memsize + |input|
      modifies this`memsize, this`lanes, mem64
      ensures lanes == Absorb(Stripe64, STRIPE_64, old(lanes), old(mem64[..memsize]) + input)
      ensures memsize < STRIPE_64 && memsize <= |input| && mem64[..memsize] == input[|input| - memsize..]
      ensures Whole(STRIPE_64, old(memsize) + |input| - memsize)
    {
      hide *;
      Stripes();
      ghost var l, b := lanes, mem64[..memsize];
      var p := 0;
      if memsize > 0 {
        AbsorbFirst(Stripe64, STRIPE_64, l, b, input);
        p := FillUp(input);
      } else {
        assert b + input == input[0..];
      }
      ghost var p0 := p;
      lanes, p := Feed64(lanes, input, p);
      if |b| > 0 { OneMoreStripe(STRIPE_64, p - p0); }
      Buffer(input[p..]);
    }

    /** XXH64_update. */
    method Update(input: seq<byte>)
      requires Valid()
      modifies this, mem64
      ensures Valid() && fed == old(fed) + input
    {
      hide Stripe64, Absorb, Init64, Holds, Whole;
      Wrap64(|fed|, |input|);
      totalLen := (totalLen + |input|) % U64_SIZE;
      if memsize + |input| < STRIPE_64 {
        HoldsMore(Stripe64, STRIPE_64, Init64(seed), fed, lanes, mem64[..memsize], input);
        Buffer(input);
        assert Holds(Stripe64, STRIPE_64, Init64(seed), fed + input, lanes, mem64[..memsize]);
      } else {
        ghost var l, buffer := lanes, mem64[..memsize];
        Flush(input);
        HoldsFlushed(Stripe64, STRIPE_64, Init64(seed), fed, l, buffer, input, memsize);
        assert Holds(Stripe64, STRIPE_64, Init64(seed), fed + input, lanes, mem64[..memsize]);
      }
      fed := fed + input;
    }

    /** XXH64_digest. */
    method Digest() returns (h: bv64)
      requires Valid() && |fed| < U64_SIZE
      ensures h == Hash64(seed, fed)
    {
      hide Stripe64, Absorb, Init64, Merge64, Finalize64, Short64, WithLength64, Hash64;
      HashOfParts64(seed, fed, |fed| - memsize);
      h := if totalLen >= STRIPE_64 then Merge64(lanes) else Short64(lanes.v3);
      h := WithLength64(h, totalLen);
      assert mem64[..memsize][0..] == mem64[..memsize];
      h := XXH64Finalize(h, mem64[..memsize], 0);
    }
  }

  lemma Wrap64(a: nat, b: nat)
    ensures (a % U64_SIZE + b) % U64_SIZE == (a + b) % U64_SIZE
  {
    assert a + b == U64_SIZE * (a / U64_SIZE) + (a % U64_SIZE + b);
  }

  /** Hashing an input in parts, however it is cut, gives the hash of the whole. */
  method HashInParts64(parts: seq<seq<byte>>, seed: bv64) returns (h: bv64)
    requires |Flatten(parts)| < U64_SIZE
    ensures h == Hash64(seed, Flatten(parts))
  {
    hide Hash64;
    var state := new State64(seed);
    for k := 0 to |parts|
      invariant state.Valid() && state.fed == Flatten(parts[..k]) && fresh(state) && fresh(state.mem64) && state.seed == seed
    {
      state.Update(parts[k]);
      assert parts[..k + 1][..k] == parts[..k];
    }
    assert parts[..|parts|] == parts;
    h := state.Digest();
  }
}
