/**
 Values of the two hash functions as numbers, worked through from the first byte to the last. They fix
 what the specification computes: every prime, rotation, shift and lane has a part in them.
 */
module XxHashValues {
  import opened Bytes
  import opened XxHash

  /** The bytes 1, 2, 3 and so on. */
  function Counting(n: nat): (s: seq<byte>)
    requires n < 256
    ensures |s| == n && forall i :: 0 <= i < n ==> s[i] == i + 1
  {
    seq(n, i requires 0 <= i < n => i + 1)
  }

  function Zeros(n: nat): (s: seq<byte>)
    ensures |s| == n && forall i :: 0 <= i < n ==> s[i] == 0
  {
    seq(n, _ => 0)
  }

  lemma AbsorbNothing<L>(step: (L, seq<byte>) -> L, width: nat, lanes: L, s: seq<byte>)
    requires StripeSize(width) && |s| < width
    ensures Absorb(step, width, lanes, s) == lanes
  {
  }

  // ----- 32 bits -----

  /** The hash of nothing. */
  lemma Nothing32()
    ensures Hash32(0, []) == 0x2CC5D05
  {
    hide Rotl32;
  }

  /** A stripe, by its words. */
  lemma StripeOf32(l: Lanes<bv32>, s: seq<byte>, w1: bv32, w2: bv32, w3: bv32, w4: bv32, r: Lanes<bv32>)
    requires |s| == STRIPE_32 && Read32(s, 0) == w1 && Read32(s, 4) == w2 && Read32(s, 8) == w3 && Read32(s, 12) == w4
    requires r == Lanes(Round32(l.v1, w1), Round32(l.v2, w2), Round32(l.v3, w3), Round32(l.v4, w4))
    ensures Stripe32(l, s) == r
  {
    hide Read32, Round32;
  }

  lemma ZeroRounds32_1()
    ensures Init32(0x0) == Lanes(0x24234428, 0x85EBCA77, 0x0, 0x61C8864F)
    ensures Round32(0x24234428, 0x0) == 0x93768344
    ensures Round32(0x85EBCA77, 0x0) == 0x8DF8C7AD
    ensures Round32(0x0, 0x0) == 0x0
  {
  }

  lemma ZeroRounds32_2()
    ensures Round32(0x61C8864F, 0x0) == 0xFA824469
  {
  }

  lemma ZeroFacts32()
    ensures Merge32(Lanes(0x93768344, 0x8DF8C7AD, 0x0, 0xFA824469)) == 0x34F8C758
    ensures WithLength32(0x34F8C758, 16) == 0x34F8C768
    ensures Avalanche32(0x34F8C768) == 0x8E022B3A
  {
  }

  lemma ZeroWords32(s: seq<byte>, i: nat)
    requires s == Zeros(16) && i + 4 <= 16
    ensures Read32(s, i) == 0
  {
  }

  /** One stripe of zeros. */
  lemma ZeroStripe32()
    ensures Hash32(0, Zeros(16)) == 0x8E022B3A
  {
    hide *;
    var s := Zeros(16);
    assert s[..16] == s && s[16..] == [];
    ZeroRounds32_1();
    ZeroRounds32_2();
    ZeroFacts32();
    ZeroWords32(s, 0);
    ZeroWords32(s, 4);
    ZeroWords32(s, 8);
    ZeroWords32(s, 12);
    Widths32();
    hide *;
    StripeOf32(Lanes(0x24234428, 0x85EBCA77, 0x0, 0x61C8864F), s, 0, 0, 0, 0, Lanes(0x93768344, 0x8DF8C7AD, 0x0, 0xFA824469));
    AbsorbOne(Stripe32, 16, Lanes(0x24234428, 0x85EBCA77, 0x0, 0x61C8864F), s);
    AbsorbNothing(Stripe32, 16, Lanes(0x93768344, 0x8DF8C7AD, 0x0, 0xFA824469), []);
    HashAtOnce32(0, s, 16);
    Finalize32Nothing(0x34F8C768, s, 16);
  }

  lemma Widths32()
    ensures STRIPE_32 == 16 && StripeSize(16) && Whole(16, 16) && Whole(16, 32) && 39 < U32_SIZE && 39 % U32_SIZE == 39 && 16 % U32_SIZE == 16 && 33 < 256 && 39 < 256
  {
  }

  lemma CountRounds32_1()
    ensures Init32(0x12345678) == Lanes(0x36579AA0, 0x982020EF, 0x12345678, 0x73FCDCC7)
    ensures Round32(0x36579AA0, 0x4030201) == 0xD92DF7B7
    ensures Round32(0x982020EF, 0x8070605) == 0xE338AC87
    ensures Round32(0x12345678, 0xC0B0A09) == 0xC690DB90
  {
  }

  lemma CountRounds32_2()
    ensures Round32(0x73FCDCC7, 0x100F0E0D) == 0xD09B9060
    ensures Round32(0xD92DF7B7, 0x14131211) == 0x5597BBDC
    ensures Round32(0xE338AC87, 0x18171615) == 0x7329C334
    ensures Round32(0xC690DB90, 0x1C1B1A19) == 0x1EC26C96
  {
  }

  lemma CountRounds32_3()
    ensures Round32(0xD09B9060, 0x201F1E1D) == 0x3C5473EE
  {
  }

  lemma CountWords32_1(s: seq<byte>)
    requires s == Counting(39)
    ensures Read32(s, 0) == 0x4030201
    ensures Read32(s, 4) == 0x8070605
    ensures Read32(s, 8) == 0xC0B0A09
  {
  }

  lemma CountWords32_2(s: seq<byte>)
    requires s == Counting(39)
    ensures Read32(s, 12) == 0x100F0E0D
    ensures Read32(s, 16) == 0x14131211
    ensures Read32(s, 20) == 0x18171615
  {
  }

  lemma CountWords32_3(s: seq<byte>)
    requires s == Counting(39)
    ensures Read32(s, 24) == 0x1C1B1A19
    ensures Read32(s, 28) == 0x201F1E1D
    ensures Read32(s, 32) == 0x24232221
  {
  }

  lemma CountFacts32_1()
    ensures Merge32(Lanes(0x5597BBDC, 0x7329C334, 0x1EC26C96, 0x3C5473EE)) == 0x3693652E
    ensures WithLength32(0x3693652E, 39) == 0x36936555
    ensures Four32(0x36936555, 0x24232221) == 0xCC68D543
    ensures One32(0xCC68D543, 37) == 0xE75DE507
  {
  }

  lemma CountFacts32_2()
    ensures One32(0xE75DE507, 38) == 0x9FE65771
    ensures One32(0x9FE65771, 39) == 0x8139DEB8
    ensures Avalanche32(0x8139DEB8) == 0x59861251
  {
  }

  lemma CountStripes32()
    ensures Absorb(Stripe32, 16, Init32(0x12345678), Counting(39)) == Lanes(0x5597BBDC, 0x7329C334, 0x1EC26C96, 0x3C5473EE)
  {
    hide *;
    var s := Counting(39);
    var a, b := s[..16], s[16..];
    CountWords32_1(s);
    CountWords32_2(s);
    CountWords32_3(s);
    CountRounds32_1();
    CountRounds32_2();
    CountRounds32_3();
    Widths32();
    assert b[..16] == s[16..32] && b[16..] == s[32..];
    SameWord32(s, 0, 0);
    SameWord32(s, 16, 0);
    SameWord32(s, 0, 4);
    SameWord32(s, 16, 4);
    SameWord32(s, 0, 8);
    SameWord32(s, 16, 8);
    SameWord32(s, 0, 12);
    SameWord32(s, 16, 12);
    StripeOf32(Lanes(0x36579AA0, 0x982020EF, 0x12345678, 0x73FCDCC7), a, 0x4030201, 0x8070605, 0xC0B0A09, 0x100F0E0D, Lanes(0xD92DF7B7, 0xE338AC87, 0xC690DB90, 0xD09B9060));
    StripeOf32(Lanes(0xD92DF7B7, 0xE338AC87, 0xC690DB90, 0xD09B9060), b[..16], 0x14131211, 0x18171615, 0x1C1B1A19, 0x201F1E1D, Lanes(0x5597BBDC, 0x7329C334, 0x1EC26C96, 0x3C5473EE));
    AbsorbOne(Stripe32, 16, Lanes(0x36579AA0, 0x982020EF, 0x12345678, 0x73FCDCC7), s);
    AbsorbOne(Stripe32, 16, Lanes(0xD92DF7B7, 0xE338AC87, 0xC690DB90, 0xD09B9060), b);
    AbsorbNothing(Stripe32, 16, Lanes(0x5597BBDC, 0x7329C334, 0x1EC26C96, 0x3C5473EE), b[16..]);
  }

  lemma SameWord32(s: seq<byte>, p: nat, i: nat)
    requires p + 16 <= |s| && i + 4 <= 16
    ensures Read32(s[p..p + 16], i) == Read32(s, p + i)
  {
    hide Byte32;
  }

  /** Two stripes and every kind of tail, with a seed. */
  lemma CountUp32()
    ensures Hash32(0x12345678, Counting(39)) == 0x59861251
  {
    hide *;
    var s := Counting(39);
    CountStripes32();
    CountWords32_1(s);
    CountWords32_2(s);
    CountWords32_3(s);
    CountFacts32_1();
    CountFacts32_2();
    Widths32();
    HashAtOnce32(0x12345678, s, 32);
    Finalize32Four(0x36936555, s, 32);
    Finalize32One(0xCC68D543, s, 36);
    Finalize32One(0xE75DE507, s, 37);
    Finalize32One(0x9FE65771, s, 38);
    Finalize32Nothing(0x8139DEB8, s, 39);
  }

  // ----- 64 bits -----

  /** The hash of nothing. */
  lemma Nothing64()
    ensures Hash64(0, []) == 0xEF46DB3751D8E999
  {
    hide Rotl64;
  }

  /** A stripe, by its words. */
  lemma StripeOf64(l: Lanes<bv64>, s: seq<byte>, w1: bv64, w2: bv64, w3: bv64, w4: bv64, r: Lanes<bv64>)
    requires |s| == STRIPE_64 && Read64(s, 0) == w1 && Read64(s, 8) == w2 && Read64(s, 16) == w3 && Read64(s, 24) == w4
    requires r == Lanes(Round64(l.v1, w1), Round64(l.v2, w2), Round64(l.v3, w3), Round64(l.v4, w4))
    ensures Stripe64(l, s) == r
  {
    hide Read64, Round64;
  }

  lemma ZeroRounds64_1()
    ensures Init64(0x0) == Lanes(0x60EA27EEADC0B5D6, 0xC2B2AE3D27D4EB4F, 0x0, 0x61C8864E7A143579)
    ensures Round64(0x60EA27EEADC0B5D6, 0x0) == 0x119361E2963B6D41
    ensures Round64(0xC2B2AE3D27D4EB4F, 0x0) == 0x7F0E345BE3649CD2
    ensures Round64(0x0, 0x0) == 0x0
  {
  }

  lemma ZeroRounds64_2()
    ensures Round64(0x61C8864E7A143579, 0x0) == 0x6D7AD2794D292F91
  {
  }

  lemma ZeroMerging64_1()
    ensures Mingled64(0x119361E2963B6D41, 0x7F0E345BE3649CD2, 0x0, 0x6D7AD2794D292F91) == 0xF426265B9D0AF9AC
    ensures MergeRound64(0xF426265B9D0AF9AC, 0x119361E2963B6D41) == 0xB5B565EE46E817DD
    ensures MergeRound64(0xB5B565EE46E817DD, 0x7F0E345BE3649CD2) == 0x8E979DD727B1A3C2
    ensures MergeRound64(0x8E979DD727B1A3C2, 0x0) == 0x59737186F9AD1DB1
  {
  }

  lemma ZeroMerging64_2()
    ensures MergeRound64(0x59737186F9AD1DB1, 0x6D7AD2794D292F91) == 0xCBBFD1653BAACD51
  {
  }

  lemma ZeroMerge64()
    ensures Merge64(Lanes(0x119361E2963B6D41, 0x7F0E345BE3649CD2, 0x0, 0x6D7AD2794D292F91)) == 0xCBBFD1653BAACD51
  {
    ZeroMerging64_1();
    ZeroMerging64_2();
    hide MergeRound64, Mingled64;
  }

  lemma ZeroFacts64()
    ensures WithLength64(0xCBBFD1653BAACD51, 32) == 0xCBBFD1653BAACD71
    ensures Avalanche64(0xCBBFD1653BAACD71) == 0xF6E9BE5D70632CF5
  {
  }

  lemma ZeroWords64(s: seq<byte>, i: nat)
    requires s == Zeros(32) && i + 8 <= 32
    ensures Read64(s, i) == 0
  {
  }

  /** One stripe of zeros. */
  lemma ZeroStripe64()
    ensures Hash64(0, Zeros(32)) == 0xF6E9BE5D70632CF5
  {
    hide *;
    var s := Zeros(32);
    assert s[..32] == s && s[32..] == [];
    ZeroRounds64_1();
    ZeroRounds64_2();
    ZeroFacts64();
    ZeroWords64(s, 0);
    ZeroWords64(s, 8);
    ZeroWords64(s, 16);
    ZeroWords64(s, 24);
    ZeroMerge64();
    Widths64();
    hide *;
    StripeOf64(Lanes(0x60EA27EEADC0B5D6, 0xC2B2AE3D27D4EB4F, 0x0, 0x61C8864E7A143579), s, 0, 0, 0, 0, Lanes(0x119361E2963B6D41, 0x7F0E345BE3649CD2, 0x0, 0x6D7AD2794D292F91));
    AbsorbOne(Stripe64, 32, Lanes(0x60EA27EEADC0B5D6, 0xC2B2AE3D27D4EB4F, 0x0, 0x61C8864E7A143579), s);
    AbsorbNothing(Stripe64, 32, Lanes(0x119361E2963B6D41, 0x7F0E345BE3649CD2, 0x0, 0x6D7AD2794D292F91), []);
    HashAtOnce64(0, s, 32);
    Finalize64Nothing(0xCBBFD1653BAACD71, s, 32);
  }

  lemma Widths64()
    ensures STRIPE_64 == 32 && StripeSize(32) && Whole(32, 32) && Whole(32, 64) && 79 < U64_SIZE && 79 % U32_SIZE == 79 && 32 % U32_SIZE == 32 && 65 < 256 && 79 < 256
  {
  }

  lemma CountRounds64_1()
    ensures Init64(0x123456789ABCDEF0) == Lanes(0x731E7E67487D94C6, 0xD4E704B5C291CA3F, 0x123456789ABCDEF0, 0x73FCDCC714D11469)
    ensures Round64(0x731E7E67487D94C6, 0x807060504030201) == 0x801E314B20F1DCD3
    ensures Round64(0xD4E704B5C291CA3F, 0x100F0E0D0C0B0A09) == 0x4F3C41450049A39B
    ensures Round64(0x123456789ABCDEF0, 0x1817161514131211) == 0x568FB5FBA927D379
  {
  }

  lemma CountRounds64_2()
    ensures Round64(0x73FCDCC714D11469, 0x201F1E1D1C1B1A19) == 0xC3E53FA70E6B64C8
    ensures Round64(0x801E314B20F1DCD3, 0x2827262524232221) == 0x9407D59808660E46
    ensures Round64(0x4F3C41450049A39B, 0x302F2E2D2C2B2A29) == 0xF3BBB121D98E7DE8
    ensures Round64(0x568FB5FBA927D379, 0x3837363534333231) == 0x9F228D1B9FD3291C
  {
  }

  lemma CountRounds64_3()
    ensures Round64(0xC3E53FA70E6B64C8, 0x403F3E3D3C3B3A39) == 0x915B962C23D2692D
  {
  }

  lemma CountMerging64_1()
    ensures Mingled64(0x9407D59808660E46, 0xF3BBB121D98E7DE8, 0x9F228D1B9FD3291C, 0x915B962C23D2692D) == 0x876A8563AF532066
    ensures MergeRound64(0x876A8563AF532066, 0x9407D59808660E46) == 0x3177E141E662FA3C
    ensures MergeRound64(0x3177E141E662FA3C, 0xF3BBB121D98E7DE8) == 0x8327AA1879AA6F76
    ensures MergeRound64(0x8327AA1879AA6F76, 0x9F228D1B9FD3291C) == 0x615ACBCDC7ED2E36
  {
  }

  lemma CountMerging64_2()
    ensures MergeRound64(0x615ACBCDC7ED2E36, 0x915B962C23D2692D) == 0x3416AFE2453BE04C
  {
  }

  lemma CountMerge64()
    ensures Merge64(Lanes(0x9407D59808660E46, 0xF3BBB121D98E7DE8, 0x9F228D1B9FD3291C, 0x915B962C23D2692D)) == 0x3416AFE2453BE04C
  {
    CountMerging64_1();
    CountMerging64_2();
    hide MergeRound64, Mingled64;
  }

  lemma CountWords64_1(s: seq<byte>)
    requires s == Counting(79)
    ensures Read64(s, 0) == 0x807060504030201
    ensures Read64(s, 8) == 0x100F0E0D0C0B0A09
  {
  }

  lemma CountWords64_2(s: seq<byte>)
    requires s == Counting(79)
    ensures Read64(s, 16) == 0x1817161514131211
    ensures Read64(s, 24) == 0x201F1E1D1C1B1A19
  {
  }

  lemma CountWords64_3(s: seq<byte>)
    requires s == Counting(79)
    ensures Read64(s, 32) == 0x2827262524232221
    ensures Read64(s, 40) == 0x302F2E2D2C2B2A29
  {
  }

  lemma CountWords64_4(s: seq<byte>)
    requires s == Counting(79)
    ensures Read64(s, 48) == 0x3837363534333231
    ensures Read64(s, 56) == 0x403F3E3D3C3B3A39
  {
  }

  lemma CountWords64_5(s: seq<byte>)
    requires s == Counting(79)
    ensures Read64(s, 64) == 0x4847464544434241
    ensures Half64(s, 72) == 0x4C4B4A49
  {
  }

  lemma CountFacts64_1()
    ensures WithLength64(0x3416AFE2453BE04C, 79) == 0x3416AFE2453BE09B
    ensures Eight64(0x3416AFE2453BE09B, 0x4847464544434241) == 0xED43BF97FF3E03E7
    ensures Four64(0xED43BF97FF3E03E7, 0x4C4B4A49) == 0x535123A83255F62A
    ensures One64(0x535123A83255F62A, 77) == 0x8DD2D64A78F241CE
  {
  }

  lemma CountFacts64_2()
    ensures One64(0x8DD2D64A78F241CE, 78) == 0xC96A6DC8A80F5248
    ensures One64(0xC96A6DC8A80F5248, 79) == 0x34FF3195CEC7FD2
    ensures Avalanche64(0x34FF3195CEC7FD2) == 0xE10467A385C85ED
  {
  }

  lemma CountStripes64()
    ensures Absorb(Stripe64, 32, Init64(0x123456789ABCDEF0), Counting(79)) == Lanes(0x9407D59808660E46, 0xF3BBB121D98E7DE8, 0x9F228D1B9FD3291C, 0x915B962C23D2692D)
  {
    hide *;
    var s := Counting(79);
    var a, b := s[..32], s[32..];
    CountWords64_1(s);
    CountWords64_2(s);
    CountWords64_3(s);
    CountWords64_4(s);
    CountWords64_5(s);
    CountRounds64_1();
    CountRounds64_2();
    CountRounds64_3();
    Widths64();
    assert b[..32] == s[32..64] && b[32..] == s[64..];
    SameWord64(s, 0, 0);
    SameWord64(s, 32, 0);
    SameWord64(s, 0, 8);
    SameWord64(s, 32, 8);
    SameWord64(s, 0, 16);
    SameWord64(s, 32, 16);
    SameWord64(s, 0, 24);
    SameWord64(s, 32, 24);
    StripeOf64(Lanes(0x731E7E67487D94C6, 0xD4E704B5C291CA3F, 0x123456789ABCDEF0, 0x73FCDCC714D11469), a, 0x807060504030201, 0x100F0E0D0C0B0A09, 0x1817161514131211, 0x201F1E1D1C1B1A19, Lanes(0x801E314B20F1DCD3, 0x4F3C41450049A39B, 0x568FB5FBA927D379, 0xC3E53FA70E6B64C8));
    StripeOf64(Lanes(0x801E314B20F1DCD3, 0x4F3C41450049A39B, 0x568FB5FBA927D379, 0xC3E53FA70E6B64C8), b[..32], 0x2827262524232221, 0x302F2E2D2C2B2A29, 0x3837363534333231, 0x403F3E3D3C3B3A39, Lanes(0x9407D59808660E46, 0xF3BBB121D98E7DE8, 0x9F228D1B9FD3291C, 0x915B962C23D2692D));
    AbsorbOne(Stripe64, 32, Lanes(0x731E7E67487D94C6, 0xD4E704B5C291CA3F, 0x123456789ABCDEF0, 0x73FCDCC714D11469), s);
    AbsorbOne(Stripe64, 32, Lanes(0x801E314B20F1DCD3, 0x4F3C41450049A39B, 0x568FB5FBA927D379, 0xC3E53FA70E6B64C8), b);
    AbsorbNothing(Stripe64, 32, Lanes(0x9407D59808660E46, 0xF3BBB121D98E7DE8, 0x9F228D1B9FD3291C, 0x915B962C23D2692D), b[32..]);
  }

  lemma SameWord64(s: seq<byte>, p: nat, i: nat)
    requires p + 32 <= |s| && i + 8 <= 32
    ensures Read64(s[p..p + 32], i) == Read64(s, p + i)
  {
    hide Byte64;
  }

  /** Two stripes and every kind of tail, with a seed. */
  lemma CountUp64()
    ensures Hash64(0x123456789ABCDEF0, Counting(79)) == 0xE10467A385C85ED
  {
    hide *;
    var s := Counting(79);
    CountStripes64();
    CountWords64_1(s);
    CountWords64_2(s);
    CountWords64_3(s);
    CountWords64_4(s);
    CountWords64_5(s);
    CountMerge64();
    CountFacts64_1();
    CountFacts64_2();
    Widths64();
    HashAtOnce64(0x123456789ABCDEF0, s, 64);
    Finalize64Eight(0x3416AFE2453BE09B, s, 64);
    Finalize64Four(0xED43BF97FF3E03E7, s, 72);
    Finalize64One(0x535123A83255F62A, s, 76);
    Finalize64One(0x8DD2D64A78F241CE, s, 77);
    Finalize64One(0xC96A6DC8A80F5248, s, 78);
    Finalize64Nothing(0x34FF3195CEC7FD2, s, 79);
  }
}
