/**
 Headers as bytes: the magic number, where every flag and every field stands, and the checksum byte.
 */
module FrameValues {
  import opened Bytes
  import opened XxHash
  import opened FrameFormat
  import opened FrameEncoding

  /** Independent blocks of 64 KB and a content checksum. */
  const SHORT := Info(false, false, true, 0, 4, 0)

  /** Linked blocks of 4 MB with checksums, a content size and a dictionary ID. */
  const LONG := Info(true, true, false, 0x0123_4567_89AB_CDEF, 7, 0x1234_5678)

  /** The descriptor of `LONG`: two bytes of flags, eight of the content size, four of the dictionary ID. */
  const LONG_FIELDS: seq<byte> := [0x59, 0x70, 0xEF, 0xCD, 0xAB, 0x89, 0x67, 0x45, 0x23, 0x01, 0x78, 0x56, 0x34, 0x12]

  lemma Mixed32()
    ensures WithLength32(Short32(0), 2) == 0x165667B3
    ensures One32(0x165667B3, 0x64) == 0x15743680 && One32(0x15743680, 0x40) == 0xEA849D8 && Avalanche32(0xEA849D8) == 0x95C0A77C
  {
  }

  lemma MixedLong32_1()
    ensures WithLength32(Short32(0), 14) == 0x165667BF
    ensures Four32(0x165667BF, 0xCDEF7059) == 0x97B5E6AB && Four32(0x97B5E6AB, 0x456789AB) == 0x2A0DA2DD
  {
  }

  lemma MixedLong32_2()
    ensures Four32(0x2A0DA2DD, 0x56780123) == 0x95221E0D
    ensures One32(0x95221E0D, 0x34) == 0xD54FE65 && One32(0xD54FE65, 0x12) == 0xC6284C8B && Avalanche32(0xC6284C8B) == 0x8DD2C814
  {
  }

  lemma Sizes()
    ensures STRIPE_32 == 16 && Whole(16, 0) && 2 % U32_SIZE == 2 && 14 % U32_SIZE == 14
  {
  }

  lemma ShortHash(s: seq<byte>)
    requires s == [0x64, 0x40]
    ensures Hash32(0, s) == 0x95C0A77C
  {
    hide *;
    Sizes();
    Mixed32();
    HashAtOnce32(0, s, 0);
    Finalize32One(0x165667B3, s, 0);
    Finalize32One(0x15743680, s, 1);
    Finalize32Nothing(0xEA849D8, s, 2);
  }

  lemma LongWords(s: seq<byte>)
    requires s == LONG_FIELDS
    ensures |s| == 14 && Read32(s, 0) == 0xCDEF7059 && Read32(s, 4) == 0x456789AB && Read32(s, 8) == 0x56780123 && s[12] == 0x34 && s[13] == 0x12
  {
  }

  lemma LongHash(s: seq<byte>)
    requires s == LONG_FIELDS
    ensures Hash32(0, s) == 0x8DD2C814
  {
    hide *;
    LongWords(s);
    Sizes();
    MixedLong32_1();
    MixedLong32_2();
    HashAtOnce32(0, s, 0);
    Finalize32Four(0x165667BF, s, 0);
    Finalize32Four(0x97B5E6AB, s, 4);
    Finalize32Four(0x2A0DA2DD, s, 8);
    Finalize32One(0x95221E0D, s, 12);
    Finalize32One(0xD54FE65, s, 13);
    Finalize32Nothing(0xC6284C8B, s, 14);
  }

  lemma ChecksumBytes()
    ensures (0x95C0A77C as bv32 >> 8) & 0xFF == 0xA7
    ensures (0x8DD2C814 as bv32 >> 8) & 0xFF == 0xC8
    ensures (0xA7 as bv32) as nat == 0xA7 && (0xC8 as bv32) as nat == 0xC8
  {
  }

  /** The low byte of a value, as a number. */
  lemma LowByteIs(x: bv32, y: bv32, b: byte)
    requires x & 0xFF == y && y as nat == b
    ensures LowByte(x) == b
  {
  }

  lemma LongFields()
    ensures LONG.Valid() && Descriptor(LONG) == LONG_FIELDS
  {
  }

  lemma ShortFields()
    ensures SHORT.Valid() && Descriptor(SHORT) == [0x64, 0x40]
  {
  }

  lemma Magic()
    ensures Bytes32(MAGIC) == [0x04, 0x22, 0x4D, 0x18]
  {
  }

  /** A header without optional fields. */
  lemma ShortHeader()
    ensures SHORT.Valid() && HeaderBytes(SHORT) == [0x04, 0x22, 0x4D, 0x18, 0x64, 0x40, 0xA7]
  {
    hide Hash32, LowByte, Descriptor, Bytes32;
    Magic();
    ShortFields();
    ShortHash(Descriptor(SHORT));
    ChecksumBytes();
    LowByteIs(0x95C0A77C >> 8, 0xA7, 0xA7);
  }

  /** A header with all of them, in little-endian order. */
  lemma LongHeader()
    ensures LONG.Valid() && HeaderBytes(LONG) == [0x04, 0x22, 0x4D, 0x18] + [0x59, 0x70, 0xEF, 0xCD, 0xAB, 0x89, 0x67, 0x45, 0x23, 0x01, 0x78, 0x56, 0x34, 0x12] + [0xC8]
  {
    hide Hash32, LowByte, Descriptor, Bytes32;
    Magic();
    LongFields();
    LongHash(Descriptor(LONG));
    ChecksumBytes();
    LowByteIs(0x8DD2C814 >> 8, 0xC8, 0xC8);
  }
}
