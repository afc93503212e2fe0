/**
 * The Real48 records of the value-loader test table: forty simple numbers,
 * their forty negations, and thirty records of random bytes.
 */
module Real48Vectors {
  import opened Real48

  /** Zero, then simple numbers from 1 to 10^11 and down to 10^-10. */
  const SimpleVectors: seq<Raw> := [
    Raw(0x00, 0x00, 0x00, 0x00, 0x00, 0x00), Raw(0x81, 0x00, 0x00, 0x00, 0x00, 0x00), Raw(0x82, 0x00, 0x00, 0x00, 0x00, 0x00),
    Raw(0x82, 0x00, 0x00, 0x00, 0x00, 0x40), Raw(0x83, 0x00, 0x00, 0x00, 0x00, 0x00), Raw(0x83, 0x00, 0x00, 0x00, 0x00, 0x20),
    Raw(0x83, 0x00, 0x00, 0x00, 0x00, 0x40), Raw(0x83, 0x00, 0x00, 0x00, 0x00, 0x60), Raw(0x84, 0x00, 0x00, 0x00, 0x00, 0x00),
    Raw(0x84, 0x00, 0x00, 0x00, 0x00, 0x10), Raw(0x84, 0x00, 0x00, 0x00, 0x00, 0x20), Raw(0x87, 0x00, 0x00, 0x00, 0x00, 0x48),
    Raw(0x8A, 0x00, 0x00, 0x00, 0x00, 0x7A), Raw(0x8E, 0x00, 0x00, 0x00, 0x40, 0x1C), Raw(0x91, 0x00, 0x00, 0x00, 0x50, 0x43),
    Raw(0x94, 0x00, 0x00, 0x00, 0x24, 0x74), Raw(0x98, 0x00, 0x00, 0x80, 0x96, 0x18), Raw(0x9B, 0x00, 0x00, 0x20, 0xBC, 0x3E),
    Raw(0x9E, 0x00, 0x00, 0x28, 0x6B, 0x6E), Raw(0xA2, 0x00, 0x00, 0xF9, 0x02, 0x15), Raw(0xA5, 0x00, 0x40, 0xB7, 0x43, 0x3A),
    Raw(0x9B, 0x00, 0xA0, 0xA2, 0x79, 0x6B), Raw(0x80, 0x66, 0x66, 0x66, 0x66, 0x66), Raw(0x80, 0xCD, 0xCC, 0xCC, 0xCC, 0x4C),
    Raw(0x80, 0x33, 0x33, 0x33, 0x33, 0x33), Raw(0x80, 0x9A, 0x99, 0x99, 0x99, 0x19), Raw(0x80, 0x00, 0x00, 0x00, 0x00, 0x00),
    Raw(0x7F, 0xCD, 0xCC, 0xCC, 0xCC, 0x4C), Raw(0x7F, 0x9A, 0x99, 0x99, 0x99, 0x19), Raw(0x7E, 0xCD, 0xCC, 0xCC, 0xCC, 0x4C),
    Raw(0x7D, 0xCD, 0xCC, 0xCC, 0xCC, 0x4C), Raw(0x7A, 0x71, 0x3D, 0x0A, 0xD7, 0x23), Raw(0x77, 0x8D, 0x97, 0x6E, 0x12, 0x03),
    Raw(0x73, 0xE2, 0x58, 0x17, 0xB7, 0x51), Raw(0x70, 0x1B, 0x47, 0xAC, 0xC5, 0x27), Raw(0x6D, 0xAF, 0x05, 0xBD, 0x37, 0x06),
    Raw(0x69, 0xE5, 0xD5, 0x94, 0xBF, 0x56), Raw(0x66, 0x84, 0x11, 0x77, 0xCC, 0x2B), Raw(0x63, 0x37, 0x41, 0x5F, 0x70, 0x09),
    Raw(0x5F, 0xBE, 0xCE, 0xFE, 0xE6, 0x5B)
  ]

  /** Zero, then the negations of the simple numbers in the same order. */
  const NegatedVectors: seq<Raw> := [
    Raw(0x00, 0x00, 0x00, 0x00, 0x00, 0x00), Raw(0x81, 0x00, 0x00, 0x00, 0x00, 0x80), Raw(0x82, 0x00, 0x00, 0x00, 0x00, 0x80),
    Raw(0x82, 0x00, 0x00, 0x00, 0x00, 0xC0), Raw(0x83, 0x00, 0x00, 0x00, 0x00, 0x80), Raw(0x83, 0x00, 0x00, 0x00, 0x00, 0xA0),
    Raw(0x83, 0x00, 0x00, 0x00, 0x00, 0xC0), Raw(0x83, 0x00, 0x00, 0x00, 0x00, 0xE0), Raw(0x84, 0x00, 0x00, 0x00, 0x00, 0x80),
    Raw(0x84, 0x00, 0x00, 0x00, 0x00, 0x90), Raw(0x84, 0x00, 0x00, 0x00, 0x00, 0xA0), Raw(0x87, 0x00, 0x00, 0x00, 0x00, 0xC8),
    Raw(0x8A, 0x00, 0x00, 0x00, 0x00, 0xFA), Raw(0x8E, 0x00, 0x00, 0x00, 0x40, 0x9C), Raw(0x91, 0x00, 0x00, 0x00, 0x50, 0xC3),
    Raw(0x94, 0x00, 0x00, 0x00, 0x24, 0xF4), Raw(0x98, 0x00, 0x00, 0x80, 0x96, 0x98), Raw(0x9B, 0x00, 0x00, 0x20, 0xBC, 0xBE),
    Raw(0x9E, 0x00, 0x00, 0x28, 0x6B, 0xEE), Raw(0xA2, 0x00, 0x00, 0xF9, 0x02, 0x95), Raw(0xA5, 0x00, 0x40, 0xB7, 0x43, 0xBA),
    Raw(0x9B, 0x00, 0xA0, 0xA2, 0x79, 0xEB), Raw(0x80, 0x66, 0x66, 0x66, 0x66, 0xE6), Raw(0x80, 0xCD, 0xCC, 0xCC, 0xCC, 0xCC),
    Raw(0x80, 0x33, 0x33, 0x33, 0x33, 0xB3), Raw(0x80, 0x9A, 0x99, 0x99, 0x99, 0x99), Raw(0x80, 0x00, 0x00, 0x00, 0x00, 0x80),
    Raw(0x7F, 0xCD, 0xCC, 0xCC, 0xCC, 0xCC), Raw(0x7F, 0x9A, 0x99, 0x99, 0x99, 0x99), Raw(0x7E, 0xCD, 0xCC, 0xCC, 0xCC, 0xCC),
    Raw(0x7D, 0xCD, 0xCC, 0xCC, 0xCC, 0xCC), Raw(0x7A, 0x71, 0x3D, 0x0A, 0xD7, 0xA3), Raw(0x77, 0x8D, 0x97, 0x6E, 0x12, 0x83),
    Raw(0x73, 0xE2, 0x58, 0x17, 0xB7, 0xD1), Raw(0x70, 0x1B, 0x47, 0xAC, 0xC5, 0xA7), Raw(0x6D, 0xAF, 0x05, 0xBD, 0x37, 0x86),
    Raw(0x69, 0xE5, 0xD5, 0x94, 0xBF, 0xD6), Raw(0x66, 0x84, 0x11, 0x77, 0xCC, 0xAB), Raw(0x63, 0x37, 0x41, 0x5F, 0x70, 0x89),
    Raw(0x5F, 0xBE, 0xCE, 0xFE, 0xE6, 0xDB)
  ]

  /** Records of random bytes. */
  const RandomVectors: seq<Raw> := [
    Raw(0x51, 0x29, 0x5F, 0x6C, 0x14, 0x79), Raw(0x12, 0xD7, 0x0F, 0x4B, 0xEA, 0x5E), Raw(0xC6, 0x53, 0xB2, 0xD8, 0xB7, 0x4E),
    Raw(0x29, 0x54, 0x77, 0x3F, 0xD3, 0x47), Raw(0x7B, 0x26, 0xDF, 0x49, 0xC5, 0xF9), Raw(0x7E, 0xE3, 0xD3, 0x05, 0x24, 0x24),
    Raw(0x80, 0x05, 0x97, 0x02, 0xC6, 0xA6), Raw(0x15, 0xC5, 0x7E, 0xE1, 0x82, 0x92), Raw(0x47, 0xE0, 0x29, 0x45, 0x8B, 0xF5),
    Raw(0x2C, 0x28, 0x44, 0x2D, 0x93, 0x7F), Raw(0x49, 0x27, 0x9C, 0xBD, 0xBF, 0x14), Raw(0x13, 0x0F, 0x1B, 0xCB, 0xCE, 0x61),
    Raw(0x9C, 0x6F, 0xBD, 0x7E, 0x57, 0xD1), Raw(0x50, 0x50, 0xA8, 0xB1, 0xE7, 0x51), Raw(0x7A, 0x4B, 0xC4, 0xBD, 0x8D, 0xB9),
    Raw(0x69, 0x8A, 0x98, 0xE1, 0xAB, 0x1C), Raw(0x78, 0x67, 0x1D, 0x0D, 0x8C, 0xAC), Raw(0x14, 0xEB, 0xD6, 0xAE, 0xED, 0x46),
    Raw(0x1A, 0xDD, 0x8D, 0xB2, 0x19, 0xAB), Raw(0x04, 0x4F, 0xE7, 0x89, 0x53, 0x71), Raw(0x67, 0x35, 0xCE, 0x96, 0x1C, 0x9F),
    Raw(0x65, 0x5D, 0x15, 0x74, 0x81, 0x75), Raw(0x5C, 0x5D, 0x9F, 0xC7, 0x74, 0x34), Raw(0x44, 0x4B, 0xB3, 0x74, 0xF6, 0x30),
    Raw(0x03, 0x39, 0xE6, 0x52, 0xDC, 0xC3), Raw(0x0D, 0x81, 0x6C, 0x00, 0x26, 0xB5), Raw(0x4F, 0x65, 0x8C, 0x42, 0x26, 0x4B),
    Raw(0x13, 0xB4, 0x54, 0xCA, 0xA7, 0x90), Raw(0xE5, 0x05, 0x41, 0xE2, 0xAF, 0x08), Raw(0x28, 0x27, 0x69, 0x6B, 0x24, 0x00)
  ]

  const RealVectors: seq<Raw> := SimpleVectors + NegatedVectors + RandomVectors

  /** 2^16 and 2^32, built from 2^8. */
  lemma {:induction false} Pow2NatWords()
    ensures Pow2Nat(16) == 0x1_0000
    ensures Pow2Nat(32) == 0x1_0000_0000
  {
    Pow2NatValues();
    Pow2NatAdd(8, 8);
    Pow2NatAdd(16, 16);
  }

  /** The powers of two that scale the mantissas of the small table records. */
  lemma {:induction false} Pow2NatMantissas()
    ensures Pow2Nat(36) == 0x10_0000_0000
    ensures Pow2Nat(37) == 0x20_0000_0000
    ensures Pow2Nat(38) == 0x40_0000_0000
    ensures Pow2Nat(39) == 0x80_0000_0000
    ensures Pow2Nat(40) == 0x100_0000_0000
  {
    Pow2NatWords();
    assert Pow2Nat(4) == 16;
    Pow2NatAdd(32, 4);
    Pow2NatAdd(36, 1);
    Pow2NatAdd(37, 1);
    Pow2NatValues();
  }

  /** 2^87, 2^127 and 2^128, the powers behind the extreme records. */
  lemma {:induction false} Pow2NatLarge()
    ensures Pow2Nat(87) == 0x80_0000_0000_0000_0000_0000
    ensures Pow2Nat(127) == 0x8000_0000_0000_0000_0000_0000_0000_0000
    ensures Pow2Nat(128) == 0x1_0000_0000_0000_0000_0000_0000_0000_0000
  {
    Pow2NatWords();
    Pow2NatAdd(32, 32);
    Pow2NatAdd(64, 16);
    assert Pow2Nat(7) == 0x80;
    Pow2NatAdd(80, 7);
    Pow2NatValues();
    Pow2NatAdd(87, 40);
    Pow2NatAdd(127, 1);
  }

  /** A record whose value is v: its significand 2^39 + m is v times 2^k, k = 168 - e. */
  lemma MagnitudeExact(e: int, m: nat, k: nat, v: real)
    requires e == 168 - k
    requires (MantissaScale + m) as real == v * Pow2Nat(k) as real
    ensures Magnitude(e, m) == v
  {
    var j: int := -(k as int);
    Pow2Shift(j, k);
    assert Pow2(0) == 1.0;
    assert (v * Pow2Nat(k) as real) * Pow2(j) == v * (Pow2Nat(k) as real * Pow2(j));
  }

  /** The record 0x81 00 00 00 00 00 is 1. */
  lemma DecodeOne()
    ensures Decode(TagNode(0x81, 0)) == 1.0
  {
    Pow2NatMantissas();
    MagnitudeExact(0x81, 0, 39, 1.0);
  }

  /** The record 0x83 00 00 00 00 60 is 7. */
  lemma DecodeSeven()
    ensures Decode(TagNode(0x83, 0x6000_0000)) == 7.0
  {
    Pow2NatMantissas();
    MagnitudeExact(0x83, 0x60_0000_0000, 37, 7.0);
  }

  /** The record 0x80 00 00 00 00 00 is 1/2. */
  lemma DecodeHalf()
    ensures Decode(TagNode(0x80, 0)) == 0.5
  {
    Pow2NatMantissas();
    MagnitudeExact(0x80, 0, 40, 0.5);
  }

  /** The record 0x84 00 00 00 00 20 is 10. */
  lemma DecodeTen()
    ensures Decode(TagNode(0x84, 0x2000_0000)) == 10.0
  {
    Pow2NatMantissas();
    MagnitudeExact(0x84, 0x20_0000_0000, 36, 10.0);
  }

  /** The table entries printed as 7 and -7 decode to exactly those numbers. */
  lemma SevenVectorValues()
    ensures Decode(Record(SimpleVectors[7])) == 7.0
    ensures Decode(Record(NegatedVectors[7])) == -7.0
  {
    assert Record(SimpleVectors[7]) == TagNode(0x83, 0x6000_0000);
    DecodeSeven();
    MirrorBytes(7);
    SignByteFlips(SimpleVectors[7], NegatedVectors[7]);
    FlipSignNegates(Record(SimpleVectors[7]));
  }

  const ZeroRaw: Raw := Raw(0, 0, 0, 0, 0, 0)

  /** Every record in v whose exponent byte is zero is all zero bytes. */
  ghost predicate ZeroExponentOnlyIfZero(v: seq<Raw>) {
    forall i | 0 <= i < |v| :: v[i].b0 == 0 ==> v[i] == ZeroRaw
  }

  lemma TablesHaveNoDenormals()
    ensures ZeroExponentOnlyIfZero(SimpleVectors)
    ensures ZeroExponentOnlyIfZero(NegatedVectors)
    ensures ZeroExponentOnlyIfZero(RandomVectors)
    ensures ZeroExponentOnlyIfZero(RealVectors)
  {
  }

  /** Every record of the table re-encodes to the identical tag and payload. */
  lemma {:induction false} VectorsRoundTrip()
    ensures forall i | 0 <= i < |RealVectors| :: Encode(Decode(Record(RealVectors[i]))) == Record(RealVectors[i])
  {
    TablesHaveNoDenormals();
    forall i | 0 <= i < |RealVectors|
      ensures Encode(Decode(Record(RealVectors[i]))) == Record(RealVectors[i])
    {
      RecordRoundTrip(RealVectors[i]);
    }
  }

  lemma RecordRoundTrip(r: Raw)
    requires r.b0 != 0 || r == ZeroRaw
    ensures Encode(Decode(Record(r))) == Record(r)
  {
    if r.b0 != 0 {
      EncodeDecode(Record(r));
    } else {
      ZeroRecordRoundTrip(r);
    }
  }

  lemma ZeroRecordRoundTrip(r: Raw)
    requires r.b0 == 0 && r.b1 == 0 && r.b2 == 0 && r.b3 == 0 && r.b4 == 0 && r.b5 == 0
    ensures Encode(Decode(Record(r))) == Record(r)
  {
    ZeroExponentNormalises(Record(r));
  }

  /** Entries 41 to 79 are entries 1 to 39 with the sign bit (bit 7 of byte 5) set. */
  lemma {:induction false} VectorsMirror()
    ensures |SimpleVectors| == |NegatedVectors| == 40
    ensures forall i | 1 <= i < 40 :: Decode(Record(NegatedVectors[i])) == -Decode(Record(SimpleVectors[i]))
  {
    forall i | 1 <= i < 40
      ensures Decode(Record(NegatedVectors[i])) == -Decode(Record(SimpleVectors[i]))
    {
      MirrorBytes(i);
      SignByteFlips(SimpleVectors[i], NegatedVectors[i]);
      FlipSignNegates(Record(SimpleVectors[i]));
    }
  }

  lemma MirrorBytes(i: int)
    requires 1 <= i < 40
    ensures SimpleVectors[i].b5 < 0x80
    ensures NegatedVectors[i] == SimpleVectors[i].(b5 := SimpleVectors[i].b5 + 0x80)
  {
    if i < 20 {
      MirrorBytesLow(i);
    } else {
      MirrorBytesHigh(i);
    }
  }

  lemma MirrorBytesLow(i: int)
    requires 1 <= i < 20
    ensures SimpleVectors[i].b5 < 0x80
    ensures NegatedVectors[i] == SimpleVectors[i].(b5 := SimpleVectors[i].b5 + 0x80)
  {
  }

  lemma MirrorBytesHigh(i: int)
    requires 20 <= i < 40
    ensures SimpleVectors[i].b5 < 0x80
    ensures NegatedVectors[i] == SimpleVectors[i].(b5 := SimpleVectors[i].b5 + 0x80)
  {
  }

  /** Setting the top bit of byte 5 of a positive record is FlipSign. */
  lemma SignByteFlips(a: Raw, b: Raw)
    requires a.b5 < 0x80 && b == a.(b5 := a.b5 + 0x80)
    ensures Record(b) == FlipSign(Record(a))
  {
    var ta, tb := Record(a), Record(b);
    assert tb.tag == ta.tag;
    assert ta.payload < SignBit && tb.payload == ta.payload + SignBit;
    assert tb.payload % SignBit == ta.payload % SignBit;
    assert Mantissa(tb) == Mantissa(ta);
    ComposeFields(tb);
  }

  /** The largest record decodes to the finite number 2^127 - 2^87. */
  lemma MaxPositiveValue()
    ensures Decode(MaxPositive) == 170141183460314489226776631181521715200.0
    ensures Decode(MaxNegative) == -170141183460314489226776631181521715200.0
  {
    Pow2NatValues();
    Pow2NatLarge();
    Pow2Shift(0, 87);
    assert Pow2(0) == 1.0;
    assert Mantissa(MaxPositive) == MantissaScale - 1;
    assert Mantissa(MaxNegative) == MantissaScale - 1;
  }

  const TenToMinus100: real := 0.0000000000000000000000000000000000000000000000000000000000000000000000000000000000000000000000000001
  const TenTo100: real := 10000000000000000000000000000000000000000000000000000000000000000000000000000000000000000000000000000.0

  /** 2^-128 is above 10^-100 and 2^127 below 10^100. */
  lemma ClampBoundsVersusPowersOfTen()
    ensures TenToMinus100 < SmallestMagnitude
    ensures ClampBound < TenTo100
  {
    Pow2NatLarge();
    Pow2Shift(-128, 128);
    Pow2Shift(0, 127);
    assert Pow2(0) == 1.0;
    CancelPositive(TenToMinus100, Pow2(-128), Pow2Nat(128) as real);
  }

  lemma CancelPositive(a: real, b: real, n: real)
    requires n > 0.0 && a * n < b * n
    ensures a < b
  {
  }

  /** A number of magnitude at most 10^-100 encodes as the all-zero record. */
  lemma EncodeTiny(x: real)
    requires Abs(x) <= TenToMinus100
    ensures Encode(x) == Zero
  {
    ClampBoundsVersusPowersOfTen();
  }

  /** A number of at least 10^100 encodes as the largest positive record. */
  lemma EncodeHuge(x: real)
    requires x >= TenTo100
    ensures Encode(x) == MaxPositive
  {
    ClampBoundsVersusPowersOfTen();
  }

  /** 7 encodes as tag 0x0083 with payload 0x60000000. */
  lemma EncodeSeven(x: real)
    requires x == 7.0
    ensures Encode(x) == TagNode(0x83, 0x6000_0000)
  {
    DecodeSeven();
    EncodeDecode(TagNode(0x83, 0x6000_0000));
  }
}
