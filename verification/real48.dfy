/**
 * The legacy Turbo Pascal 48-bit "Real" format as the script value codec
 * stores it in a 6-byte record: a 16-bit tag (bytes 0 and 1) and a 32-bit
 * payload (bytes 2 to 5), all little-endian.
 *
 * Byte 0 is the biased exponent, bytes 1..5 hold a 39-bit mantissa whose
 * implicit leading one is not stored, and the top bit of byte 5 is the sign.
 * Values are exact rationals here; IEEE double rounding is not modelled.
 */
module Real48 {

  type byte = x: int | 0 <= x < 0x100
  type u16 = x: int | 0 <= x < 0x1_0000
  type u32 = x: int | 0 <= x < 0x1_0000_0000

  /** A serialized value header: 16-bit tag and 32-bit payload. */
  datatype TagNode = TagNode(tag: u16, payload: u32)

  /** The six bytes of a record in file order. */
  datatype Raw = Raw(b0: byte, b1: byte, b2: byte, b3: byte, b4: byte, b5: byte)

  /** A 6-byte record as a serialized value holds it: tag bytes 0-1, payload bytes 2-5, little-endian. */
  function Record(b: Raw): (t: TagNode)
    ensures Exponent(t) == b.b0
    ensures Negative(t) <==> b.b5 >= 0x80
  {
    TagNode(b.b0 + 0x100 * b.b1, b.b2 + 0x100 * (b.b3 + 0x100 * (b.b4 + 0x100 * b.b5)))
  }

  /** The six bytes that store a tag and payload; the inverse of Record. */
  function Split(t: TagNode): (r: Raw)
    ensures Record(r) == t
  {
    var p := t.payload;
    var q1 := p / 0x100;
    var q2 := q1 / 0x100;
    var q3 := q2 / 0x100;
    DigitSplit(t.tag);
    DigitSplit(p);
    DigitSplit(q1);
    DigitSplit(q2);
    Raw(t.tag % 0x100, t.tag / 0x100, p % 0x100, q1 % 0x100, q2 % 0x100, q3)
  }

  /** x is its low byte plus 256 times the rest. */
  lemma DigitSplit(x: nat)
    ensures x == x % 0x100 + 0x100 * (x / 0x100)
  {
  }

  lemma SplitRecord(r: Raw)
    ensures Split(Record(r)) == r
  {
    var q2 := r.b4 + 0x100 * r.b5;
    var q1 := r.b3 + 0x100 * q2;
    ByteDigit(r.b0, r.b1);
    ByteDigit(r.b2, q1);
    ByteDigit(r.b3, q2);
    ByteDigit(r.b4, r.b5);
  }

  /** The low byte and the rest of lo + 256 * hi. */
  lemma ByteDigit(lo: byte, hi: int)
    ensures (lo as int + 0x100 * hi) % 0x100 == lo as int
    ensures (lo as int + 0x100 * hi) / 0x100 == hi
  {
  }

  const SignBit: int := 0x8000_0000
  const MantissaScale: int := 0x80_0000_0000   // 2^39

  /** 2^n on naturals. */
  function Pow2Nat(n: nat): (r: nat)
    ensures r >= 1
  {
    if n == 0 then 1 else 2 * Pow2Nat(n - 1)
  }

  /** Exact power of two, also for negative exponents. */
  function Pow2(k: int): real
    decreases if k >= 0 then k else -k
  {
    if k == 0 then 1.0
    else if k > 0 then 2.0 * Pow2(k - 1)
    else Pow2(k + 1) / 2.0
  }

  lemma {:induction false} Pow2Succ(k: int)
    ensures Pow2(k + 1) == 2.0 * Pow2(k)
  {
    if k < 0 {
      assert Pow2(k) == Pow2(k + 1) / 2.0;
    }
  }

  lemma {:induction false} Pow2Positive(k: int)
    ensures Pow2(k) > 0.0
    decreases if k >= 0 then k else -k
  {
    if k > 0 {
      Pow2Positive(k - 1);
    } else if k < 0 {
      Pow2Positive(k + 1);
    }
  }

  lemma MulAssocTwo(x: real, y: real)
    ensures 2.0 * (x * y) == (2.0 * x) * y
  {
  }

  /** Shifting the exponent up by n multiplies by the natural 2^n. */
  lemma {:induction false} Pow2Shift(k: int, n: nat)
    ensures Pow2(k + n) == Pow2Nat(n) as real * Pow2(k)
  {
    if n > 0 {
      Pow2Shift(k, n - 1);
      Pow2Succ(k + n - 1);
      MulAssocTwo(Pow2Nat(n - 1) as real, Pow2(k));
    }
  }

  lemma AtLeastOneTimesPositive(x: real, y: real)
    requires x >= 1.0 && y > 0.0
    ensures x * y >= y
  {
  }

  lemma Pow2Monotone(a: int, b: int)
    requires a <= b
    ensures Pow2(a) <= Pow2(b)
  {
    var n: nat := b - a;
    Pow2Shift(a, n);
    assert a + n == b;
    Pow2Positive(a);
    AtLeastOneTimesPositive(Pow2Nat(n) as real, Pow2(a));
    assert Pow2(b) == Pow2Nat(n) as real * Pow2(a);
  }

  lemma {:induction false} Pow2NatAdd(a: nat, b: nat)
    ensures Pow2Nat(a + b) == Pow2Nat(a) * Pow2Nat(b)
  {
    if b > 0 {
      Pow2NatAdd(a, b - 1);
      assert Pow2Nat(a + b) == 2 * Pow2Nat(a + b - 1);
    }
  }

  lemma Pow2NatValues()
    ensures Pow2Nat(8) == 0x100
    ensures Pow2Nat(39) == 0x80_0000_0000
    ensures Pow2Nat(40) == 0x100_0000_0000
  {
    assert Pow2Nat(8) == 0x100;
    Pow2NatAdd(8, 8);
    Pow2NatAdd(16, 16);
    Pow2NatAdd(32, 7);
    assert Pow2Nat(7) == 0x80;
    Pow2NatAdd(39, 1);
  }

  /** The two scale factors every Real48 magnitude is built from. */
  lemma MantissaScaleFacts(k: int)
    ensures Pow2(k + 39) == MantissaScale as real * Pow2(k)
    ensures Pow2(k + 40) == 2.0 * MantissaScale as real * Pow2(k)
  {
    Pow2NatValues();
    Pow2Shift(k, 39);
    Pow2Shift(k, 40);
  }

  /** The exponent byte (byte 0). */
  function Exponent(t: TagNode): byte {
    t.tag % 0x100
  }

  /** The 39 mantissa bits: byte 1, bytes 2..4 and the low 7 bits of byte 5. */
  function Mantissa(t: TagNode): (m: nat)
    ensures m < MantissaScale
  {
    t.tag / 0x100 + 0x100 * (t.payload % SignBit)
  }

  /** The sign bit, bit 7 of byte 5. */
  predicate Negative(t: TagNode) {
    t.payload >= SignBit
  }

  /** Assembles a record from its three fields. */
  function Compose(e: byte, m: nat, negative: bool): (t: TagNode)
    requires m < MantissaScale
    ensures Exponent(t) == e && Mantissa(t) == m && Negative(t) == negative
  {
    var t := TagNode(e + 0x100 * (m % 0x100), m / 0x100 + (if negative then SignBit else 0));
    assert t.tag / 0x100 == m % 0x100;
    assert t.payload % SignBit == m / 0x100;
    t
  }

  lemma ComposeFields(t: TagNode)
    ensures Compose(Exponent(t), Mantissa(t), Negative(t)) == t
  {
    var m := Mantissa(t);
    assert m % 0x100 == t.tag / 0x100;
    assert m / 0x100 == t.payload % SignBit;
  }

  /** The magnitude (2^39 + m) * 2^(e - 129 - 39) of a record with non-zero exponent. */
  function Magnitude(e: int, m: nat): real {
    (MantissaScale + m) as real * Pow2(e - 168)
  }

  /**
   * Decodes a Real48 record: exponent byte 0 gives exactly zero whatever the
   * other bits hold; otherwise the magnitude above with the sign applied last.
   */
  function Decode(t: TagNode): real {
    if Exponent(t) == 0 then 0.0
    else if Negative(t) then -Magnitude(Exponent(t), Mantissa(t))
    else Magnitude(Exponent(t), Mantissa(t))
  }

  /** The smallest magnitude a normalised record holds, and the bound from which encoding clamps. */
  const SmallestMagnitude: real := Pow2(-128)
  const ClampBound: real := Pow2(127)

  const MaxPositive: TagNode := TagNode(0xFFFF, 0x7FFF_FFFF)
  const MaxNegative: TagNode := TagNode(0xFFFF, 0xFFFF_FFFF)
  const Zero: TagNode := TagNode(0, 0)

  /** a lies in the binade of exponent byte e: 2^(e-129) <= a < 2^(e-128). */
  ghost predicate InBinade(a: real, e: int) {
    Pow2(e - 129) <= a < Pow2(e - 128)
  }

  /** The largest exponent byte e <= start whose binade starts at or below a (searching down to 1). */
  function FindExponent(a: real, start: int): (e: int)
    requires 1 <= start <= 255
    requires SmallestMagnitude <= a < Pow2(start - 128)
    ensures 1 <= e <= start
    ensures InBinade(a, e)
    decreases start
  {
    if start == 1 || Pow2(start - 129) <= a then start
    else FindExponent(a, start - 1)
  }

  function Abs(x: real): real {
    if x < 0.0 then -x else x
  }

  lemma SmallestBelowClamp()
    ensures 0.0 < SmallestMagnitude < ClampBound
  {
    Pow2Positive(-128);
    Pow2Monotone(-128, 126);
    Pow2Positive(126);
    Pow2Succ(126);
  }

  /**
   * Encodes a number: magnitudes below 2^-128 become the all-zero record,
   * magnitudes of 2^127 and above clamp to the largest record of the same
   * sign, everything else is normalised and its mantissa truncated.
   */
  function Encode(x: real): (t: TagNode)
    ensures Abs(x) < SmallestMagnitude ==> t == Zero
    ensures Abs(x) >= ClampBound ==> t == (if x < 0.0 then MaxNegative else MaxPositive)
    ensures SmallestMagnitude <= Abs(x) < ClampBound ==>
              Exponent(t) != 0 && Negative(t) == (x < 0.0) && InBinade(Abs(x), Exponent(t))
    ensures Exponent(t) == 0 ==> t == Zero
  {
    SmallestBelowClamp();
    var a := Abs(x);
    if a < SmallestMagnitude then Zero
    else if a >= ClampBound then (if x < 0.0 then MaxNegative else MaxPositive)
    else
      var e := FindExponent(a, 255);
      Compose(e, Truncate(a, e), x < 0.0)
  }

  /** The 39 fraction bits of a, truncated: floor(a * 2^(168-e)) - 2^39. */
  function Truncate(a: real, e: int): (m: nat)
    requires InBinade(a, e)
    ensures m < MantissaScale
  {
    TruncateBounds(a, e);
    (a * Pow2(168 - e)).Floor - MantissaScale
  }

  lemma {:induction false} Pow2Inverse(k: int)
    ensures Pow2(k) * Pow2(-k) == 1.0
  {
    if k >= 0 {
      Pow2Shift(-k, k);
      Pow2Shift(0, k);
    } else {
      Pow2Shift(k, -k);
      Pow2Shift(0, -k);
    }
  }

  lemma MulMonotone(x: real, y: real, q: real)
    requires x <= y && q > 0.0
    ensures x * q <= y * q
  {
  }

  lemma MulStrict(x: real, y: real, q: real)
    requires x < y && q > 0.0
    ensures x * q < y * q
  {
  }

  lemma ScaleBack(s: real, p: real, r: real, a: real)
    requires p * r == 1.0 && r > 0.0
    requires s * p <= a < 2.0 * s * p
    ensures s <= a * r < 2.0 * s
  {
    MulMonotone(s * p, a, r);
    MulStrict(a, 2.0 * s * p, r);
    assert (s * p) * r == s * (p * r);
    assert (2.0 * s * p) * r == 2.0 * s * (p * r);
  }

  /** Scaling a number of binade e by 2^(168-e) lands in [2^39, 2^40). */
  lemma TruncateBounds(a: real, e: int)
    requires InBinade(a, e)
    ensures MantissaScale as real <= a * Pow2(168 - e) < 2.0 * MantissaScale as real
  {
    MantissaScaleFacts(e - 168);
    Pow2Inverse(e - 168);
    Pow2Positive(168 - e);
    ScaleBack(MantissaScale as real, Pow2(e - 168), Pow2(168 - e), a);
  }

  lemma ScaleBounds(s: real, n: real, p: real)
    requires p > 0.0 && s <= n < 2.0 * s
    ensures s * p <= n * p < (2.0 * s) * p
  {
    MulMonotone(s, n, p);
    MulStrict(n, 2.0 * s, p);
  }

  /** A record with a non-zero exponent lies in the binade its exponent names. */
  lemma MagnitudeInBinade(e: int, m: nat)
    requires 1 <= e <= 255 && m < MantissaScale
    ensures InBinade(Magnitude(e, m), e)
    ensures SmallestMagnitude <= Magnitude(e, m) < ClampBound
  {
    MagnitudeBinade(e, m);
    Pow2Monotone(-128, e - 129);
    Pow2Monotone(e - 128, 127);
  }

  lemma MagnitudeBinade(e: int, m: nat)
    requires m < MantissaScale
    ensures Pow2(e - 129) <= Magnitude(e, m) < Pow2(e - 128)
  {
    var p := Pow2(e - 168);
    MantissaScaleFacts(e - 168);
    Pow2Positive(e - 168);
    Sandwich(MantissaScale as real, (MantissaScale + m) as real, p, Pow2(e - 129), Pow2(e - 128));
  }

  lemma Sandwich(s: real, n: real, p: real, lo: real, hi: real)
    requires p > 0.0 && s <= n < 2.0 * s
    requires lo == s * p && hi == 2.0 * s * p
    ensures lo <= n * p < hi
  {
    ScaleBounds(s, n, p);
  }

  /** Two binades containing the same number are the same. */
  lemma BinadeUnique(a: real, e1: int, e2: int)
    requires InBinade(a, e1) && InBinade(a, e2)
    ensures e1 == e2
  {
    if e1 < e2 {
      Pow2Monotone(e1 - 128, e2 - 129);
    } else if e2 < e1 {
      Pow2Monotone(e2 - 128, e1 - 129);
    }
  }

  /** Truncation recovers the stored mantissa of an exactly decoded record. */
  lemma TruncateMagnitude(e: int, m: nat)
    requires 1 <= e <= 255 && m < MantissaScale
    ensures InBinade(Magnitude(e, m), e)
    ensures Truncate(Magnitude(e, m), e) == m
  {
    MagnitudeInBinade(e, m);
    Pow2Inverse(e - 168);
    var n, p, r := (MantissaScale + m) as real, Pow2(e - 168), Pow2(168 - e);
    assert (n * p) * r == n * (p * r);
    assert Magnitude(e, m) * r == n;
  }

  /**
   * Round trip: re-encoding the value of any record whose exponent byte is
   * non-zero reproduces the identical tag and payload.
   */
  lemma {:induction false} EncodeDecode(t: TagNode)
    requires Exponent(t) != 0
    ensures Encode(Decode(t)) == t
  {
    var e: int, m := Exponent(t), Mantissa(t);
    var a := Magnitude(e, m);
    TruncateMagnitude(e, m);
    MagnitudeInBinade(e, m);
    SmallestBelowClamp();
    assert Abs(Decode(t)) == a;
    assert Decode(t) < 0.0 <==> Negative(t);
    var e' := FindExponent(a, 255);
    BinadeUnique(a, e, e');
    ComposeFields(t);
  }

  /** Every record with exponent byte zero decodes to zero and re-encodes as all zero bytes. */
  lemma ZeroExponentNormalises(t: TagNode)
    requires Exponent(t) == 0
    ensures Decode(t) == 0.0
    ensures Encode(Decode(t)) == Zero
  {
    SmallestBelowClamp();
  }

  /**
   * Encoding a number in range never increases its magnitude: the decoded
   * record is the number with its mantissa truncated to 39 bits, in the same binade.
   */
  lemma DecodeEncode(x: real)
    requires SmallestMagnitude <= Abs(x) < ClampBound
    ensures Exponent(Encode(x)) != 0
    ensures Negative(Encode(x)) == (x < 0.0)
    ensures Abs(Decode(Encode(x))) <= Abs(x)
    ensures InBinade(Abs(Decode(Encode(x))), Exponent(Encode(x)))
  {
    var a := Abs(x);
    var e := FindExponent(a, 255);
    var m := Truncate(a, e);
    TruncateBelow(a, e);
    MagnitudeInBinade(e, m);
    assert Abs(Decode(Encode(x))) == Magnitude(e, m);
  }

  /** The truncated mantissa never rounds the magnitude up. */
  lemma TruncateBelow(a: real, e: int)
    requires InBinade(a, e)
    ensures Magnitude(e, Truncate(a, e)) <= a
  {
    var p, r := Pow2(e - 168), Pow2(168 - e);
    Pow2Inverse(e - 168);
    Pow2Positive(e - 168);
    var m := Truncate(a, e);
    assert m == (a * r).Floor - MantissaScale;
    var n := (MantissaScale + m) as real;
    assert n == (a * r).Floor as real;
    UnscaleBelow(n, a, p, r);
  }

  lemma UnscaleBelow(n: real, a: real, p: real, r: real)
    requires p > 0.0 && p * r == 1.0 && n <= a * r
    ensures n * p <= a
  {
    MulMonotone(n, a * r, p);
    assert (a * r) * p == a * (p * r);
  }

  /** Flipping bit 7 of byte 5 negates the decoded value of a normalised record. */
  function FlipSign(t: TagNode): (r: TagNode)
    ensures Exponent(r) == Exponent(t) && Mantissa(r) == Mantissa(t)
    ensures Negative(r) != Negative(t)
  {
    Compose(Exponent(t), Mantissa(t), !Negative(t))
  }

  lemma FlipSignNegates(t: TagNode)
    ensures Decode(FlipSign(t)) == -Decode(t)
  {
  }
}
