/**
 * Loading script values from their serialized form. Every value has a
 * 6-byte header (16-bit tag, 32-bit payload); string bodies live in an
 * auxiliary byte stream that follows all headers of a segment, in record
 * order.
 */
module ValueLoader {
  import opened Wrappers
  import opened Real48

  const TagNull: u16 := 0x100
  const TagInteger: u16 := 0x200
  const TagBoolean: u16 := 0x300
  /** Pascal-style string: payload 0 is the empty string, otherwise a length byte and the text follow. */
  const TagString: u16 := 0x400
  /** IEEE single precision number in the payload bits. */
  const TagFloat: u16 := 0x500
  /** String whose byte count is the payload. */
  const TagLongString: u16 := 0x600

  type int32 = i: int | -0x8000_0000 <= i < 0x8000_0000

  datatype Value =
    | IntegerValue(i: int32)
    | BooleanValue(b: bool)
    | FloatValue(f: real)
    | StringValue(s: seq<byte>)

  datatype LoadError = UnknownTag(tag: u16) | StreamTooShort

  /** A loaded slot (None for the null tag) and the number of auxiliary bytes it consumed. */
  datatype Loaded = Loaded(value: Option<Value>, used: nat)

  /** Reads a payload as a two's-complement 32-bit integer. */
  function ToInt32(p: u32): (i: int32)
    ensures i % 0x1_0000_0000 == p
    ensures i < 0 <==> p >= 0x8000_0000
  {
    if p >= 0x8000_0000 then p - 0x1_0000_0000 else p
  }

  /** The payload that stores a 32-bit integer. */
  function FromInt32(i: int32): (p: u32)
    ensures ToInt32(p) == i
  {
    if i < 0 then i + 0x1_0000_0000 else i
  }

  lemma FromToInt32(p: u32)
    ensures FromInt32(ToInt32(p)) == p
  {
  }

  /**
   * Loads one value from its header and the auxiliary stream. The single-precision
   * conversion of a float payload is a parameter; it is not part of this model.
   */
  function LoadValue(t: TagNode, aux: seq<byte>, single: u32 -> real): (r: Result<Loaded, LoadError>)
    ensures r.Success? ==> r.value.used <= |aux|
    ensures r.Success? && r.value.used > 0 ==> t.tag in {TagString, TagLongString}
    ensures r.Success? <==> KnownTag(t) && (t.tag == TagString ==> ShortStringFits(t, aux))
                                         && (t.tag == TagLongString ==> t.payload <= |aux|)
    ensures r.Success? ==> (r.value.value.None? <==> t.tag == TagNull)
  {
    if t.tag == TagNull then Success(Loaded(None, 0))
    else if t.tag == TagInteger then Success(Loaded(Some(IntegerValue(ToInt32(t.payload))), 0))
    else if t.tag == TagBoolean then Success(Loaded(Some(BooleanValue(t.payload != 0)), 0))
    else if t.tag == TagFloat then Success(Loaded(Some(FloatValue(single(t.payload))), 0))
    else if t.tag == TagString then
      if t.payload == 0 then Success(Loaded(Some(StringValue([])), 0))
      else if |aux| == 0 || |aux| < 1 + aux[0] as int then Failure(StreamTooShort)
      else Success(Loaded(Some(StringValue(aux[1..1 + aux[0] as int])), 1 + aux[0] as int))
    else if t.tag == TagLongString then
      if |aux| < t.payload then Failure(StreamTooShort)
      else Success(Loaded(Some(StringValue(aux[..t.payload])), t.payload))
    else if IsReal48(t) then Success(Loaded(Some(FloatValue(Decode(t))), 0))
    else Failure(UnknownTag(t.tag))
  }

  /** A Real48 record: the all-zero tag, or a non-zero exponent byte. */
  predicate IsReal48(t: TagNode) {
    t.tag == 0 || Exponent(t) != 0
  }

  predicate KnownTag(t: TagNode) {
    t.tag in {TagNull, TagInteger, TagBoolean, TagString, TagFloat, TagLongString} || IsReal48(t)
  }

  /** A non-empty short string needs its length byte and that many bytes of text. */
  predicate ShortStringFits(t: TagNode, aux: seq<byte>) {
    t.payload == 0 || (|aux| > 0 && 1 + aux[0] as int <= |aux|)
  }

  /** A value depends only on the auxiliary bytes it consumes. */
  lemma LoadValuePrefix(t: TagNode, aux: seq<byte>, more: seq<byte>, single: u32 -> real)
    requires LoadValue(t, aux, single).Success?
    ensures LoadValue(t, aux + more, single) == LoadValue(t, aux, single)
  {
    var r := LoadValue(t, aux, single);
    if t.tag == TagString && t.payload != 0 {
      assert (aux + more)[1..1 + aux[0] as int] == aux[1..1 + aux[0] as int];
    } else if t.tag == TagLongString {
      assert (aux + more)[..t.payload] == aux[..t.payload];
    }
  }

  /** Serializes a scalar value into a header; no auxiliary bytes are written for these. */
  function SaveScalar(v: Value): (t: TagNode)
    requires !v.StringValue?
    ensures v.IntegerValue? ==> t.tag == TagInteger
    ensures v.BooleanValue? ==> t.tag == TagBoolean && t.payload <= 1
    ensures v.FloatValue? ==> IsReal48(t)
  {
    match v
    case IntegerValue(i) => TagNode(TagInteger, FromInt32(i))
    case BooleanValue(b) => TagNode(TagBoolean, if b then 1 else 0)
    case FloatValue(f) => Encode(f)
  }

  /** Every Real48 record loads as the number it encodes, consuming no auxiliary bytes. */
  lemma LoadReal48(t: TagNode, aux: seq<byte>, single: u32 -> real)
    requires IsReal48(t)
    ensures LoadValue(t, aux, single) == Success(Loaded(Some(FloatValue(Decode(t))), 0))
  {
  }

  /** Integers and booleans load back exactly from their saved header. */
  lemma SaveLoadScalar(v: Value, aux: seq<byte>, single: u32 -> real)
    requires v.IntegerValue? || v.BooleanValue?
    ensures LoadValue(SaveScalar(v), aux, single) == Success(Loaded(Some(v), 0))
  {
  }

  /** A float loads back as its Real48 truncation: same sign and binade, never larger in magnitude. */
  lemma SaveLoadFloat(f: real, aux: seq<byte>, single: u32 -> real)
    requires SmallestMagnitude <= Abs(f) < ClampBound
    ensures LoadValue(SaveScalar(FloatValue(f)), aux, single) == Success(Loaded(Some(FloatValue(Decode(Encode(f)))), 0))
    ensures Abs(Decode(Encode(f))) <= Abs(f) && (Decode(Encode(f)) < 0.0 <==> f < 0.0)
  {
    var t := Encode(f);
    DecodeEncode(f);
    LoadReal48(t, aux, single);
    MagnitudeInBinade(Exponent(t), Mantissa(t));
    SmallestBelowClamp();
  }

  /**
   * Re-saving a loaded integer, a 0/1 boolean or a normalised Real48 record
   * reproduces the identical tag and payload.
   */
  lemma LoadSaveHeader(t: TagNode, aux: seq<byte>, single: u32 -> real)
    requires t.tag == TagInteger || (t.tag == TagBoolean && t.payload <= 1) || Exponent(t) != 0 || t == Zero
    ensures LoadValue(t, aux, single).Success?
    ensures SaveScalar(LoadValue(t, aux, single).value.value.value) == t
  {
    if t.tag == TagInteger {
      FromToInt32(t.payload);
    } else if t.tag == TagBoolean {
    } else if Exponent(t) != 0 {
      LoadReal48(t, aux, single);
      EncodeDecode(t);
    } else {
      LoadReal48(t, aux, single);
      ZeroExponentNormalises(t);
    }
  }

  // ---- Segments ----

  /** A segment of slots; a slot past the end reads as null. */
  type Segment = seq<Option<Value>>

  function At(seg: Segment, i: nat): Option<Value> {
    if i < |seg| then seg[i] else None
  }

  /** Stores v into slot i, growing the segment with null slots as needed. */
  function SetSlot(seg: Segment, i: nat, v: Option<Value>): (r: Segment)
    ensures At(r, i) == v
    ensures forall j: nat | j != i :: At(r, j) == At(seg, j)
  {
    if i < |seg| then seg[i := v]
    else seg + seq(i - |seg|, _ => None) + [v]
  }

  /** The six bytes of header k. */
  function RawAt(data: seq<byte>, k: nat): Raw
    requires 6 * k + 6 <= |data|
  {
    Raw(data[6 * k], data[6 * k + 1], data[6 * k + 2], data[6 * k + 3], data[6 * k + 4], data[6 * k + 5])
  }

  /** The n headers at the front of data. */
  function ReadHeaders(data: seq<byte>, n: nat): (hs: seq<TagNode>)
    requires 6 * n <= |data|
    ensures |hs| == n
  {
    seq(n, k requires 0 <= k < n => Record(RawAt(data, k)))
  }

  /** Each header read is the tag and payload whose six bytes sit at its position. */
  lemma ReadHeadersBytes(data: seq<byte>, n: nat)
    requires 6 * n <= |data|
    ensures forall k | 0 <= k < n :: Split(ReadHeaders(data, n)[k]) == RawAt(data, k)
  {
    forall k | 0 <= k < n
      ensures Split(ReadHeaders(data, n)[k]) == RawAt(data, k)
    {
      SplitRecord(RawAt(data, k));
    }
  }

  /** Loads the values of hs[i..] in order, each reading its bytes where the previous one stopped. */
  function LoadFrom(hs: seq<TagNode>, i: nat, aux: seq<byte>, single: u32 -> real): (r: Result<(seq<Option<Value>>, nat), LoadError>)
    requires i <= |hs|
    ensures r.Success? ==> |r.value.0| == |hs| - i && r.value.1 <= |aux|
    ensures r.Success? ==> forall k | i <= k < |hs| :: (r.value.0[k - i].None? <==> hs[k].tag == TagNull)
    decreases |hs| - i
  {
    if i == |hs| then Success(([], 0))
    else
      var first :- LoadValue(hs[i], aux, single);
      var rest :- LoadFrom(hs, i + 1, aux[first.used..], single);
      Success(([first.value] + rest.0, first.used + rest.1))
  }

  /** Writes vals into consecutive slots from start on. */
  function Store(seg: Segment, start: nat, vals: seq<Option<Value>>): (r: Segment)
    ensures forall j: nat | j < start || j >= start + |vals| :: At(r, j) == At(seg, j)
    ensures forall k | 0 <= k < |vals| :: At(r, start + k) == vals[k]
    decreases |vals|
  {
    if vals == [] then seg
    else Store(SetSlot(seg, start, vals[0]), start + 1, vals[1..])
  }

  /**
   * Loads n values into slots start..start+n-1: the n headers first, then the
   * auxiliary data in record order. Returns the new segment and the number of
   * bytes consumed.
   */
  function Load(seg: Segment, data: seq<byte>, start: nat, n: nat, single: u32 -> real): (r: Result<(Segment, nat), LoadError>)
    ensures r.Success? ==> 6 * n <= r.value.1 <= |data|
    ensures r.Success? ==> forall j: nat | j < start || j >= start + n :: At(r.value.0, j) == At(seg, j)
    ensures r.Success? ==> forall k | 0 <= k < n ::
              (At(r.value.0, start + k).None? <==> ReadHeaders(data, n)[k].tag == TagNull)
  {
    if |data| < 6 * n then Failure(StreamTooShort)
    else
      var loaded :- LoadFrom(ReadHeaders(data, n), 0, data[6 * n..], single);
      Success((Store(seg, start, loaded.0), 6 * n + loaded.1))
  }

  lemma {:induction false} LoadFromPrefix(hs: seq<TagNode>, i: nat, aux: seq<byte>, more: seq<byte>, single: u32 -> real)
    requires i <= |hs| && LoadFrom(hs, i, aux, single).Success?
    ensures LoadFrom(hs, i, aux + more, single) == LoadFrom(hs, i, aux, single)
    decreases |hs| - i
  {
    if i < |hs| {
      var first := LoadValue(hs[i], aux, single).value;
      var tail := aux[first.used..];
      LoadValuePrefix(hs[i], aux, more, single);
      assert (aux + more)[first.used..] == tail + more;
      LoadFromStep(hs, i, aux, single);
      LoadFromPrefix(hs, i + 1, tail, more, single);
      LoadFromCongruent(hs, i, aux + more, aux, single);
    }
  }

  /** Two inputs on which the first value and then the rest load alike load alike. */
  lemma LoadFromCongruent(hs: seq<TagNode>, i: nat, a: seq<byte>, b: seq<byte>, single: u32 -> real)
    requires i < |hs| && LoadValue(hs[i], a, single).Success? && LoadValue(hs[i], a, single) == LoadValue(hs[i], b, single)
    requires var used := LoadValue(hs[i], a, single).value.used;
      used <= |a| && used <= |b| && LoadFrom(hs, i + 1, a[used..], single) == LoadFrom(hs, i + 1, b[used..], single)
    ensures LoadFrom(hs, i, a, single) == LoadFrom(hs, i, b, single)
  {
    LoadFromStep(hs, i, a, single);
    LoadFromStep(hs, i, b, single);
  }

  /** One step of LoadFrom once the first value has loaded. */
  lemma LoadFromStep(hs: seq<TagNode>, i: nat, aux: seq<byte>, single: u32 -> real)
    requires i < |hs| && LoadValue(hs[i], aux, single).Success?
    ensures var first := LoadValue(hs[i], aux, single).value;
      && first.used <= |aux|
      && LoadFrom(hs, i, aux, single)
         == match LoadFrom(hs, i + 1, aux[first.used..], single)
            case Failure(e) => Failure(e)
            case Success(rest) => Success(([first.value] + rest.0, first.used + rest.1))
  {
  }

  /**
   * The auxiliary bytes a record occupies: a non-empty short string its
   * length byte and text, a long string as many bytes as its payload says,
   * every other record none; never more than what is left.
   */
  function AuxSize(t: TagNode, aux: seq<byte>): (n: nat)
    ensures n <= |aux|
  {
    var n :=
      if t.tag == TagString && t.payload != 0 && |aux| > 0 then 1 + aux[0] as int
      else if t.tag == TagLongString then t.payload
      else 0;
    if n <= |aux| then n else |aux|
  }

  /** A value that loads consumes exactly the auxiliary bytes its record occupies. */
  lemma LoadValueUsesAuxSize(t: TagNode, aux: seq<byte>, single: u32 -> real)
    requires LoadValue(t, aux, single).Success?
    ensures LoadValue(t, aux, single).value.used == AuxSize(t, aux)
  {
  }

  /**
   * Where record k's auxiliary bytes begin when records i.. read from aux:
   * after the bytes that records i..k-1 occupy, in record order.
   */
  function AuxOffset(hs: seq<TagNode>, aux: seq<byte>, i: nat, k: nat): (o: nat)
    requires i <= k <= |hs|
    ensures o <= |aux|
    decreases k - i
  {
    if i == k then 0
    else
      var n := AuxSize(hs[i], aux);
      n + AuxOffset(hs, aux[n..], i + 1, k)
  }

  /** Record k read from its own offset when records i.. read from aux. */
  function RecordAt(hs: seq<TagNode>, aux: seq<byte>, i: nat, k: nat, single: u32 -> real): Result<Loaded, LoadError>
    requires i <= k < |hs|
  {
    LoadValue(hs[k], aux[AuxOffset(hs, aux, i, k)..], single)
  }

  /** The records from i on load as record i followed by the records from i + 1 on, read after record i's bytes. */
  lemma LoadFromHeads(hs: seq<TagNode>, i: nat, a: seq<byte>, b: seq<byte>, single: u32 -> real)
    requires i < |hs| && LoadValue(hs[i], a, single).Success? && b == a[LoadValue(hs[i], a, single).value.used..]
    ensures LoadFrom(hs, i, a, single).Success? <==> LoadFrom(hs, i + 1, b, single).Success?
    ensures LoadFrom(hs, i + 1, b, single).Success? ==>
      var first := LoadValue(hs[i], a, single).value;
      LoadFrom(hs, i, a, single).value == ([first.value] + LoadFrom(hs, i + 1, b, single).value.0, first.used + LoadFrom(hs, i + 1, b, single).value.1)
  {
    LoadFromStep(hs, i, a, single);
  }

  /** The records from i on fail to load when record i does. */
  lemma LoadFromHeadFails(hs: seq<TagNode>, i: nat, aux: seq<byte>, single: u32 -> real)
    requires i < |hs|
    ensures LoadFrom(hs, i, aux, single).Success? ==> LoadValue(hs[i], aux, single).Success?
  {
  }

  /** Record k reads from the same bytes whether counted from record i or from record i + 1 after record i's bytes. */
  lemma RecordAtShift(hs: seq<TagNode>, aux: seq<byte>, i: nat, k: nat, single: u32 -> real)
    requires i < k < |hs|
    ensures RecordAt(hs, aux, i, k, single) == RecordAt(hs, aux[AuxSize(hs[i], aux)..], i + 1, k, single)
  {
    var n := AuxSize(hs[i], aux);
    assert aux[n..][AuxOffset(hs, aux[n..], i + 1, k)..] == aux[AuxOffset(hs, aux, i, k)..];
  }

  /**
   * Loading the records hs[i..] from aux succeeds exactly when every one of
   * them loads from its own offset.
   */
  lemma {:induction false} LoadFromSucceeds(hs: seq<TagNode>, i: nat, aux: seq<byte>, single: u32 -> real)
    requires i <= |hs|
    ensures LoadFrom(hs, i, aux, single).Success? <==> forall k | i <= k < |hs| :: RecordAt(hs, aux, i, k, single).Success?
    decreases |hs| - i
  {
    if i < |hs| {
      RecordAtFirst(hs, aux, i, single);
      LoadFromHeadFails(hs, i, aux, single);
      if LoadValue(hs[i], aux, single).Success? {
        var n := AuxSize(hs[i], aux);
        LoadValueUsesAuxSize(hs[i], aux, single);
        LoadFromHeads(hs, i, aux, aux[n..], single);
        LoadFromSucceeds(hs, i + 1, aux[n..], single);
        var tail, next := aux[n..], i + 1;
        if forall k | next <= k < |hs| :: RecordAt(hs, tail, next, k, single).Success? {
          forall k | i <= k < |hs|
            ensures RecordAt(hs, aux, i, k, single).Success?
          {
            if k > i {
              RecordAtShift(hs, aux, i, k, single);
            }
          }
        } else {
          var k :| next <= k < |hs| && RecordAt(hs, tail, next, k, single).Failure?;
          RecordAtShift(hs, aux, i, k, single);
        }
      }
    }
  }

  /** Counted from record i, record i reads from the start. */
  lemma RecordAtFirst(hs: seq<TagNode>, aux: seq<byte>, i: nat, single: u32 -> real)
    requires i < |hs|
    ensures RecordAt(hs, aux, i, i, single) == LoadValue(hs[i], aux, single)
  {
    assert aux[0..] == aux;
  }

  /** In a successful load of hs[i..] from aux, record k holds the value read at its own offset. */
  lemma {:induction false} LoadFromRecord(hs: seq<TagNode>, i: nat, aux: seq<byte>, k: nat, single: u32 -> real)
    requires i <= k < |hs| && LoadFrom(hs, i, aux, single).Success?
    ensures RecordAt(hs, aux, i, k, single).Success?
    ensures LoadFrom(hs, i, aux, single).value.0[k - i] == RecordAt(hs, aux, i, k, single).value.value
    decreases k - i
  {
    var first := LoadValue(hs[i], aux, single);
    RecordAtFirst(hs, aux, i, single);
    LoadFromHeadFails(hs, i, aux, single);
    var n := AuxSize(hs[i], aux);
    LoadValueUsesAuxSize(hs[i], aux, single);
    LoadFromHeads(hs, i, aux, aux[n..], single);
    var r := LoadFrom(hs, i, aux, single).value.0;
    var rest := LoadFrom(hs, i + 1, aux[n..], single).value.0;
    assert r == [first.value.value] + rest;
    if k > i {
      LoadFromRecord(hs, i + 1, aux[n..], k, single);
      RecordAtShift(hs, aux, i, k, single);
      assert r[k - i] == rest[k - (i + 1)];
    }
  }

  /** A successful load of hs[i..] from aux consumes the bytes all those records occupy. */
  lemma {:induction false} LoadFromConsumed(hs: seq<TagNode>, i: nat, aux: seq<byte>, single: u32 -> real)
    requires i <= |hs| && LoadFrom(hs, i, aux, single).Success?
    ensures LoadFrom(hs, i, aux, single).value.1 == AuxOffset(hs, aux, i, |hs|)
    decreases |hs| - i
  {
    if i < |hs| {
      LoadFromHeadFails(hs, i, aux, single);
      var n := AuxSize(hs[i], aux);
      LoadValueUsesAuxSize(hs[i], aux, single);
      LoadFromHeads(hs, i, aux, aux[n..], single);
      LoadFromConsumed(hs, i + 1, aux[n..], single);
    }
  }

  /**
   * Loading n values reads the n headers first and then each record's
   * auxiliary bytes in record order: it succeeds exactly when the headers are
   * present and every record loads from its offset in the bytes after them.
   * Slot start + k then holds record k's value, and the bytes consumed are
   * the headers plus every record's auxiliary bytes.
   */
  lemma LoadContents(seg: Segment, data: seq<byte>, start: nat, n: nat, single: u32 -> real)
    ensures var r := Load(seg, data, start, n, single);
      && (r.Success? <==>
            6 * n <= |data| && forall k | 0 <= k < n :: RecordAt(ReadHeaders(data, n), data[6 * n..], 0, k, single).Success?)
      && (r.Success? ==>
            && r.value.1 == 6 * n + AuxOffset(ReadHeaders(data, n), data[6 * n..], 0, n)
            && forall k | 0 <= k < n ::
                 At(r.value.0, start + k) == RecordAt(ReadHeaders(data, n), data[6 * n..], 0, k, single).value.value)
  {
    if 6 * n <= |data| {
      var hs := ReadHeaders(data, n);
      var aux := data[6 * n..];
      LoadFromSucceeds(hs, 0, aux, single);
      if LoadFrom(hs, 0, aux, single).Success? {
        var loaded := LoadFrom(hs, 0, aux, single).value;
        var r := Load(seg, data, start, n, single);
        assert r == Success((Store(seg, start, loaded.0), 6 * n + loaded.1));
        LoadFromConsumed(hs, 0, aux, single);
        forall k | 0 <= k < n
          ensures At(r.value.0, start + k) == RecordAt(hs, aux, 0, k, single).value.value
        {
          LoadFromRecord(hs, 0, aux, k, single);
          assert At(r.value.0, start + k) == loaded.0[k];
        }
      }
    }
  }

  lemma ReadHeadersPrefix(data: seq<byte>, more: seq<byte>, n: nat)
    requires 6 * n <= |data|
    ensures ReadHeaders(data + more, n) == ReadHeaders(data, n)
  {
    forall k | 0 <= k < n
      ensures ReadHeaders(data + more, n)[k] == ReadHeaders(data, n)[k]
    {
      assert RawAt(data + more, k) == RawAt(data, k);
    }
  }

  /** Bytes after the consumed ones are never read: appending to the stream changes nothing. */
  lemma LoadIgnoresTrailing(seg: Segment, data: seq<byte>, more: seq<byte>, start: nat, n: nat, single: u32 -> real)
    requires Load(seg, data, start, n, single).Success?
    ensures Load(seg, data + more, start, n, single) == Load(seg, data, start, n, single)
  {
    var hs := ReadHeaders(data, n);
    var aux := data[6 * n..];
    assert LoadFrom(hs, 0, aux, single).Success?;
    ReadHeadersPrefix(data, more, n);
    assert (data + more)[6 * n..] == aux + more;
    LoadFromPrefix(hs, 0, aux, more, single);
    LoadAgrees(seg, data, data + more, start, n, single);
  }

  /** Two streams with the same headers whose auxiliary data loads the same way load the same segment. */
  lemma LoadAgrees(seg: Segment, d1: seq<byte>, d2: seq<byte>, start: nat, n: nat, single: u32 -> real)
    requires 6 * n <= |d1| && 6 * n <= |d2| && ReadHeaders(d1, n) == ReadHeaders(d2, n)
    requires LoadFrom(ReadHeaders(d1, n), 0, d1[6 * n..], single) == LoadFrom(ReadHeaders(d2, n), 0, d2[6 * n..], single)
    ensures Load(seg, d1, start, n, single) == Load(seg, d2, start, n, single)
  {
  }

  /** The six bytes of a record in file order. */
  function RawBytes(r: Raw): seq<byte> {
    [r.b0, r.b1, r.b2, r.b3, r.b4, r.b5]
  }

  /** Headers serialized one after the other, six bytes each. */
  function WriteHeaders(ts: seq<TagNode>): (d: seq<byte>)
    ensures |d| == 6 * |ts|
    ensures forall k | 0 <= k < |ts| :: RawAt(d, k) == Split(ts[k])
  {
    if ts == [] then []
    else
      var d := RawBytes(Split(ts[0])) + WriteHeaders(ts[1..]);
      assert forall k | 1 <= k < |ts| :: RawAt(d, k) == RawAt(WriteHeaders(ts[1..]), k - 1);
      d
  }

  /** Reading back written headers, whatever follows them, yields the same tags and payloads. */
  lemma ReadWrittenHeaders(ts: seq<TagNode>, aux: seq<byte>)
    ensures ReadHeaders(WriteHeaders(ts) + aux, |ts|) == ts
  {
    ReadHeadersPrefix(WriteHeaders(ts), aux, |ts|);
    var hs := ReadHeaders(WriteHeaders(ts), |ts|);
    forall k | 0 <= k < |ts|
      ensures hs[k] == ts[k]
    {
      SplitRecord(Split(ts[k]));
    }
  }

  // ---- The two segment scenarios of the loader tests ----

  /**
   * Nine headers as the test data lists them: a Real48 zero, the integer 1029,
   * null, an empty short string, true, a 7-byte long string, a short string
   * read from the stream, the Real48 with exponent 0x83 and an IEEE single 3.0.
   */
  const NineTags: seq<TagNode> := [
    TagNode(0, 0), TagNode(TagInteger, 1029), TagNode(TagNull, 0), TagNode(TagString, 0), TagNode(TagBoolean, 1),
    TagNode(TagLongString, 7), TagNode(TagString, 0x1_0000), TagNode(0x83, 0x2000_0000), TagNode(TagFloat, 0x4040_0000)
  ]

  /** "abcdefg" for the long string, then length byte 3 and "XYZ" for the short one. */
  const NineAux: seq<byte> := [0x61, 0x62, 0x63, 0x64, 0x65, 0x66, 0x67, 3, 0x58, 0x59, 0x5A]

  /** "123", which follows the segment and must stay unread. */
  const Trailing: seq<byte> := [0x31, 0x32, 0x33]

  /** r succeeded with exactly these slots and this many auxiliary bytes. */
  predicate Yields(r: Result<(seq<Option<Value>>, nat), LoadError>, vals: seq<Option<Value>>, used: nat) {
    r.Success? && r.value.0 == vals && r.value.1 == used
  }

  /** The last four headers read all eleven auxiliary bytes. */
  lemma NineValuesTail(hs: seq<TagNode>, single: u32 -> real)
    requires hs == NineTags
    ensures Yields(LoadFrom(hs, 5, NineAux + Trailing, single),
                   [Some(StringValue([0x61, 0x62, 0x63, 0x64, 0x65, 0x66, 0x67])), Some(StringValue([0x58, 0x59, 0x5A])),
                    Some(FloatValue(Decode(TagNode(0x83, 0x2000_0000)))), Some(FloatValue(single(0x4040_0000)))], 11)
  {
    var aux := NineAux + Trailing;
    var tail := aux[11..];
    var v7 := Some(FloatValue(Decode(TagNode(0x83, 0x2000_0000))));
    var v8 := Some(FloatValue(single(0x4040_0000)));
    assert Yields(LoadFrom(hs, 8, tail, single), [v8], 0);
    LoadReal48(hs[7], tail, single);
    assert Yields(LoadFrom(hs, 7, tail, single), [v7, v8], 0);
    assert aux[7..][4..] == tail;
    assert aux[7..][1..4] == aux[8..11] == [0x58, 0x59, 0x5A];
    assert Yields(LoadFrom(hs, 6, aux[7..], single), [Some(StringValue([0x58, 0x59, 0x5A])), v7, v8], 4);
    assert aux[..7] == [0x61, 0x62, 0x63, 0x64, 0x65, 0x66, 0x67];
  }

  /** The first five headers read nothing from the stream: they prepend their slots to what follows. */
  lemma NineValuesHead(hs: seq<TagNode>, r: seq<Option<Value>>, used: nat, single: u32 -> real)
    requires hs == NineTags && Yields(LoadFrom(hs, 5, NineAux + Trailing, single), r, used)
    ensures Yields(LoadFrom(hs, 0, NineAux + Trailing, single),
                   [Some(FloatValue(0.0)), Some(IntegerValue(1029)), None, Some(StringValue([])), Some(BooleanValue(true))] + r,
                   used)
  {
    var aux := NineAux + Trailing;
    var r2 := [None, Some(StringValue([])), Some(BooleanValue(true))] + r;
    assert Yields(LoadFrom(hs, 2, aux, single), r2, used) by {
      assert Yields(LoadFrom(hs, 4, aux, single), [Some(BooleanValue(true))] + r, used);
      assert Yields(LoadFrom(hs, 3, aux, single), [Some(StringValue([])), Some(BooleanValue(true))] + r, used);
    }
    assert Yields(LoadFrom(hs, 1, aux, single), [Some(IntegerValue(1029))] + r2, used);
    LoadReal48(hs[0], aux, single);
    assert Yields(LoadFrom(hs, 0, aux, single), [Some(FloatValue(0.0)), Some(IntegerValue(1029))] + r2, used);
  }

  /** The slots the nine headers produce, in order. */
  function NineExpected(single: u32 -> real): seq<Option<Value>> {
    [Some(FloatValue(0.0)), Some(IntegerValue(1029)), None, Some(StringValue([])), Some(BooleanValue(true)),
     Some(StringValue([0x61, 0x62, 0x63, 0x64, 0x65, 0x66, 0x67])), Some(StringValue([0x58, 0x59, 0x5A])),
     Some(FloatValue(Decode(TagNode(0x83, 0x2000_0000)))), Some(FloatValue(single(0x4040_0000)))]
  }

  /** The nine headers load in order and consume all eleven auxiliary bytes. */
  lemma LoadNineHeaders(hs: seq<TagNode>, single: u32 -> real)
    requires hs == NineTags
    ensures Yields(LoadFrom(hs, 0, NineAux + Trailing, single), NineExpected(single), 11)
  {
    NineValuesTail(hs, single);
    var rest := LoadFrom(hs, 5, NineAux + Trailing, single).value;
    NineValuesHead(hs, rest.0, rest.1, single);
  }

  /**
   * Loading the nine values into an empty segment consumes 54 header bytes
   * and 11 string bytes, leaves the trailing "123" unread and fills the slots
   * in order.
   */
  lemma LoadNineValues(data: seq<byte>, single: u32 -> real)
    requires data == WriteHeaders(NineTags) + (NineAux + Trailing)
    ensures Load([], data, 0, 9, single).Success?
    ensures Load([], data, 0, 9, single).value.1 == 65
    ensures forall k | 0 <= k < 9 :: At(Load([], data, 0, 9, single).value.0, k) == NineExpected(single)[k]
    ensures At(Load([], data, 0, 9, single).value.0, 9) == None
  {
    var aux := NineAux + Trailing;
    ReadWrittenHeaders(NineTags, aux);
    assert data[54..] == aux;
    LoadNineHeaders(ReadHeaders(data, 9), single);
  }

  /** The integer 1029 and null. */
  const MiddleTags: seq<TagNode> := [TagNode(TagInteger, 1029), TagNode(TagNull, 0)]

  /**
   * Loading two values into the middle of a four-slot segment replaces
   * exactly slots 1 and 2 and reads only the twelve header bytes; data is any
   * stream holding the headers of the integer 1029 and null, such as
   * WriteHeaders(MiddleTags).
   */
  lemma LoadIntoMiddle(seg: Segment, data: seq<byte>, single: u32 -> real)
    requires seg == [None, None, Some(IntegerValue(42)), Some(IntegerValue(23))]
    requires |data| == 12 && ReadHeaders(data, 2) == MiddleTags
    ensures Load(seg, data, 1, 2, single).Success?
    ensures Load(seg, data, 1, 2, single).value.1 == 12
    ensures At(Load(seg, data, 1, 2, single).value.0, 0) == None
    ensures At(Load(seg, data, 1, 2, single).value.0, 1) == Some(IntegerValue(1029))
    ensures At(Load(seg, data, 1, 2, single).value.0, 2) == None
    ensures At(Load(seg, data, 1, 2, single).value.0, 3) == Some(IntegerValue(23))
  {
    MiddleLoaded(ReadHeaders(data, 2), data[12..], single);
    assert At(seg, 0) == None && At(seg, 3) == Some(IntegerValue(23));
  }

  lemma MiddleLoaded(hs: seq<TagNode>, aux: seq<byte>, single: u32 -> real)
    requires hs == MiddleTags && aux == []
    ensures Yields(LoadFrom(hs, 0, aux, single), [Some(IntegerValue(1029)), None], 0)
  {
    assert Yields(LoadFrom(hs, 1, aux, single), [None], 0);
  }
}
