/**
 * The header of a v3 result file: the section addresses it lists, their
 * validation against the file size, and the detection of the Winplan
 * extension with its version number.
 *
 * The header fields arrive already decoded; the file is represented by its
 * size and by what a 4-byte read at a position returns.
 */
module ResultFile {
  import opened Wrappers
  import opened Strings

  type int32 = x: int | -0x8000_0000 <= x < 0x8000_0000

  /** The sections, in the order of their slots. The first eight are listed in every header. */
  datatype Section = ShipSection | TargetSection | PlanetSection | BaseSection | MessageSection
                   | ShipXYSection | GenSection | VcrSection | KoreSection | LeechSection | SkoreSection

  const NumSections: nat := 11

  function Index(s: Section): (i: nat)
    ensures i < NumSections
  {
    match s
    case ShipSection => 0 case TargetSection => 1 case PlanetSection => 2 case BaseSection => 3
    case MessageSection => 4 case ShipXYSection => 5 case GenSection => 6 case VcrSection => 7
    case KoreSection => 8 case LeechSection => 9 case SkoreSection => 10
  }

  /** The section in slot i of the header's address list. */
  function HeaderSection(i: nat): (s: Section)
    requires i < 8
    ensures Index(s) == i
  {
    [ShipSection, TargetSection, PlanetSection, BaseSection, MessageSection, ShipXYSection, GenSection, VcrSection][i]
  }

  /** The size of the Winplan part that precedes the Kore section's marker. */
  const WinSize: nat := 500 * 8 + 50 * 12 + 50 * 4 + 682 + 7800

  /** File sizes are unsigned 64-bit values. */
  const SizeModulus: nat := 0x1_0000_0000_0000_0000

  datatype Header = Header(address: seq<int32>, signature: seq<char>, addressWindows: int32, addressLeech: int32, addressSkore: int32)

  predicate WellFormedHeader(h: Header) {
    |h.address| == 8 && |h.signature| == 8
  }

  /** The version found (-1 when the file is not a Winplan result) and each section's 0-based offset, 0 when absent. */
  datatype Info = Info(version: int, offsets: seq<nat>)

  datatype FormatError = NotRegularFile | InvalidAddress(section: Section)

  predicate ValidInfo(r: Info) {
    |r.offsets| == NumSections
  }

  function Initial(): (r: Info)
    ensures ValidInfo(r) && r.version == -1
    ensures forall i | 0 <= i < NumSections :: r.offsets[i] == 0
  {
    Info(-1, seq(NumSections, _ => 0))
  }

  predicate HasSection(r: Info, s: Section)
    requires ValidInfo(r)
  {
    r.offsets[Index(s)] > 0
  }

  /** The section's offset, only when the section is present. */
  function SectionOffset(r: Info, s: Section): (o: Option<nat>)
    requires ValidInfo(r)
    ensures o.Some? <==> HasSection(r, s)
    ensures o.Some? ==> o.value == r.offsets[Index(s)] && o.value > 0
  {
    if HasSection(r, s) then Some(r.offsets[Index(s)]) else None
  }

  /**
   * Records a section's address as read from the file (1-based). Addresses
   * inside the 32-byte header or at or beyond the end of the file are errors.
   */
  function SetSectionAddress(r: Info, s: Section, address: int, size: nat): (res: Result<Info, FormatError>)
    requires ValidInfo(r)
    ensures res.Success? <==> 32 <= address < size
    ensures res.Failure? ==> res.error == InvalidAddress(s)
    ensures res.Success? ==> ValidInfo(res.value) && res.value.version == r.version
    ensures res.Success? ==> res.value.offsets == r.offsets[Index(s) := address - 1]
  {
    if address < 32 || address >= size then Failure(InvalidAddress(s))
    else Success(r.(offsets := r.offsets[Index(s) := address - 1]))
  }

  /** A recorded section is present at its address less one. */
  lemma SetSectionMakesPresent(r: Info, s: Section, address: int, size: nat)
    requires ValidInfo(r) && SetSectionAddress(r, s, address, size).Success?
    ensures var q := SetSectionAddress(r, s, address, size).value;
      HasSection(q, s) && SectionOffset(q, s) == Some(address - 1)
      && forall t: Section | t != s :: SectionOffset(q, t) == SectionOffset(r, t)
  {
    var q := SetSectionAddress(r, s, address, size).value;
    forall t: Section | t != s
      ensures SectionOffset(q, t) == SectionOffset(r, t)
    {
      assert Index(t) != Index(s);
    }
  }

  /** Records the first n header addresses, stopping at the first invalid one. */
  function SetHeaderAddresses(r: Info, h: Header, size: nat, n: nat): (res: Result<Info, FormatError>)
    requires ValidInfo(r) && WellFormedHeader(h) && n <= 8
    ensures res.Success? ==> ValidInfo(res.value) && res.value.version == r.version
  {
    if n == 0 then Success(r)
    else
      var prev :- SetHeaderAddresses(r, h, size, n - 1);
      SetSectionAddress(prev, HeaderSection(n - 1), h.address[n - 1], size)
  }

  /** The first n header addresses lie between the header and the end of the file. */
  predicate AddressesValid(h: Header, size: nat, n: nat)
    requires WellFormedHeader(h) && n <= 8
  {
    forall i | 0 <= i < n :: 32 <= h.address[i] < size
  }

  /** Recording succeeds exactly when all n addresses are valid, and then records each less one. */
  lemma {:induction false} HeaderAddressesChecked(r: Info, h: Header, size: nat, n: nat)
    requires ValidInfo(r) && WellFormedHeader(h) && n <= 8
    ensures var res := SetHeaderAddresses(r, h, size, n);
      && (res.Success? <==> AddressesValid(h, size, n))
      && (res.Success? ==> forall i | 0 <= i < NumSections ::
            res.value.offsets[i] == if i < n then h.address[i] - 1 else r.offsets[i])
  {
    if n > 0 {
      HeaderAddressesChecked(r, h, size, n - 1);
    }
  }

  /** A failure names the first invalid address. */
  lemma {:induction false} HeaderAddressesFirstError(r: Info, h: Header, size: nat, n: nat) returns (i: nat)
    requires ValidInfo(r) && WellFormedHeader(h) && n <= 8 && SetHeaderAddresses(r, h, size, n).Failure?
    ensures i < n && SetHeaderAddresses(r, h, size, n).error == InvalidAddress(HeaderSection(i))
    ensures !(32 <= h.address[i] < size) && AddressesValid(h, size, i)
  {
    var prev := SetHeaderAddresses(r, h, size, n - 1);
    if prev.Success? {
      HeaderAddressesChecked(r, h, size, n - 1);
      i := n - 1;
    } else {
      i := HeaderAddressesFirstError(r, h, size, n - 1);
    }
  }

  /** "VER3.5" followed by two digits. */
  predicate Version35Signature(sig: seq<char>)
    requires |sig| == 8
  {
    sig[..6] == "VER3.5" && IsDigit(sig[6]) && IsDigit(sig[7])
  }

  /**
   * The bounds check on the Kore offset as the source computes it: the file
   * size less WinSize is unsigned, so for files smaller than WinSize it
   * wraps around and every non-negative offset passes.
   */
  predicate KoreOffsetInRange(koreOffset: int, size: nat) {
    koreOffset >= 0 && koreOffset <= (size - WinSize) % SizeModulus
  }

  /** The marker after the Winplan part of the Kore section. */
  predicate KoreMarker(buf: seq<int>) {
    buf == ['1' as int, '2' as int, '1' as int, '1' as int] || buf == ['1' as int, '1' as int, '2' as int, '0' as int]
  }

  /** Whether the header and the Kore marker identify a Winplan result file. */
  predicate IsWinplan(h: Header, size: nat, readAt: int -> seq<int>)
    requires WellFormedHeader(h)
  {
    var koreOffset := h.addressWindows as int - 1;
    Version35Signature(h.signature) && KoreOffsetInRange(koreOffset, size) && KoreMarker(readAt(koreOffset + WinSize))
  }

  /** The two digits of the signature. */
  function SignatureVersion(h: Header): (v: nat)
    requires WellFormedHeader(h) && Version35Signature(h.signature)
    ensures v <= 99
  {
    10 * (h.signature[6] as int - '0' as int) + (h.signature[7] as int - '0' as int)
  }

  /**
   * Loads and checks the header: a file of size 0 is not a regular file;
   * every one of the eight listed addresses must be valid; a Winplan file
   * has its version taken from the signature and its Kore, Leech (when
   * listed) and, from version 1 on, Skore addresses checked and recorded.
   */
  function LoadHeader(h: Header, size: nat, readAt: int -> seq<int>): (res: Result<Info, FormatError>)
    requires WellFormedHeader(h)
    ensures res.Success? ==> ValidInfo(res.value)
    ensures size == 0 ==> res == Failure(NotRegularFile)
  {
    if size == 0 then Failure(NotRegularFile)
    else
      var base :- SetHeaderAddresses(Initial(), h, size, 8);
      if !Version35Signature(h.signature) then Success(base)
      else
        var version := if IsWinplan(h, size, readAt) then SignatureVersion(h) else -1;
        var withVersion := base.(version := version);
        var withKore :-
          if version >= 0 then SetSectionAddress(withVersion, KoreSection, h.addressWindows, size)
          else Success(withVersion);
        var withLeech :-
          if version >= 0 && h.addressLeech > 0 then SetSectionAddress(withKore, LeechSection, h.addressLeech, size)
          else Success(withKore);
        if version >= 1 then SetSectionAddress(withLeech, SkoreSection, h.addressSkore, size)
        else Success(withLeech)
  }

  /**
   * A loaded header lists the eight sections at their addresses less one;
   * the version is the signature's number for a Winplan file and -1
   * otherwise; Kore is present exactly for Winplan files, Leech exactly when
   * also listed, Skore exactly from version 1 on.
   */
  lemma LoadedHeader(h: Header, size: nat, readAt: int -> seq<int>)
    requires WellFormedHeader(h) && LoadHeader(h, size, readAt).Success?
    ensures var r := LoadHeader(h, size, readAt).value;
      && (forall i | 0 <= i < 8 :: 32 <= h.address[i] < size && r.offsets[i] == h.address[i] - 1)
      && (r.version >= 0 <==> IsWinplan(h, size, readAt))
      && (r.version >= 0 ==> r.version == SignatureVersion(h))
      && (r.version < 0 ==> r.version == -1)
      && (HasSection(r, KoreSection) <==> r.version >= 0)
      && (HasSection(r, LeechSection) <==> r.version >= 0 && h.addressLeech > 0)
      && (HasSection(r, SkoreSection) <==> r.version >= 1)
  {
    HeaderAddressesChecked(Initial(), h, size, 8);
  }

  /** An invalid address among the eight listed ones rejects the file. */
  lemma InvalidListedAddressRejects(h: Header, size: nat, readAt: int -> seq<int>, i: nat)
    requires WellFormedHeader(h) && i < 8 && !(32 <= h.address[i] < size)
    ensures LoadHeader(h, size, readAt).Failure?
  {
    HeaderAddressesChecked(Initial(), h, size, 8);
  }

  /**
   * The range check cannot exclude a file smaller than the Winplan part, but
   * the marker read then runs past the end of the file, so such a file is
   * never taken for a Winplan file.
   */
  lemma SmallFileIsNotWinplan(h: Header, size: nat, readAt: int -> seq<int>)
    requires WellFormedHeader(h) && 0 < size < WinSize
    requires |readAt(h.addressWindows as int - 1 + WinSize)| < 4
    ensures !IsWinplan(h, size, readAt)
    ensures h.addressWindows >= 1 ==> KoreOffsetInRange(h.addressWindows as int - 1, size)
  {
  }
}
