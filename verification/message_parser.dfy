/**
 * The message-template parser: reading the template definition file into a
 * list of templates, parsing the scope prefix of check instructions, and
 * turning the values a matching template produced into information records.
 *
 * Matching a template against a message, the abbreviation matcher for
 * keywords, number parsing and the keyword-to-index tables are not part of
 * this model; they enter as the functions of an `Oracles` value.
 */
module MessageParser {
  import opened Wrappers
  import opened Strings

  type Text = seq<char>
  type int8 = x: int | -0x80 <= x < 0x80
  type u16 = x: int | 0 <= x < 0x1_0000

  /** The services the parser calls but that are not modelled here. */
  datatype Oracles = Oracles(
    stringMatch: (Text, Text) -> bool,   // abbreviation match: pattern, text
    toU16: Text -> Option<u16>,          // decimal conversion of a BIgid value
    parseInt: Text -> int,               // integer conversion of a produced value
    stringIndex: Text -> Option<nat>,    // string attribute of a variable name
    intIndex: Text -> Option<nat>,       // integer attribute of a variable name
    variables: Template -> seq<Text>)    // the variable names a template assigns

  // ---- Check instructions and their scope prefix ----

  datatype Scope = AnyLine | Relative | Fixed
  datatype CheckOp = Check | Fail | Find | Parse | Array

  datatype Instruction =
    | MatchKind(kind: char)
    | MatchSubId(subId: char)
    | MatchBigId(bigId: u16)
    | CheckInstr(op: CheckOp, scope: Scope, offset: int8, text: Text)
    | ValueInstr(values: Text)
    | Variables(names: Text)

  /** Conversion of an int to int8: two's-complement wrap-around. */
  function Wrap8(x: int): (r: int8)
    ensures (r - x) % 0x100 == 0
    ensures -0x80 <= x < 0x80 ==> r == x
  {
    (x + 0x80) % 0x100 - 0x80
  }

  /** The digit loop of the prefix parser: each step is narrowed to int8. */
  function Accumulate8(s: Text): int8
    requires AllDigits(s)
  {
    if s == [] then 0 else Wrap8(10 * Accumulate8(s[..|s| - 1]) + DigitValue(s[|s| - 1]))
  }

  /** A digit string whose value fits into int8 accumulates without wrapping. */
  lemma {:induction false} AccumulateExact(s: Text)
    requires AllDigits(s)
    requires Decimal(s) < 0x80
    ensures Accumulate8(s) == Decimal(s)
  {
    if s != [] {
      var p := s[..|s| - 1];
      assert AllDigits(p);
      assert Decimal(p) <= Decimal(s);
      AccumulateExact(p);
    }
  }

  /** The end of the run of digits starting at i. */
  function DigitsEnd(line: Text, i: nat): (j: nat)
    requires i <= |line|
    ensures i <= j <= |line|
    ensures forall k | i <= k < j :: IsDigit(line[k])
    ensures j < |line| ==> !IsDigit(line[j])
    decreases |line| - i
  {
    if i < |line| && IsDigit(line[i]) then DigitsEnd(line, i + 1) else i
  }

  /** The end of the run of blanks starting at i. */
  function BlanksEnd(line: Text, i: nat): (j: nat)
    requires i <= |line|
    ensures i <= j <= |line|
    ensures forall k | i <= k < j :: line[k] == ' '
    ensures j < |line| ==> line[j] != ' '
    decreases |line| - i
  {
    if i < |line| && line[i] == ' ' then BlanksEnd(line, i + 1) else i
  }

  /** The scope a prefix character selects. */
  function ScopeOf(c: char): Scope {
    if c == '+' || c == '-' then Relative else if c == '=' then Fixed else AnyLine
  }

  /**
   * A check-type instruction with its optional scope prefix: "+n," searches
   * the n-th line below, "-n," the n-th line above, "=n," line n. The prefix
   * and the blanks after the comma are removed. Without a comma after the
   * digits the scope reverts to any line, the text stays whole, and the
   * offset keeps the digits read so far.
   */
  function ParseCheck(op: CheckOp, line: Text): (r: Instruction)
    ensures r.CheckInstr? && r.op == op
    ensures r.scope == AnyLine ==> r.text == line
    ensures r.scope != AnyLine ==> |line| > 0 && r.scope == ScopeOf(line[0])
    ensures r.scope != AnyLine ==> |r.text| < |line| && r.text == line[|line| - |r.text|..]
  {
    if line == [] || ScopeOf(line[0]) == AnyLine then CheckInstr(op, AnyLine, 0, line)
    else
      var j := DigitsEnd(line, 1);
      var offset := Accumulate8(line[1..j]);
      if j < |line| && line[j] == ',' then
        var k := BlanksEnd(line, j + 1);
        CheckInstr(op, ScopeOf(line[0]), Wrap8(if line[0] == '-' then -(offset as int) else offset as int), line[k..])
      else CheckInstr(op, AnyLine, offset, line)
  }

  /** The text of a check instruction with a valid prefix: sign, digits, comma, blanks. */
  function Prefixed(sign: char, digits: Text, blanks: nat, text: Text): Text {
    [sign] + digits + [','] + seq(blanks, _ => ' ') + text
  }

  /**
   * Parsing undoes Prefixed: the scope comes from the sign, the offset is the
   * digits' value (negated for '-'), and the text is what followed the blanks.
   */
  lemma ParsePrefixed(op: CheckOp, sign: char, digits: Text, blanks: nat, text: Text)
    requires sign == '+' || sign == '-' || sign == '='
    requires AllDigits(digits)
    requires Decimal(digits) < 0x80
    requires text == [] || text[0] != ' '
    ensures ParseCheck(op, Prefixed(sign, digits, blanks, text))
         == CheckInstr(op, ScopeOf(sign), if sign == '-' then -Decimal(digits) else Decimal(digits), text)
  {
    var line := Prefixed(sign, digits, blanks, text);
    var n := |digits|;
    PrefixedEnds(sign, digits, blanks, text);
    AccumulateExact(digits);
    assert ScopeOf(line[0]) == ScopeOf(sign) != AnyLine;
    ValidPrefix(op, line, n + 1, n + 2 + blanks);
    var offset := Accumulate8(line[1..n + 1]) as int;
    assert offset == Decimal(digits);
    assert Wrap8(if sign == '-' then -offset else offset) == if sign == '-' then -Decimal(digits) else Decimal(digits);
  }

  /** In a prefixed text the digits end at the comma and the blanks end where the text begins. */
  lemma PrefixedEnds(sign: char, digits: Text, blanks: nat, text: Text)
    requires AllDigits(digits)
    requires text == [] || text[0] != ' '
    ensures var line := Prefixed(sign, digits, blanks, text);
      var n := |digits|;
      && n + 1 < |line| && line[0] == sign && line[1..n + 1] == digits && line[n + 1] == ','
      && DigitsEnd(line, 1) == n + 1 && BlanksEnd(line, n + 2) == n + 2 + blanks
      && line[n + 2 + blanks..] == text
  {
    var line := Prefixed(sign, digits, blanks, text);
    var n := |digits|;
    PrefixedShape(sign, digits, blanks, text);
    DigitsEndOver(line, 1, n + 1);
    BlanksEndOver(line, n + 2, n + 2 + blanks);
  }

  /** ParseCheck on a line whose digits end at j with a comma, the blanks after it ending at k. */
  lemma ValidPrefix(op: CheckOp, line: Text, j: nat, k: nat)
    requires 1 <= j < |line| && ScopeOf(line[0]) != AnyLine
    requires DigitsEnd(line, 1) == j && line[j] == ',' && BlanksEnd(line, j + 1) == k
    ensures var offset := Accumulate8(line[1..j]) as int;
      ParseCheck(op, line) == CheckInstr(op, ScopeOf(line[0]), Wrap8(if line[0] == '-' then -offset else offset), line[k..])
  {
  }

  /** Where the parts of a prefixed text sit. */
  lemma PrefixedShape(sign: char, digits: Text, blanks: nat, text: Text)
    requires AllDigits(digits)
    ensures var line := Prefixed(sign, digits, blanks, text);
      var n := |digits|;
      && |line| == n + 2 + blanks + |text|
      && line[0] == sign
      && line[1..n + 1] == digits
      && (forall k | 1 <= k < n + 1 :: IsDigit(line[k]))
      && line[n + 1] == ','
      && (forall k | n + 2 <= k < n + 2 + blanks :: line[k] == ' ')
      && line[n + 2 + blanks..] == text
  {
    var line := Prefixed(sign, digits, blanks, text);
    var n := |digits|;
    var pre := [sign] + digits + [','];
    var spaces: Text := seq(blanks, _ => ' ');
    assert line == pre + spaces + text;
    assert forall k | 1 <= k < n + 1 :: line[k] == digits[k - 1];
    assert forall k | n + 2 <= k < n + 2 + blanks :: line[k] == spaces[k - n - 2];
  }

  lemma {:induction false} DigitsEndOver(line: Text, i: nat, j: nat)
    requires i <= j < |line|
    requires forall k | i <= k < j :: IsDigit(line[k])
    requires !IsDigit(line[j])
    ensures DigitsEnd(line, i) == j
    decreases j - i
  {
    if i < j {
      DigitsEndOver(line, i + 1, j);
    }
  }

  lemma {:induction false} BlanksEndOver(line: Text, i: nat, j: nat)
    requires i <= j <= |line|
    requires forall k | i <= k < j :: line[k] == ' '
    requires j == |line| || line[j] != ' '
    ensures BlanksEnd(line, i) == j
    decreases j - i
  {
    if i < j {
      BlanksEndOver(line, i + 1, j);
    }
  }

  /** A line that does not start with a prefix character is taken whole, with any-line scope and offset 0. */
  lemma UnprefixedLine(op: CheckOp, line: Text)
    requires line == [] || (line[0] != '+' && line[0] != '-' && line[0] != '=')
    ensures ParseCheck(op, line) == CheckInstr(op, AnyLine, 0, line)
  {
  }

  /** Digits not followed by a comma back out: any-line scope and the whole text. */
  lemma PrefixWithoutComma(op: CheckOp, line: Text)
    requires |line| > 0 && ScopeOf(line[0]) != AnyLine
    requires DigitsEnd(line, 1) == |line| || line[DigitsEnd(line, 1)] != ','
    ensures ParseCheck(op, line).scope == AnyLine && ParseCheck(op, line).text == line
  {
  }

  /** The digits are narrowed to int8 as they are read: "+200," is the offset -56. */
  lemma OffsetWraps(op: CheckOp, line: Text)
    requires line == "+200,x"
    ensures ParseCheck(op, line) == CheckInstr(op, Relative, -56, "x")
  {
    assert line == Prefixed('+', "200", 0, "x");
    PrefixedShape('+', "200", 0, "x");
    assert DigitsEnd(line, 1) == 4 by {
      DigitsEndOver(line, 1, 4);
    }
    assert Accumulate8(line[1..4]) == -56 by {
      AccumulateTwoHundred();
    }
    assert BlanksEnd(line, 5) == 5;
  }

  /** 2, then 20, then 200 narrowed to -56. */
  lemma AccumulateTwoHundred()
    ensures Accumulate8("200") == -56
  {
    assert "200"[..2] == "20" && "20"[..1] == "2" && "2"[..0] == "";
    assert Accumulate8("2") == 2;
    assert Accumulate8("20") == 20;
  }

  // ---- Loading the template file ----

  datatype ObjectType =
    | Ship | Planet | Starbase | Minefield | IonStorm
    | PlayerScore | Configuration | Alliance | Explosion | NoObject

  datatype Template = Template(kind: ObjectType, name: Text, instructions: seq<Instruction>, continueFlag: bool)

  datatype Problem = MissingDelimiter | UnknownObjectKind | InvalidNumber | UnknownKeyword

  /** A problem found at a line, counting lines from 1. */
  datatype Diagnostic = Diagnostic(line: nat, problem: Problem)

  /**
   * The loader's state: the templates so far, the index of the template that
   * assignments go to (none after an unknown object kind), the problems found.
   */
  datatype LoadState = LoadState(templates: seq<Template>, current: Option<nat>, diagnostics: seq<Diagnostic>)

  /** No template has the kind NoObject. */
  predicate KnownKinds(st: LoadState) {
    forall i | 0 <= i < |st.templates| :: st.templates[i].kind != NoObject
  }

  /** The current template, when there is one, is the last one. */
  predicate CurrentIsLast(st: LoadState) {
    st.current.Some? ==> st.current.value + 1 == |st.templates|
  }

  /** The position of the first '=' or ','. */
  function Delimiter(s: Text): (p: Option<nat>)
    ensures p.Some? ==> p.value < |s| && (s[p.value] == '=' || s[p.value] == ',')
    ensures p.Some? ==> forall k | 0 <= k < p.value :: s[k] != '=' && s[k] != ','
    ensures p.None? ==> forall k | 0 <= k < |s| :: s[k] != '=' && s[k] != ','
  {
    if s == [] then None
    else if s[0] == '=' || s[0] == ',' then Some(0)
    else match Delimiter(s[1..])
      case None => None
      case Some(q) => Some(q + 1)
  }

  /** The object kind a template line names, by abbreviation, first match wins. */
  function KindOf(o: Oracles, kind: Text): ObjectType {
    if o.stringMatch("Minefield", kind) then Minefield
    else if o.stringMatch("Planet", kind) then Planet
    else if o.stringMatch("Base", kind) then Starbase
    else if o.stringMatch("PLAYerscore", kind) then PlayerScore
    else if o.stringMatch("Ship", kind) then Ship
    else if o.stringMatch("Ionstorm", kind) then IonStorm
    else if o.stringMatch("Configuration", kind) then Configuration
    else if o.stringMatch("Explosion", kind) then Explosion
    else if o.stringMatch("Alliance", kind) then Alliance
    else NoObject
  }

  /** What one assignment line does to its template: an instruction, a flag, or a problem. */
  datatype Assignment = Add(instr: Instruction) | SetContinue(flag: bool) | Nothing | Report(problem: Problem)

  function AssignmentOf(o: Oracles, lhs: Text, rhs: Text): Assignment {
    if o.stringMatch("KInd", lhs) then (if |rhs| > 0 then Add(MatchKind(rhs[0])) else Nothing)
    else if o.stringMatch("SUbid", lhs) then (if |rhs| > 0 then Add(MatchSubId(rhs[0])) else Nothing)
    else if o.stringMatch("BIgid", lhs) then
      (match o.toU16(rhs) case Some(n) => Add(MatchBigId(n)) case None => Report(InvalidNumber))
    else if o.stringMatch("CHeck", lhs) then Add(ParseCheck(Check, rhs))
    else if o.stringMatch("FAil", lhs) then Add(ParseCheck(Fail, rhs))
    else if o.stringMatch("FInd", lhs) then Add(ParseCheck(Find, rhs))
    else if o.stringMatch("PArse", lhs) then Add(ParseCheck(Parse, rhs))
    else if o.stringMatch("ARray", lhs) then Add(ParseCheck(Array, rhs))
    else if o.stringMatch("VAlues", lhs) then Add(ValueInstr(rhs))
    else if o.stringMatch("ASsign", lhs) then Add(Variables(rhs))
    else if o.stringMatch("COntinue", lhs) then SetContinue(o.stringMatch("Yes", rhs))
    else Report(UnknownKeyword)
  }

  /** Applies an assignment to template t. */
  function Apply(t: Template, a: Assignment): (r: Template)
    ensures r.kind == t.kind && r.name == t.name
  {
    match a
    case Add(instr) => t.(instructions := t.instructions + [instr])
    case SetContinue(flag) => t.(continueFlag := flag)
    case _ => t
  }

  /** A line that is blank or a comment once trimmed. */
  predicate Ignored(line: Text) {
    var t := Trim(line);
    t == [] || t[0] == ';'
  }

  /** A line starting a template: its first delimiter is a comma. */
  predicate StartsTemplate(line: Text) {
    var t := Trim(line);
    !Ignored(line) && Delimiter(t).Some? && t[Delimiter(t).value] == ','
  }

  /** The object kind of a template line. */
  function TemplateKind(o: Oracles, line: Text): ObjectType
    requires StartsTemplate(line)
  {
    var t := Trim(line);
    KindOf(o, Trim(t[..Delimiter(t).value]))
  }

  /** Processes line number n (counted from 1). */
  function LoadLine(o: Oracles, st: LoadState, line: Text, n: nat): (r: LoadState)
    requires CurrentIsLast(st)
    ensures CurrentIsLast(r)
    ensures KnownKinds(st) ==> KnownKinds(r)
  {
    var t := Trim(line);
    if Ignored(line) then st
    else match Delimiter(t)
      case None => st.(diagnostics := st.diagnostics + [Diagnostic(n, MissingDelimiter)])
      case Some(p) =>
        if t[p] == ',' then
          var kind := KindOf(o, Trim(t[..p]));
          if kind == NoObject then
            st.(current := None, diagnostics := st.diagnostics + [Diagnostic(n, UnknownObjectKind)])
          else
            st.(templates := st.templates + [Template(kind, Trim(t[p + 1..]), [], false)], current := Some(|st.templates|))
        else match st.current
          case None => st
          case Some(c) =>
            match AssignmentOf(o, Trim(t[..p]), Trim(t[p + 1..]))
            case Report(problem) => st.(diagnostics := st.diagnostics + [Diagnostic(n, problem)])
            case a => st.(templates := st.templates[c := Apply(st.templates[c], a)])
  }

  /** Loads lines[i..], the first of them being line number i + 1. */
  function LoadFrom(o: Oracles, st: LoadState, lines: seq<Text>, i: nat): (r: LoadState)
    requires i <= |lines| && CurrentIsLast(st)
    ensures CurrentIsLast(r)
    ensures KnownKinds(st) ==> KnownKinds(r)
    decreases |lines| - i
  {
    if i == |lines| then st else LoadFrom(o, LoadLine(o, st, lines[i], i + 1), lines, i + 1)
  }

  /** Reads a template file. */
  function Load(o: Oracles, lines: seq<Text>): (r: LoadState)
    ensures CurrentIsLast(r) && KnownKinds(r)
  {
    LoadFrom(o, LoadState([], None, []), lines, 0)
  }

  /** Blank and comment lines change nothing. */
  lemma IgnoredLineNoop(o: Oracles, st: LoadState, line: Text, n: nat)
    requires CurrentIsLast(st) && Ignored(line)
    ensures LoadLine(o, st, line, n) == st
  {
  }

  /** A line with neither '=' nor ',' is reported and otherwise skipped. */
  lemma MissingDelimiterReported(o: Oracles, st: LoadState, line: Text, n: nat)
    requires CurrentIsLast(st) && !Ignored(line) && Delimiter(Trim(line)).None?
    ensures LoadLine(o, st, line, n) == st.(diagnostics := st.diagnostics + [Diagnostic(n, MissingDelimiter)])
  {
  }

  /**
   * After a template line of unknown kind there is no current template, so
   * assignment lines change no template until the next template line.
   */
  lemma OrphanAssignmentIgnored(o: Oracles, st: LoadState, line: Text, n: nat)
    requires CurrentIsLast(st) && st.current.None? && !StartsTemplate(line)
    ensures LoadLine(o, st, line, n).templates == st.templates
    ensures LoadLine(o, st, line, n).current.None?
  {
  }

  /** A template line of unknown kind is reported and leaves no current template; the templates stay. */
  lemma UnknownKindClearsCurrent(o: Oracles, st: LoadState, line: Text, n: nat)
    requires CurrentIsLast(st) && StartsTemplate(line) && TemplateKind(o, line) == NoObject
    ensures LoadLine(o, st, line, n) == st.(current := None, diagnostics := st.diagnostics + [Diagnostic(n, UnknownObjectKind)])
  {
  }

  /** A template line of known kind appends a fresh template and makes it current. */
  lemma TemplateLineAppends(o: Oracles, st: LoadState, line: Text, n: nat)
    requires CurrentIsLast(st) && StartsTemplate(line) && TemplateKind(o, line) != NoObject
    ensures var r := LoadLine(o, st, line, n);
      && |r.templates| == |st.templates| + 1
      && r.templates[..|st.templates|] == st.templates
      && r.templates[|st.templates|].kind == TemplateKind(o, line)
      && r.templates[|st.templates|].instructions == []
      && !r.templates[|st.templates|].continueFlag
      && r.current == Some(|st.templates|)
  {
  }

  /** An assignment line changes at most the current template, and never the object kinds. */
  lemma AssignmentTouchesCurrentOnly(o: Oracles, st: LoadState, line: Text, n: nat)
    requires CurrentIsLast(st) && !StartsTemplate(line)
    ensures var r := LoadLine(o, st, line, n);
      && |r.templates| == |st.templates| && r.current == st.current
      && forall i | 0 <= i < |st.templates| ::
           r.templates[i].kind == st.templates[i].kind && (st.current != Some(i) ==> r.templates[i] == st.templates[i])
  {
  }

  /** The number of template lines of known kind in lines[i..]. */
  function KnownTemplateLines(o: Oracles, lines: seq<Text>, i: nat): nat
    requires i <= |lines|
    decreases |lines| - i
  {
    if i == |lines| then 0
    else (if StartsTemplate(lines[i]) && TemplateKind(o, lines[i]) != NoObject then 1 else 0)
         + KnownTemplateLines(o, lines, i + 1)
  }

  /** Loading creates exactly one template per template line of known kind, keeping the earlier ones. */
  lemma {:induction false} LoadCountsTemplates(o: Oracles, st: LoadState, lines: seq<Text>, i: nat)
    requires i <= |lines| && CurrentIsLast(st)
    ensures |LoadFrom(o, st, lines, i).templates| == |st.templates| + KnownTemplateLines(o, lines, i)
    decreases |lines| - i
  {
    if i < |lines| {
      var line := lines[i];
      var next := LoadLine(o, st, line, i + 1);
      if StartsTemplate(line) && TemplateKind(o, line) != NoObject {
        TemplateLineAppends(o, st, line, i + 1);
      } else if StartsTemplate(line) {
        assert |next.templates| == |st.templates|;
      } else {
        AssignmentTouchesCurrentOnly(o, st, line, i + 1);
      }
      LoadCountsTemplates(o, next, lines, i + 1);
    }
  }


  /** Reading a file yields one template per template line of known kind. */
  lemma LoadTemplateCount(o: Oracles, lines: seq<Text>)
    ensures |Load(o, lines).templates| == KnownTemplateLines(o, lines, 0)
  {
    LoadCountsTemplates(o, LoadState([], None, []), lines, 0);
  }

  // ---- Producing information from a matching template ----

  datatype Item =
    | ConfigItem(key: Text, setting: Text)
    | ScoreItem(player: int, score: int)
    | StringItem(sIndex: nat, s: Text)
    | IntItem(iIndex: nat, number: int)

  /** The information about one object gathered from the messages of one turn. */
  datatype Information = Information(kind: ObjectType, id: int, turn: int, items: seq<Item>)

  /** Object kinds identified by a mandatory positive Id. */
  predicate NeedsId(k: ObjectType) {
    k == Ship || k == Minefield || k == Planet || k == Starbase || k == IonStorm
  }

  /** The slot of the first variable named "ID", if any. */
  function IdSlot(names: seq<Text>): (r: Option<nat>)
    ensures r.Some? ==> r.value < |names| && names[r.value] == "ID"
    ensures r.Some? ==> forall k | 0 <= k < r.value :: names[k] != "ID"
    ensures r.None? ==> forall k | 0 <= k < |names| :: names[k] != "ID"
  {
    if names == [] then None
    else if names[0] == "ID" then Some(0)
    else match IdSlot(names[1..])
      case None => None
      case Some(q) => Some(q + 1)
  }

  /** The slot holding the Id, which is not processed as a value: only kinds with an Id look for it. */
  function SkipSlot(kind: ObjectType, names: seq<Text>): Option<nat> {
    if NeedsId(kind) || kind == PlayerScore then IdSlot(names) else None
  }

  /** The Id the values give; 0 without an Id slot. */
  function IdOf(o: Oracles, kind: ObjectType, names: seq<Text>, values: seq<Text>): int {
    match SkipSlot(kind, names)
    case Some(s) => if s < |values| then o.parseInt(values[s]) else 0
    case None => 0
  }

  /** Whether a record may be merged into the previous record for the same object. */
  predicate Mergeable(kind: ObjectType, id: int) {
    NeedsId(kind) || kind == Configuration || (kind == PlayerScore && id != 0)
  }

  /**
   * The SCORE splitting loop: each comma ends a field; a non-empty field is
   * the score of player pl, and pl advances for every field, empty or not.
   */
  function ScorePairs(all: Text, pl: int): seq<(int, Text)>
    decreases |all|
  {
    match FirstComma(all)
    case Some(n) => (if n != 0 then [(pl, all[..n])] else []) + ScorePairs(all[n + 1..], pl + 1)
    case None => if all != [] then [(pl, all)] else []
  }

  /** The non-empty fields numbered from pl, reference definition of the SCORE values. */
  function NumberedFields(fields: seq<Text>, pl: int): (r: seq<(int, Text)>)
    ensures forall k | 0 <= k < |r| :: pl <= r[k].0 < pl + |fields| && r[k].1 == fields[r[k].0 - pl] && r[k].1 != []
  {
    if fields == [] then []
    else (if fields[0] != [] then [(pl, fields[0])] else []) + NumberedFields(fields[1..], pl + 1)
  }

  /** Every non-empty field is numbered by its position. */
  lemma {:induction false} NumberedFieldsComplete(fields: seq<Text>, pl: int, j: nat)
    requires j < |fields| && fields[j] != []
    ensures (pl + j, fields[j]) in NumberedFields(fields, pl)
  {
    if j > 0 {
      NumberedFieldsComplete(fields[1..], pl + 1, j - 1);
    }
  }

  /**
   * Splitting joined comma-free fields numbers the non-empty ones, counting
   * the empty ones too: "10,,30" gives players 1 and 3.
   */
  lemma {:induction false} ScorePairsNumberFields(fields: seq<Text>, pl: int)
    requires |fields| > 0
    requires forall j | 0 <= j < |fields| :: CommaFree(fields[j])
    ensures ScorePairs(Join(fields), pl) == NumberedFields(fields, pl)
    decreases |fields|
  {
    var s := Join(fields);
    if |fields| == 1 {
      assert FirstComma(s).None?;
    } else {
      var f := fields[0];
      assert s == f + [','] + Join(fields[1..]);
      assert FirstComma(s) == Some(|f|) by {
        assert forall k | 0 <= k < |f| :: s[k] == f[k];
        assert s[|f|] == ',';
      }
      assert s[..|f|] == f;
      assert s[|f| + 1..] == Join(fields[1..]);
      ScorePairsNumberFields(fields[1..], pl + 1);
    }
  }

  /** Whether a value named `name` is a relative integer: "+NAME" or "-NAME" with NAME an integer keyword. */
  predicate IsRelative(o: Oracles, kind: ObjectType, name: Text) {
    && kind != Configuration && !(kind == PlayerScore && name == "SCORE")
    && o.stringIndex(name).None? && o.intIndex(name).None?
    && |name| > 0 && (name[0] == '+' || name[0] == '-') && o.intIndex(name[1..]).Some?
  }

  /** An item that may stand where `before` stood: the same item, or an integer item of the same index. */
  predicate SameSlot(now: Item, before: Item) {
    now == before || (now.IntItem? && before.IntItem? && now.iIndex == before.iIndex)
  }

  /**
   * Appends the record's items for one value: a configuration record takes
   * every value as a key/value pair, a score record splits SCORE into
   * per-player scores, other values go to their string or integer keyword,
   * and a relative value adjusts an existing integer item. Any other name
   * adds nothing.
   */
  function AddItem(o: Oracles, kind: ObjectType, name: Text, value: Text, items: seq<Item>): (r: seq<Item>)
    requires name != []
    ensures |r| >= |items|
    ensures forall k | 0 <= k < |items| :: SameSlot(r[k], items[k])
    ensures !IsRelative(o, kind, name) ==> r[..|items|] == items
    ensures IsRelative(o, kind, name) ==> |r| == |items|
    ensures kind == Configuration ==> r == items + [ConfigItem(name, value)]
    ensures kind == PlayerScore && name == "SCORE" ==>
      var pairs := ScorePairs(value, 1);
      && |r| == |items| + |pairs|
      && forall k | 0 <= k < |pairs| :: r[|items| + k] == ScoreItem(pairs[k].0, o.parseInt(pairs[k].1))
    ensures kind != Configuration && !(kind == PlayerScore && name == "SCORE") && o.stringIndex(name).Some? ==>
      r == items + [StringItem(o.stringIndex(name).value, value)]
    ensures kind != Configuration && !(kind == PlayerScore && name == "SCORE") && o.stringIndex(name).None? && o.intIndex(name).Some? ==>
      r == items + [IntItem(o.intIndex(name).value, o.parseInt(value))]
    ensures (&& kind != Configuration && !(kind == PlayerScore && name == "SCORE")
             && o.stringIndex(name).None? && o.intIndex(name).None? && !IsRelative(o, kind, name))
            ==> r == items
  {
    if kind == Configuration then items + [ConfigItem(name, value)]
    else if kind == PlayerScore && name == "SCORE" then
      var pairs := ScorePairs(value, 1);
      items + seq(|pairs|, k requires 0 <= k < |pairs| => ScoreItem(pairs[k].0, o.parseInt(pairs[k].1)))
    else match o.stringIndex(name)
      case Some(m) => items + [StringItem(m, value)]
      case None =>
        match o.intIndex(name)
        case Some(m) => items + [IntItem(m, o.parseInt(value))]
        case None =>
          if (name[0] == '+' || name[0] == '-') && o.intIndex(name[1..]).Some? then
            var delta := o.parseInt(value);
            Adjust(items, o.intIndex(name[1..]).value, if name[0] == '-' then -delta else delta)
          else items
  }

  /** Adds delta to the first integer item with the given index; nothing if there is none. */
  function Adjust(items: seq<Item>, index: nat, delta: int): (r: seq<Item>)
    ensures |r| == |items|
    ensures forall k | 0 <= k < |items| ::
      r[k] == (if FirstIntItem(items, index) == Some(k) then IntItem(index, items[k].number + delta) else items[k])
  {
    match FirstIntItem(items, index)
    case None => items
    case Some(k) => items[k := IntItem(index, items[k].number + delta)]
  }

  /** The position of the first integer item with the given index. */
  function FirstIntItem(items: seq<Item>, index: nat): (p: Option<nat>)
    ensures p.Some? ==> p.value < |items| && items[p.value].IntItem? && items[p.value].iIndex == index
    ensures p.Some? ==> forall k | 0 <= k < p.value :: !(items[k].IntItem? && items[k].iIndex == index)
    ensures p.None? ==> forall k | 0 <= k < |items| :: !(items[k].IntItem? && items[k].iIndex == index)
  {
    if items == [] then None
    else if items[0].IntItem? && items[0].iIndex == index then Some(0)
    else match FirstIntItem(items[1..], index)
      case None => None
      case Some(q) => Some(q + 1)
  }

  /** Whether slot i is skipped: an empty value, the Id slot, or a placeholder name. */
  predicate Skipped(skip: Option<nat>, name: Text, value: Text, i: nat) {
    value == [] || skip == Some(i) || name == "_" || name == []
  }

  /** Whether some slot i.. below the limit is processed and holds a relative value. */
  predicate AnyRelative(o: Oracles, kind: ObjectType, names: seq<Text>, values: seq<Text>, skip: Option<nat>, i: nat) {
    exists k | i <= k < |names| && k < |values| :: !Skipped(skip, names[k], values[k], k) && IsRelative(o, kind, names[k])
  }

  /**
   * Processes the slots i.. below the limit. Existing items keep their
   * place; without a relative value among the processed slots they stay
   * exactly as they were and new items are only appended.
   */
  function AddItems(o: Oracles, kind: ObjectType, names: seq<Text>, values: seq<Text>, skip: Option<nat>, i: nat, items: seq<Item>): (r: seq<Item>)
    requires i <= |names| && i <= |values|
    ensures |r| >= |items|
    ensures forall k | 0 <= k < |items| :: SameSlot(r[k], items[k])
    ensures !AnyRelative(o, kind, names, values, skip, i) ==> r[..|items|] == items
    decreases |values| - i
  {
    if i == |names| || i == |values| then items
    else if Skipped(skip, names[i], values[i], i) then AddItems(o, kind, names, values, skip, i + 1, items)
    else AddItems(o, kind, names, values, skip, i + 1, AddItem(o, kind, names[i], values[i], items))
  }

  /**
   * The records after one template produced values: records of kinds with a
   * mandatory Id need a positive Id; a mergeable result about the same
   * object and turn as the last record extends it, otherwise a new record is
   * appended. Alliance records get no values.
   */
  function GenerateOutput(o: Oracles, kind: ObjectType, names: seq<Text>, values: seq<Text>, turn: int, info: seq<Information>): seq<Information> {
    var id := IdOf(o, kind, names, values);
    if NeedsId(kind) && id <= 0 then info
    else
      var merge := MergesInto(kind, id, turn, info);
      var base := if merge then info[|info| - 1] else Information(kind, id, turn, []);
      var items := if kind == Alliance then base.items
                   else AddItems(o, kind, names, values, SkipSlot(kind, names), 0, base.items);
      if merge then info[..|info| - 1] + [base.(items := items)] else info + [base.(items := items)]
  }

  /** Whether a result for (kind, id, turn) merges into the last record. */
  predicate MergesInto(kind: ObjectType, id: int, turn: int, info: seq<Information>) {
    Mergeable(kind, id) && |info| > 0
    && info[|info| - 1].kind == kind && info[|info| - 1].id == id && info[|info| - 1].turn == turn
  }

  /** A ship, minefield, planet, base or storm without a positive Id produces nothing. */
  lemma MissingIdProducesNothing(o: Oracles, kind: ObjectType, names: seq<Text>, values: seq<Text>, turn: int, info: seq<Information>)
    requires NeedsId(kind) && IdOf(o, kind, names, values) <= 0
    ensures GenerateOutput(o, kind, names, values, turn, info) == info
  {
  }

  /**
   * Otherwise the output either replaces the last record by an extension of
   * it, exactly when the result merges, or appends one new record; all
   * earlier records are kept.
   */
  lemma MergeOrAppend(o: Oracles, kind: ObjectType, names: seq<Text>, values: seq<Text>, turn: int, info: seq<Information>)
    requires !(NeedsId(kind) && IdOf(o, kind, names, values) <= 0)
    ensures var id := IdOf(o, kind, names, values);
      var r := GenerateOutput(o, kind, names, values, turn, info);
      && |r| > 0
      && r[|r| - 1].kind == kind && r[|r| - 1].id == id && r[|r| - 1].turn == turn
      && (MergesInto(kind, id, turn, info) <==> |r| == |info|)
      && (MergesInto(kind, id, turn, info) ==>
            r[..|info| - 1] == info[..|info| - 1] && |r[|r| - 1].items| >= |info[|info| - 1].items|)
      && (!MergesInto(kind, id, turn, info) ==> r[..|info|] == info)
  {
  }

  /**
   * Skipped slots contribute nothing: when every slot from i on has an empty
   * value, is the Id slot, or is named "_" or nothing, the items are unchanged.
   */
  lemma {:induction false} SkippedSlotsAddNothing(o: Oracles, kind: ObjectType, names: seq<Text>, values: seq<Text>, skip: Option<nat>, i: nat, items: seq<Item>)
    requires i <= |names| && i <= |values|
    requires forall k | i <= k < |names| && k < |values| :: Skipped(skip, names[k], values[k], k)
    ensures AddItems(o, kind, names, values, skip, i, items) == items
    decreases |values| - i
  {
    if i < |names| && i < |values| {
      SkippedSlotsAddNothing(o, kind, names, values, skip, i + 1, items);
    }
  }

  /**
   * A processed slot followed only by skipped ones contributes exactly what
   * AddItem makes of it.
   */
  lemma {:induction false} LastSlotAddsItem(o: Oracles, kind: ObjectType, names: seq<Text>, values: seq<Text>, skip: Option<nat>, i: nat, items: seq<Item>)
    requires i < |names| && i < |values| && !Skipped(skip, names[i], values[i], i)
    requires forall k | i < k < |names| && k < |values| :: Skipped(skip, names[k], values[k], k)
    ensures AddItems(o, kind, names, values, skip, i, items) == AddItem(o, kind, names[i], values[i], items)
  {
    SkippedSlotsAddNothing(o, kind, names, values, skip, i + 1, AddItem(o, kind, names[i], values[i], items));
  }

  /**
   * A "+NAME" or "-NAME" value adds or subtracts its number from the first
   * integer item of NAME's index; without such an item nothing changes.
   */
  lemma RelativeValueAdjusts(o: Oracles, kind: ObjectType, name: Text, value: Text, items: seq<Item>)
    requires |name| > 0 && (name[0] == '+' || name[0] == '-') && kind != Configuration
    requires o.stringIndex(name).None? && o.intIndex(name).None? && o.intIndex(name[1..]).Some?
    ensures var index := o.intIndex(name[1..]).value;
      var delta := if name[0] == '-' then -o.parseInt(value) else o.parseInt(value);
      var r := AddItem(o, kind, name, value, items);
      && |r| == |items|
      && (FirstIntItem(items, index).None? ==> r == items)
      && forall j | 0 <= j < |items| ::
           r[j] == if FirstIntItem(items, index) == Some(j) then IntItem(index, items[j].number + delta) else items[j]
  {
    assert name != "SCORE" by { assert "SCORE"[0] == 'S'; }
  }

  // ---- Parsing a message ----

  /**
   * Tries the templates i.. in order; `matcher` gives the values a template
   * produces on the message, or None when it does not match. Processing
   * stops after a matching template whose continue flag is clear.
   */
  function ParseFrom(o: Oracles, matcher: Template -> Option<seq<Text>>, tpls: seq<Template>, i: nat, turn: int, info: seq<Information>): seq<Information>
    requires i <= |tpls|
    decreases |tpls| - i
  {
    if i == |tpls| then info
    else match matcher(tpls[i])
      case None => ParseFrom(o, matcher, tpls, i + 1, turn, info)
      case Some(values) =>
        var next := GenerateOutput(o, tpls[i].kind, o.variables(tpls[i]), values, turn, info);
        if tpls[i].continueFlag then ParseFrom(o, matcher, tpls, i + 1, turn, next) else next
  }

  /** Parses one message whose header says it is `age` turns old. */
  function ParseMessage(o: Oracles, matcher: Template -> Option<seq<Text>>, tpls: seq<Template>, turn: int, age: int, info: seq<Information>): seq<Information> {
    ParseFrom(o, matcher, tpls, 0, turn - age, info)
  }

  /** A message no template matches adds no information. */
  lemma {:induction false} NoMatchNoInformation(o: Oracles, matcher: Template -> Option<seq<Text>>, tpls: seq<Template>, i: nat, turn: int, info: seq<Information>)
    requires i <= |tpls|
    requires forall k | i <= k < |tpls| :: matcher(tpls[k]).None?
    ensures ParseFrom(o, matcher, tpls, i, turn, info) == info
    decreases |tpls| - i
  {
    if i < |tpls| {
      NoMatchNoInformation(o, matcher, tpls, i + 1, turn, info);
    }
  }

  /**
   * The first matching template with a clear continue flag ends the search:
   * templates after it are never consulted.
   */
  lemma {:induction false} StopsAtFinalMatch(o: Oracles, matcher: Template -> Option<seq<Text>>, tpls: seq<Template>, more: seq<Template>, i: nat, k: nat, turn: int, info: seq<Information>)
    requires i <= k < |tpls|
    requires matcher(tpls[k]).Some? && !tpls[k].continueFlag
    ensures ParseFrom(o, matcher, tpls, i, turn, info) == ParseFrom(o, matcher, tpls[..k + 1] + more, i, turn, info)
    decreases k - i
  {
    var other := tpls[..k + 1] + more;
    assert other[i] == tpls[i];
    if i < k {
      StopsAtFinalMatch(o, matcher, tpls, more, i + 1, k, turn, info);
      match matcher(tpls[i])
      case None =>
      case Some(values) =>
        var next := GenerateOutput(o, tpls[i].kind, o.variables(tpls[i]), values, turn, info);
        StopsAtFinalMatch(o, matcher, tpls, more, i + 1, k, turn, next);
    }
  }
}
