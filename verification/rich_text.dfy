/**
 * The script functions on rich text: concatenation (RAdd), styles by name
 * (RStyle), links (RLink), substrings (RMid), and the plain text and length
 * (RString, RLen).
 *
 * Rich text is a character sequence with a list of attributed spans; the
 * text class itself is not part of this model, and its three operations used
 * here (append, add an attribute over the whole text, substring) are given
 * their evident meaning below. Script values arrive already classified; the
 * null value (EMPTY) is None.
 */
module RichTextFunctions {
  import opened Wrappers
  import opened Strings

  type Text = seq<char>

  datatype Style = Bold | Big | Fixed | Key | Small | Underline

  datatype SkinColor = Blue | Faded | Green | Red | Static | White | Yellow

  datatype Attribute =
    | StyleAttribute(style: Style)
    | ColorAttribute(color: SkinColor)
    | LinkAttribute(target: Text)

  /** An attribute on the characters start up to (excluding) end. */
  datatype Span = Span(start: nat, end: nat, attribute: Attribute)

  datatype Rich = Rich(text: Text, spans: seq<Span>)

  /** Every span lies within the text. */
  predicate ValidRich(t: Rich) {
    forall i | 0 <= i < |t.spans| :: t.spans[i].start <= t.spans[i].end <= |t.text|
  }

  const Empty := Rich([], [])

  // ---- The rich text operations ----

  /** The spans moved d characters to the right. */
  function Shift(spans: seq<Span>, d: nat): (r: seq<Span>)
    ensures |r| == |spans|
    ensures forall i | 0 <= i < |spans| ::
      r[i].start == spans[i].start + d && r[i].end == spans[i].end + d && r[i].attribute == spans[i].attribute
  {
    seq(|spans|, i requires 0 <= i < |spans| => spans[i].(start := spans[i].start + d, end := spans[i].end + d))
  }

  /** Appends b to a; b's attributes follow its text. */
  function Concat(a: Rich, b: Rich): (r: Rich)
    ensures |r.text| == |a.text| + |b.text| && |r.spans| == |a.spans| + |b.spans|
    ensures ValidRich(a) && ValidRich(b) ==> ValidRich(r)
  {
    Rich(a.text + b.text, a.spans + Shift(b.spans, |a.text|))
  }

  lemma ShiftZero(spans: seq<Span>)
    ensures Shift(spans, 0) == spans
  {
  }

  lemma ShiftAppend(x: seq<Span>, y: seq<Span>, d: nat)
    ensures Shift(x + y, d) == Shift(x, d) + Shift(y, d)
  {
  }

  lemma ShiftShift(x: seq<Span>, d: nat, e: nat)
    ensures Shift(Shift(x, d), e) == Shift(x, d + e)
  {
  }

  /** The empty text is neutral for appending. */
  lemma ConcatEmpty(t: Rich)
    ensures Concat(Empty, t) == t && Concat(t, Empty) == t
  {
    ShiftZero(t.spans);
    assert t.text + [] == t.text && t.spans + [] == t.spans;
  }

  /** Appending is associative, attributes included. */
  lemma ConcatAssociative(a: Rich, b: Rich, c: Rich)
    ensures Concat(Concat(a, b), c) == Concat(a, Concat(b, c))
  {
    ShiftAppend(b.spans, Shift(c.spans, |b.text|), |a.text|);
    ShiftShift(c.spans, |b.text|, |a.text|);
    assert (a.text + b.text) + c.text == a.text + (b.text + c.text);
  }

  /** A copy with one more attribute over the whole text. */
  function WithAttribute(t: Rich, a: Attribute): (r: Rich)
    ensures r.text == t.text && |r.spans| == |t.spans| + 1 && r.spans[..|t.spans|] == t.spans
    ensures r.spans[|t.spans|] == Span(0, |t.text|, a)
    ensures ValidRich(t) ==> ValidRich(r)
  {
    Rich(t.text, t.spans + [Span(0, |t.text|, a)])
  }

  function Min(a: nat, b: nat): nat {
    if a < b then a else b
  }

  /** x moved into lo..hi, counted from lo. */
  function Clip(x: nat, lo: nat, hi: nat): (r: nat)
    requires lo <= hi
    ensures r <= hi - lo
  {
    if x < lo then 0 else if x > hi then hi - lo else x - lo
  }

  /** At most n characters from pos; the spans are cut to that part. */
  function Substr(t: Rich, pos: nat, n: nat): (r: Rich)
    requires pos <= |t.text|
    ensures ValidRich(t) ==> ValidRich(r)
  {
    var end := Min(pos + n, |t.text|);
    Rich(t.text[pos..end],
         seq(|t.spans|, i requires 0 <= i < |t.spans| =>
           t.spans[i].(start := Clip(t.spans[i].start, pos, end), end := Clip(t.spans[i].end, pos, end))))
  }

  /**
   * Each span of a substring covers exactly those characters of the cut that
   * the original span covered, with the same attribute; a span wholly outside
   * the cut becomes empty.
   */
  lemma SubstrClipsSpans(t: Rich, pos: nat, n: nat)
    requires ValidRich(t) && pos <= |t.text|
    ensures var r := Substr(t, pos, n);
      && |r.spans| == |t.spans|
      && (forall i | 0 <= i < |t.spans| :: r.spans[i].attribute == t.spans[i].attribute)
      && forall i, j | 0 <= i < |t.spans| && 0 <= j < |r.text| ::
           r.text[j] == t.text[pos + j]
           && (r.spans[i].start <= j < r.spans[i].end <==> t.spans[i].start <= pos + j < t.spans[i].end)
  {
  }

  /** A substring from the start that reaches the end is the whole text. */
  lemma SubstrWhole(t: Rich, n: nat)
    requires ValidRich(t) && n >= |t.text|
    ensures Substr(t, 0, n) == t
  {
    assert t.text[0..|t.text|] == t.text;
  }

  // ---- Script values ----

  /** A script value: rich text, a string, an integer, or another value with its text form. */
  datatype Value = RichValue(rich: Rich) | StringValue(s: Text) | IntValue(n: int) | OtherValue(shown: Text)

  /** An argument; None is the null value. */
  type Arg = Option<Value>

  datatype Error = ArgumentCount | TypeError | RangeError | InvalidStyle

  /** The text form of a value. */
  function ShownText(v: Value): Text {
    match v
    case RichValue(r) => r.text
    case StringValue(s) => s
    case IntValue(n) => IntText(n)
    case OtherValue(shown) => shown
  }

  /**
   * An argument as rich text: nothing for null, rich text as it is, any other
   * value as its text form without attributes.
   */
  function CheckRichArg(v: Arg): (r: Option<Rich>)
    ensures r.None? <==> v.None?
    ensures r.Some? ==> r.value.text == ShownText(v.value)
    ensures r.Some? && !v.value.RichValue? ==> r.value.spans == []
  {
    match v
    case None => None
    case Some(RichValue(rich)) => Some(rich)
    case Some(other) => Some(Rich(ShownText(other), []))
  }

  /** A string argument: nothing for null, a type error for a value that is not a string. */
  function CheckStringArg(v: Arg): (r: Result<Option<Text>, Error>)
    ensures r.Success? && r.value.Some? <==> v.Some? && v.value.StringValue?
    ensures r.Failure? ==> r.error == TypeError
  {
    match v
    case None => Success(None)
    case Some(StringValue(s)) => Success(Some(s))
    case Some(_) => Failure(TypeError)
  }

  /** An integer argument within lo..hi: nothing for null, an error for a non-integer or out-of-range value. */
  function CheckIntegerArg(v: Arg, lo: int, hi: int): (r: Result<Option<int>, Error>)
    ensures r.Success? && r.value.Some? ==> lo <= r.value.value <= hi && v == Some(IntValue(r.value.value))
    ensures r.Success? && r.value.None? <==> v.None?
    ensures r.Failure? && r.error == RangeError <==> v.Some? && v.value.IntValue? && !(lo <= v.value.n <= hi)
  {
    match v
    case None => Success(None)
    case Some(IntValue(n)) => if n < lo || n > hi then Failure(RangeError) else Success(Some(n))
    case Some(_) => Failure(TypeError)
  }

  // ---- RAdd ----

  /** The general case: the arguments appended left to right, nothing once one is null. */
  function AddAll(args: seq<Arg>): (r: Option<Rich>)
    decreases |args|
  {
    if args == [] then Some(Empty)
    else
      var init :- AddAll(args[..|args| - 1]);
      var last :- CheckRichArg(args[|args| - 1]);
      Some(Concat(init, last))
  }

  /** RAdd: a single argument is only converted; otherwise all are appended. */
  function RAdd(args: seq<Arg>): (r: Option<Rich>)
  {
    if |args| == 1 then CheckRichArg(args[0]) else AddAll(args)
  }

  /** Whether one of the arguments is null. */
  predicate AnyNull(args: seq<Arg>) {
    exists i | 0 <= i < |args| :: args[i].None?
  }

  /** The text forms of the arguments, one after the other. */
  function ShownTexts(args: seq<Arg>): (s: Text)
    requires !AnyNull(args)
  {
    if args == [] then [] else ShownTexts(args[..|args| - 1]) + ShownText(args[|args| - 1].value)
  }

  /** The general case gives null exactly when an argument is null, and otherwise the texts in order. */
  lemma {:induction false} AddAllMeaning(args: seq<Arg>)
    ensures AddAll(args).None? <==> AnyNull(args)
    ensures AddAll(args).Some? ==> AddAll(args).value.text == ShownTexts(args)
    ensures (forall i | 0 <= i < |args| :: args[i].Some? && ValidArg(args[i].value)) ==> AddAll(args).Some? && ValidRich(AddAll(args).value)
    decreases |args|
  {
    if args != [] {
      var init := args[..|args| - 1];
      AddAllMeaning(init);
      assert forall i | 0 <= i < |init| :: init[i] == args[i];
      if AnyNull(init) {
        var i :| 0 <= i < |init| && init[i].None?;
        assert args[i].None?;
      }
    }
  }

  /** Rich text values hold valid rich text. */
  predicate ValidArg(v: Value) {
    v.RichValue? ==> ValidRich(v.rich)
  }

  /**
   * RAdd is null exactly when an argument is null, and otherwise holds the
   * arguments' texts in order; with no arguments it is the empty text, and
   * the single-argument shortcut gives what appending would.
   */
  lemma RAddMeaning(args: seq<Arg>)
    ensures RAdd(args).None? <==> AnyNull(args)
    ensures RAdd(args).Some? ==> RAdd(args).value.text == ShownTexts(args)
    ensures args == [] ==> RAdd(args) == Some(Empty)
    ensures RAdd(args) == AddAll(args)
  {
    AddAllMeaning(args);
    if |args| == 1 {
      assert args[..0] == [];
      if args[0].Some? {
        ConcatEmpty(CheckRichArg(args[0]).value);
      } else {
        assert AnyNull(args);
      }
    }
  }

  /** Appending the results for two argument lists is appending for the joined list. */
  lemma {:induction false} AddAllSplits(a: seq<Arg>, b: seq<Arg>)
    requires AddAll(a).Some? && AddAll(b).Some?
    ensures AddAll(a + b) == Some(Concat(AddAll(a).value, AddAll(b).value))
    decreases |b|
  {
    if b == [] {
      assert a + b == a;
      ConcatEmpty(AddAll(a).value);
    } else {
      var init := b[..|b| - 1];
      assert (a + b)[..|a + b| - 1] == a + init;
      assert (a + b)[|a + b| - 1] == b[|b| - 1];
      AddAllSplits(a, init);
      ConcatAssociative(AddAll(a).value, AddAll(init).value, CheckRichArg(b[|b| - 1]).value);
    }
  }

  // ---- Styles ----

  /** What a style name does: nothing, a text style, or a color. */
  datatype StyleEntry = NoStyle | AddStyle(style: Style) | AddColor(color: SkinColor)

  /**
   * The style table, searched in order for the first entry with the name.
   * The colors background, contrast, heading, input, invstatic, link,
   * linkfocus, linkshade and selection and the style italic are not listed.
   */
  function StyleByName(name: Text): (r: Option<StyleEntry>)
  {
    if name == "" then Some(NoStyle)
    else if name == "b" then Some(AddStyle(Bold))
    else if name == "big" then Some(AddStyle(Big))
    else if name == "blue" then Some(AddColor(Blue))
    else if name == "bold" then Some(AddStyle(Bold))
    else if name == "dim" then Some(AddColor(Faded))
    else if name == "em" then Some(AddStyle(Bold))
    else if name == "fixed" then Some(AddStyle(Fixed))
    else if name == "green" then Some(AddColor(Green))
    else if name == "kbd" then Some(AddStyle(Key))
    else if name == "key" then Some(AddStyle(Key))
    else if name == "none" then Some(NoStyle)
    else if name == "red" then Some(AddColor(Red))
    else if name == "small" then Some(AddStyle(Small))
    else if name == "static" then Some(AddColor(Static))
    else if name == "tt" then Some(AddStyle(Fixed))
    else if name == "u" then Some(AddStyle(Underline))
    else if name == "underline" then Some(AddStyle(Underline))
    else if name == "white" then Some(AddColor(White))
    else if name == "yellow" then Some(AddColor(Yellow))
    else None
  }

  /** The names of the table. */
  const StyleNames: set<Text> := {
    "", "b", "big", "blue", "bold", "dim", "em", "fixed", "green", "kbd", "key",
    "none", "red", "small", "static", "tt", "u", "underline", "white", "yellow"
  }

  /** Exactly the listed names are known. */
  lemma KnownStyleNames(name: Text)
    ensures StyleByName(name).Some? <==> name in StyleNames
  {
  }

  /** The aliases of bold: b, bold and em; an unlisted name or one in capitals is unknown. */
  lemma BoldAliases()
    ensures StyleByName("b") == StyleByName("bold") == StyleByName("em") == Some(AddStyle(Bold))
    ensures StyleByName("italic") == None && StyleByName("Bold") == None
  {
  }

  /** The aliases: tt and fixed, kbd and key, u and underline; "" and "none" do nothing. */
  lemma OtherAliases()
    ensures StyleByName("tt") == StyleByName("fixed") == Some(AddStyle(Fixed))
    ensures StyleByName("kbd") == StyleByName("key") == Some(AddStyle(Key))
    ensures StyleByName("u") == StyleByName("underline") == Some(AddStyle(Underline))
    ensures StyleByName("") == StyleByName("none") == Some(NoStyle)
  {
  }

  /** Color names: dim is the faded color, the others name their color. */
  lemma ColorNames()
    ensures StyleByName("dim") == Some(AddColor(Faded)) && StyleByName("static") == Some(AddColor(Static))
    ensures StyleByName("red") == Some(AddColor(Red)) && StyleByName("yellow") == Some(AddColor(Yellow))
  {
  }

  /** A style name as looked up: lower case, without surrounding blanks. */
  function Normalize(name: Text): (r: Text)
    ensures |r| <= |name|
  {
    Trim(LowerCase(name))
  }

  /** Applies one named style: no change, or one more attribute; an unknown name is an error. */
  function ProcessStyle(name: Text, t: Rich): (r: Result<Rich, Error>)
    ensures r.Failure? ==> r.error == InvalidStyle
    ensures r.Success? ==> |t.spans| <= |r.value.spans| <= |t.spans| + 1
    ensures r.Success? ==> r.value.text == t.text && r.value.spans[..|t.spans|] == t.spans
    ensures r.Success? && ValidRich(t) ==> ValidRich(r.value)
  {
    match StyleByName(Normalize(name))
    case None => Failure(InvalidStyle)
    case Some(NoStyle) => Success(t)
    case Some(AddColor(c)) => Success(WithAttribute(t, ColorAttribute(c)))
    case Some(AddStyle(s)) => Success(WithAttribute(t, StyleAttribute(s)))
  }

  lemma LowerCaseTwice(s: Text)
    ensures LowerCase(LowerCase(s)) == LowerCase(s)
  {
  }

  /**
   * A name is known exactly when its normalized form is in the table; case
   * does not matter; a known name adds its attribute over the whole text
   * unless it is "" or "none", which leave the text as it is.
   */
  lemma ProcessStyleMeaning(name: Text, t: Rich)
    ensures ProcessStyle(name, t).Failure? <==> Normalize(name) !in StyleNames
    ensures ProcessStyle(LowerCase(name), t) == ProcessStyle(name, t)
    ensures Normalize(name) == "none" || Normalize(name) == "" ==> ProcessStyle(name, t) == Success(t)
  {
    KnownStyleNames(Normalize(name));
    LowerCaseTwice(name);
  }

  /** Surrounding blanks and capitals in a name do not matter. */
  lemma ProcessStyleIgnoresCaseAndBlanks(t: Rich)
    ensures ProcessStyle(" Bold ", t) == ProcessStyle("bold", t) == Success(WithAttribute(t, StyleAttribute(Bold)))
  {
    NormalizeBold();
    ProcessStyleMeaningAt("bold", StyleAttribute(Bold), t);
  }

  lemma NormalizeBold()
    ensures Normalize(" Bold ") == "bold"
  {
    var l := LowerCase(" Bold ");
    assert l[0] == ' ' && l[1] == 'b' && l[2] == 'o' && l[3] == 'l' && l[4] == 'd' && l[5] == ' ';
    assert l == " bold ";
    assert l[1..] == "bold ";
    assert l[1..][..4] == "bold";
  }

  /** One step of the style loop: a name applied to the text so far. */
  type Step = (Text, Rich) -> Result<Rich, Error>

  /** The style loop: each comma-separated name is applied in turn, left to right, stopping at the first error. */
  function ApplyStyles(style: Text, t: Rich, step: Step): (r: Result<Rich, Error>)
    decreases |style|
  {
    match FirstComma(style)
    case None => step(style, t)
    case Some(i) =>
      var next :- step(style[..i], t);
      ApplyStyles(style[i + 1..], next, step)
  }

  /** Applies names from a list, left to right, stopping at the first error. */
  function ApplyAll(names: seq<Text>, t: Rich, step: Step): (r: Result<Rich, Error>)
  {
    if names == [] then Success(t)
    else
      var next :- step(names[0], t);
      ApplyAll(names[1..], next, step)
  }

  /** The style loop applies the comma-separated pieces of the style one after the other. */
  lemma {:induction false} ApplyStylesSplits(style: Text, t: Rich, step: Step)
    ensures ApplyStyles(style, t, step) == ApplyAll(Split(style), t, step)
    decreases |style|
  {
    match FirstComma(style)
    case None =>
      var r := step(style, t);
      if r.Success? {
        assert ApplyAll([], r.value, step) == r;
      }
    case Some(i) =>
      var names := Split(style);
      assert names == [style[..i]] + Split(style[i + 1..]);
      assert names[0] == style[..i] && names[1..] == Split(style[i + 1..]);
      var r := step(style[..i], t);
      if r.Success? {
        ApplyStylesSplits(style[i + 1..], r.value, step);
      }
  }

  /** A name that is not in the table, even after normalizing. */
  predicate UnknownName(name: Text) {
    Normalize(name) !in StyleNames
  }

  /** Applying the names fails exactly when one of them is unknown. */
  lemma {:induction false} ApplyAllFails(names: seq<Text>, t: Rich)
    ensures ApplyAll(names, t, ProcessStyle).Failure? <==> exists k | 0 <= k < |names| :: UnknownName(names[k])
    ensures ApplyAll(names, t, ProcessStyle).Failure? ==> ApplyAll(names, t, ProcessStyle).error == InvalidStyle
    ensures ApplyAll(names, t, ProcessStyle).Success? ==> ApplyAll(names, t, ProcessStyle).value.text == t.text
    decreases |names|
  {
    if names != [] {
      ProcessStyleMeaning(names[0], t);
      var r := ProcessStyle(names[0], t);
      if r.Success? {
        ApplyAllFails(names[1..], r.value);
        assert forall k | 1 <= k < |names| :: names[k] == names[1..][k - 1];
      }
    }
  }

  // ---- RStyle, RLink ----

  /** RStyle: the content arguments appended, then the style names applied; null when any argument is. */
  function RStyle(args: seq<Arg>): (r: Result<Option<Rich>, Error>)
  {
    if args == [] then Failure(ArgumentCount)
    else
      var style :- CheckStringArg(args[0]);
      match style
      case None => Success(None)
      case Some(name) =>
        match RAdd(args[1..])
        case None => Success(None)
        case Some(content) =>
          var styled :- ApplyStyles(name, content, ProcessStyle);
          Success(Some(styled))
  }

  /** RLink: the content arguments appended, with a link to the target over all of it. */
  function RLink(args: seq<Arg>): (r: Result<Option<Rich>, Error>)
  {
    if args == [] then Failure(ArgumentCount)
    else
      var link :- CheckStringArg(args[0]);
      match link
      case None => Success(None)
      case Some(target) =>
        match RAdd(args[1..])
        case None => Success(None)
        case Some(content) => Success(Some(WithAttribute(content, LinkAttribute(target))))
  }

  /** A non-string style is a type error; a null style or a null content argument gives null. */
  lemma RStyleNull(args: seq<Arg>)
    requires |args| >= 1
    ensures args[0].Some? && !args[0].value.StringValue? ==> RStyle(args) == Failure(TypeError)
    ensures args[0].None? ==> RStyle(args) == Success(None)
    ensures args[0].Some? && args[0].value.StringValue? && AnyNull(args[1..]) ==> RStyle(args) == Success(None)
  {
    RAddMeaning(args[1..]);
  }

  /** RStyle on a style string and non-null content is the style loop on the content. */
  lemma RStyleUnfolds(args: seq<Arg>, style: Text)
    requires |args| >= 1 && args[0] == Some(StringValue(style)) && RAdd(args[1..]).Some?
    ensures var styled := ApplyStyles(style, RAdd(args[1..]).value, ProcessStyle);
      && (styled.Success? ==> RStyle(args) == Success(Some(styled.value)))
      && (styled.Failure? ==> RStyle(args) == Failure(styled.error))
  {
  }

  /**
   * With a style string and no null content, RStyle applies the style's
   * comma-separated pieces in order to the appended content; it fails
   * exactly when one piece is unknown, and otherwise keeps the text.
   */
  lemma RStyleApplies(args: seq<Arg>, style: Text)
    requires |args| >= 1 && args[0] == Some(StringValue(style)) && !AnyNull(args[1..])
    ensures RAdd(args[1..]).Some?
    ensures var styled := ApplyAll(Split(style), RAdd(args[1..]).value, ProcessStyle);
      && (styled.Success? ==> RStyle(args) == Success(Some(styled.value)))
      && (styled.Failure? ==> RStyle(args) == Failure(InvalidStyle))
    ensures RStyle(args).Failure? <==> exists k | 0 <= k < |Split(style)| :: UnknownName(Split(style)[k])
    ensures RStyle(args).Success? ==> RStyle(args).value.Some? && RStyle(args).value.value.text == ShownTexts(args[1..])
  {
    RAddMeaning(args[1..]);
    var content := RAdd(args[1..]).value;
    RStyleUnfolds(args, style);
    ApplyStylesSplits(style, content, ProcessStyle);
    ApplyAllFails(Split(style), content);
  }

  /** A non-string target is a type error; a null target or a null content argument gives null. */
  lemma RLinkNull(args: seq<Arg>)
    requires |args| >= 1
    ensures args[0].Some? && !args[0].value.StringValue? ==> RLink(args) == Failure(TypeError)
    ensures args[0].None? ==> RLink(args) == Success(None)
    ensures args[0].Some? && args[0].value.StringValue? && AnyNull(args[1..]) ==> RLink(args) == Success(None)
  {
    RAddMeaning(args[1..]);
  }

  /** With a target string and no null content, RLink is the appended content with one link over all of it. */
  lemma RLinkApplies(args: seq<Arg>, target: Text)
    requires |args| >= 1 && args[0] == Some(StringValue(target)) && !AnyNull(args[1..])
    ensures RAdd(args[1..]).Some?
    ensures RLink(args) == Success(Some(WithAttribute(RAdd(args[1..]).value, LinkAttribute(target))))
    ensures RLink(args).value.value.text == ShownTexts(args[1..])
  {
    RAddMeaning(args[1..]);
  }

  /** Two non-null arguments appended. */
  lemma AddTwo(x: Arg, y: Arg)
    requires x.Some? && y.Some?
    ensures RAdd([x, y]) == Some(Concat(CheckRichArg(x).value, CheckRichArg(y).value))
  {
    var one := [x];
    assert one[..0] == [];
    assert AddAll(one) == Some(Concat(Empty, CheckRichArg(x).value));
    ConcatEmpty(CheckRichArg(x).value);
    var args := [x, y];
    assert args[..1] == one;
    assert AddAll(args) == Some(Concat(CheckRichArg(x).value, CheckRichArg(y).value));
  }

  /**
   * The documented example: RStyle("red", "This is ", RStyle("bold", "great"))
   * is "This is great", red throughout and bold on "great". The inner call is
   * InnerExample.
   */
  lemma StyleExample(bold: Rich)
    requires bold == Rich("great", [Span(0, 5, StyleAttribute(Bold))])
    ensures RStyle([Some(StringValue("red")), Some(StringValue("This is ")), Some(RichValue(bold))])
         == Success(Some(Rich("This is great", [Span(8, 13, StyleAttribute(Bold)), Span(0, 13, ColorAttribute(Red))])))
  {
    var args := [Some(StringValue("red")), Some(StringValue("This is ")), Some(RichValue(bold))];
    assert args[1..] == [Some(StringValue("This is ")), Some(RichValue(bold))];
    var content := OuterContent(bold);
    assert ApplyStyles("red", content, ProcessStyle) == ProcessStyle("red", content) by {
      assert FirstComma("red") == None;
    }
    ProcessStyleMeaningAt("red", ColorAttribute(Red), content);
    RStyleUnfolds(args, "red");
    assert RStyle(args) == Success(Some(WithAttribute(content, ColorAttribute(Red))));
    assert |content.text| == 13;
    assert content.spans + [Span(0, 13, ColorAttribute(Red))]
        == [Span(8, 13, StyleAttribute(Bold)), Span(0, 13, ColorAttribute(Red))];
  }

  /** The appended content of the example. */
  lemma OuterContent(bold: Rich) returns (content: Rich)
    requires bold == Rich("great", [Span(0, 5, StyleAttribute(Bold))])
    ensures content == Rich("This is great", [Span(8, 13, StyleAttribute(Bold))])
    ensures RAdd([Some(StringValue("This is ")), Some(RichValue(bold))]) == Some(content)
  {
    AddTwo(Some(StringValue("This is ")), Some(RichValue(bold)));
    assert CheckRichArg(Some(StringValue("This is "))) == Some(Rich("This is ", []));
    assert CheckRichArg(Some(RichValue(bold))) == Some(bold);
    assert Shift(bold.spans, 8) == [Span(8, 13, StyleAttribute(Bold))];
    assert Concat(Rich("This is ", []), bold) == Rich("This is " + "great", [] + Shift(bold.spans, 8));
    assert "This is " + "great" == "This is great";
    assert [] + Shift(bold.spans, 8) == [Span(8, 13, StyleAttribute(Bold))];
    content := Rich("This is great", [Span(8, 13, StyleAttribute(Bold))]);
    assert Concat(Rich("This is ", []), bold) == content;
  }

  lemma InnerExample()
    ensures RStyle([Some(StringValue("bold")), Some(StringValue("great"))]) == Success(Some(Rich("great", [Span(0, 5, StyleAttribute(Bold))])))
  {
    var args := [Some(StringValue("bold")), Some(StringValue("great"))];
    var great := Rich("great", []);
    assert args[1..] == [Some(StringValue("great"))];
    assert RAdd([Some(StringValue("great"))]) == Some(great);
    assert FirstComma("bold") == None;
    ProcessStyleMeaningAt("bold", StyleAttribute(Bold), great);
    RStyleUnfolds(args, "bold");
  }

  /** One known name applied to a text, as used by the example. */
  lemma ProcessStyleMeaningAt(name: Text, a: Attribute, t: Rich)
    requires (name == "bold" && a == StyleAttribute(Bold)) || (name == "red" && a == ColorAttribute(Red))
    ensures ProcessStyle(name, t) == Success(WithAttribute(t, a))
  {
    assert LowerCase(name) == name;
    assert Trim(name) == name;
  }

  // ---- RMid, RString, RLen ----

  /** The largest 32-bit integer. */
  const IntMax: nat := 0x7FFF_FFFF

  /**
   * The substring from 1-based position start (0 counts as 1) of at most
   * length characters. Text is a sequence of characters here, so character
   * positions and storage positions coincide: a start beyond the end gives
   * the empty rest of the text.
   */
  function Mid(t: Rich, start: nat, length: nat): (r: Rich)
    ensures ValidRich(t) ==> ValidRich(r)
  {
    var nStart := Min(if start == 0 then 0 else start - 1, |t.text|);
    var nLength := Min(length, |t.text| - nStart);
    Substr(t, nStart, nLength)
  }

  /** RMid: two or three arguments; null text or start gives null, an omitted or null length takes the rest. */
  function RMid(args: seq<Arg>): (r: Result<Option<Rich>, Error>)
  {
    if |args| < 2 || |args| > 3 then Failure(ArgumentCount)
    else
      match CheckRichArg(args[0])
      case None => Success(None)
      case Some(str) =>
        var start :- CheckIntegerArg(args[1], 0, IntMax);
        match start
        case None => Success(None)
        case Some(first) =>
          var length :- CheckIntegerArg(if |args| == 3 then args[2] else None, 0, IntMax);
          Success(Some(Mid(str, first, if length.Some? then length.value else IntMax)))
  }

  /**
   * The text of a substring is the slice of the text from position start
   * (0 and 1 both meaning the first character) of length characters, cut at
   * the end; in particular empty from beyond the end.
   */
  lemma MidText(t: Rich, start: nat, length: nat)
    ensures var from := if start == 0 then 0 else start - 1;
      && (from <= |t.text| ==> Mid(t, start, length).text == t.text[from..Min(from + length, |t.text|)])
      && (from >= |t.text| ==> Mid(t, start, length).text == [])
    ensures Mid(t, 0, length) == Mid(t, 1, length)
  {
  }

  /** From the first character with no limit, a substring is the whole text. */
  lemma MidWhole(t: Rich)
    requires ValidRich(t) && |t.text| <= IntMax
    ensures Mid(t, 1, IntMax) == t
  {
    SubstrWhole(t, IntMax);
  }

  /** Cutting off an appended prefix gives back the text of the second part. */
  lemma MidAfterConcat(a: Rich, b: Rich)
    ensures Mid(Concat(a, b), |a.text| + 1, IntMax).text == b.text[..Min(IntMax, |b.text|)]
  {
    var t := Concat(a, b);
    assert t.text[|a.text|..Min(|a.text| + IntMax, |t.text|)] == b.text[..Min(IntMax, |b.text|)];
  }

  /**
   * RMid's argument handling: null text gives null whatever the other
   * arguments are; a null start gives null; a missing or null length takes
   * the rest of the text; a negative start or length is a range error.
   */
  lemma RMidArguments(str: Value, start: Arg, length: Arg)
    ensures RMid([None, start]) == Success(None) && RMid([None, start, length]) == Success(None)
    ensures RMid([Some(str), None]) == Success(None)
    ensures start.Some? && start.value.IntValue? && 0 <= start.value.n <= IntMax ==>
      && RMid([Some(str), start]) == RMid([Some(str), start, None])
      && RMid([Some(str), start]) == Success(Some(Mid(CheckRichArg(Some(str)).value, start.value.n, IntMax)))
    ensures start.Some? && start.value.IntValue? && start.value.n < 0 ==> RMid([Some(str), start]) == Failure(RangeError)
    ensures (start.Some? && start.value.IntValue? && 0 <= start.value.n <= IntMax
             && length.Some? && length.value.IntValue? && length.value.n < 0)
            ==> RMid([Some(str), start, length]) == Failure(RangeError)
  {
  }

  /** RString: the text without attributes; null for null. */
  function RString(args: seq<Arg>): (r: Result<Option<Text>, Error>)
  {
    if |args| != 1 then Failure(ArgumentCount)
    else
      match CheckRichArg(args[0])
      case None => Success(None)
      case Some(str) => Success(Some(str.text))
  }

  /** RLen: the number of characters; null for null. */
  function RLen(args: seq<Arg>): (r: Result<Option<nat>, Error>)
  {
    if |args| != 1 then Failure(ArgumentCount)
    else
      match CheckRichArg(args[0])
      case None => Success(None)
      case Some(str) => Success(Some(|str.text|))
  }

  /** RLen is the length of RString, and RString is the argument's text form. */
  lemma StringAndLength(args: seq<Arg>)
    ensures RString(args).Success? <==> |args| == 1
    ensures RLen(args).Success? <==> RString(args).Success?
    ensures RString(args).Success? ==> (RString(args).value.None? <==> args[0].None?)
    ensures RString(args).Success? && RString(args).value.Some? ==>
      RString(args).value.value == ShownText(args[0].value) && RLen(args).value == Some(|RString(args).value.value|)
  {
  }
}
