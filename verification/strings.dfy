/**
 * Character and string helpers shared by the message parser, the team
 * settings, the result file header and the rich-text functions: decimal
 * digits, blanks, trimming, lower case and decimal formatting.
 */
module Strings {
  import opened Wrappers

  predicate IsDigit(c: char) {
    '0' <= c <= '9'
  }

  predicate IsBlank(c: char) {
    c == ' ' || c == '\t' || c == '\r' || c == '\n'
  }

  /** Removes leading and trailing blanks. */
  function Trim(s: seq<char>): (r: seq<char>)
    ensures |r| <= |s|
    ensures r == [] || (!IsBlank(r[0]) && !IsBlank(r[|r| - 1]))
    decreases |s|
  {
    if s == [] then s
    else if IsBlank(s[0]) then Trim(s[1..])
    else if IsBlank(s[|s| - 1]) then Trim(s[..|s| - 1])
    else s
  }

  /** Every character of s before i and from j on is a blank. */
  predicate BlankOutside(s: seq<char>, i: nat, j: nat)
    requires i <= j <= |s|
  {
    (forall k | 0 <= k < i :: IsBlank(s[k])) && (forall k | j <= k < |s| :: IsBlank(s[k]))
  }

  /** Trimming cuts only blanks, from the two ends. */
  lemma {:induction false} TrimCutsBlanks(s: seq<char>) returns (i: nat, j: nat)
    ensures i <= j <= |s| && Trim(s) == s[i..j] && BlankOutside(s, i, j)
    decreases |s|
  {
    if s == [] {
      i, j := 0, 0;
    } else if IsBlank(s[0]) {
      var i', j' := TrimCutsBlanks(s[1..]);
      i, j := i' + 1, j' + 1;
      assert s[1..][i'..j'] == s[i..j];
      BlankFront(s, i', j');
    } else if IsBlank(s[|s| - 1]) {
      i, j := TrimCutsBlanks(s[..|s| - 1]);
      assert s[..|s| - 1][i..j] == s[i..j];
      BlankBack(s, i, j);
    } else {
      i, j := 0, |s|;
      assert s[0..|s|] == s;
    }
  }

  lemma BlankFront(s: seq<char>, i: nat, j: nat)
    requires |s| > 0 && IsBlank(s[0]) && i <= j <= |s| - 1 && BlankOutside(s[1..], i, j)
    ensures BlankOutside(s, i + 1, j + 1)
  {
    forall k | 0 < k < |s| ensures s[k] == s[1..][k - 1] { }
  }

  lemma BlankBack(s: seq<char>, i: nat, j: nat)
    requires |s| > 0 && IsBlank(s[|s| - 1]) && i <= j <= |s| - 1 && BlankOutside(s[..|s| - 1], i, j)
    ensures BlankOutside(s, i, j)
  {
    forall k | 0 <= k < |s| - 1 ensures s[k] == s[..|s| - 1][k] { }
  }

  function LowerChar(c: char): (r: char)
    ensures 'A' <= c <= 'Z' ==> 'a' <= r <= 'z'
    ensures !('A' <= c <= 'Z') ==> r == c
  {
    if 'A' <= c <= 'Z' then (c as int - 'A' as int + 'a' as int) as char else c
  }

  /** ASCII lower case; other characters are kept. */
  function LowerCase(s: seq<char>): (r: seq<char>)
    ensures |r| == |s|
    ensures forall i | 0 <= i < |s| :: r[i] == LowerChar(s[i])
  {
    seq(|s|, i requires 0 <= i < |s| => LowerChar(s[i]))
  }

  predicate AllDigits(s: seq<char>) {
    forall i | 0 <= i < |s| :: IsDigit(s[i])
  }

  function DigitValue(c: char): (d: int)
    requires IsDigit(c)
    ensures 0 <= d <= 9
  {
    c as int - '0' as int
  }

  /** The decimal value of a digit string, unbounded. */
  function Decimal(s: seq<char>): (n: int)
    requires AllDigits(s)
    ensures n >= 0
  {
    if s == [] then 0 else 10 * Decimal(s[..|s| - 1]) + DigitValue(s[|s| - 1])
  }

  /** The decimal digits of n. */
  function NatText(n: nat): (r: seq<char>)
    ensures |r| > 0
  {
    if n < 10 then ['0' + n as char] else NatText(n / 10) + ['0' + (n % 10) as char]
  }

  /** The decimal form of n, with a minus sign when negative. */
  function IntText(n: int): (r: seq<char>)
    ensures |r| > 0
  {
    if n < 0 then ['-'] + NatText(-n) else NatText(n)
  }

  /** NatText gives the digits of n without leading zeros. */
  lemma {:induction false} NatTextValue(n: nat)
    ensures AllDigits(NatText(n)) && Decimal(NatText(n)) == n
    ensures |NatText(n)| == 1 || NatText(n)[0] != '0'
  {
    if n >= 10 {
      var s := NatText(n);
      NatTextValue(n / 10);
      assert s[..|s| - 1] == NatText(n / 10);
      var h := NatText(n / 10);
      if |h| == 1 {
        assert Decimal(h) == DigitValue(h[0]) by { assert h[..0] == []; }
      }
    }
  }

  /** IntText is a minus sign exactly for negative numbers, followed by the digits of the magnitude. */
  lemma IntTextValue(n: int)
    ensures var r := IntText(n);
      var digits := if n < 0 then r[1..] else r;
      && (r[0] == '-' <==> n < 0)
      && AllDigits(digits) && Decimal(digits) == (if n < 0 then -n else n)
      && (|digits| == 1 || digits[0] != '0')
  {
    var m := if n < 0 then -n else n;
    NatTextValue(m);
    assert NatText(m)[0] != '-' by { assert AllDigits(NatText(m)); }
    if n < 0 {
      assert IntText(n)[1..] == NatText(m);
    }
  }

  // ---- Comma-separated lists ----

  predicate CommaFree(s: seq<char>) {
    forall k | 0 <= k < |s| :: s[k] != ','
  }

  /** The position of the first comma. */
  function FirstComma(s: seq<char>): (p: Option<nat>)
    ensures p.Some? ==> p.value < |s| && s[p.value] == ',' && forall k | 0 <= k < p.value :: s[k] != ','
    ensures p.None? <==> CommaFree(s)
  {
    if s == [] then None
    else if s[0] == ',' then Some(0)
    else match FirstComma(s[1..])
      case None => None
      case Some(q) => Some(q + 1)
  }

  /** Fields joined with commas. */
  function Join(fields: seq<seq<char>>): (s: seq<char>)
    requires |fields| > 0
  {
    if |fields| == 1 then fields[0] else fields[0] + [','] + Join(fields[1..])
  }

  /** The pieces between the commas, left to right. */
  function Split(s: seq<char>): (pieces: seq<seq<char>>)
    ensures |pieces| > 0
    decreases |s|
  {
    match FirstComma(s)
    case None => [s]
    case Some(i) => [s[..i]] + Split(s[i + 1..])
  }

  /** Splitting gives pieces that join back to the string. */
  lemma {:induction false} SplitJoins(s: seq<char>)
    ensures Join(Split(s)) == s
    decreases |s|
  {
    match FirstComma(s)
    case None =>
    case Some(i) =>
      var rest := Split(s[i + 1..]);
      SplitJoins(s[i + 1..]);
      assert Split(s) == [s[..i]] + rest;
      assert Join(Split(s)) == s[..i] + [','] + Join(rest);
      assert s == s[..i] + [','] + s[i + 1..];
  }

  /** The pieces hold no comma. */
  lemma {:induction false} SplitCommaFree(s: seq<char>)
    ensures forall j | 0 <= j < |Split(s)| :: CommaFree(Split(s)[j])
    decreases |s|
  {
    match FirstComma(s)
    case None =>
    case Some(i) =>
      SplitCommaFree(s[i + 1..]);
      assert Split(s) == [s[..i]] + Split(s[i + 1..]);
  }

  /** Joining comma-free fields and splitting again gives the fields back. */
  lemma {:induction false} JoinSplits(fields: seq<seq<char>>)
    requires |fields| > 0
    requires forall j | 0 <= j < |fields| :: CommaFree(fields[j])
    ensures Split(Join(fields)) == fields
    decreases |fields|
  {
    var s := Join(fields);
    if |fields| == 1 {
      assert FirstComma(s).None?;
    } else {
      var f := fields[0];
      FirstCommaAfter(f, Join(fields[1..]));
      assert s[..|f|] == f;
      assert s[|f| + 1..] == Join(fields[1..]);
      JoinSplits(fields[1..]);
    }
  }

  /** A comma-free field followed by a comma: the comma is the first one. */
  lemma FirstCommaAfter(f: seq<char>, rest: seq<char>)
    requires CommaFree(f)
    ensures FirstComma(f + [','] + rest) == Some(|f|)
  {
    var s := f + [','] + rest;
    assert s[|f|] == ',';
    assert forall k | 0 <= k < |f| :: s[k] == f[k];
  }
}
