/** The Python string operations the control panel relies on: str.isspace,
    str.split() without arguments, str.split(sep), str.splitlines() and int(). */
module PyText {
  import opened Text

  /** str.isspace for one character: the ASCII whitespace and separator
      controls plus the Unicode space separators. */
  predicate IsSpace(c: char) {
    c == ' ' || ('\t' <= c <= '\r') || ('\U{1c}' <= c <= '\U{1f}') || c == '\U{85}' || c == '\U{a0}'
    || c == '\U{1680}' || ('\U{2000}' <= c <= '\U{200a}') || c == '\U{2028}' || c == '\U{2029}'
    || c == '\U{202f}' || c == '\U{205f}' || c == '\U{3000}'
  }

  /** The characters str.splitlines() breaks at. */
  predicate IsLineBreak(c: char) {
    ('\n' <= c <= '\r') || ('\U{1c}' <= c <= '\U{1e}') || c == '\U{85}' || c == '\U{2028}' || c == '\U{2029}'
  }

  /** Every line break is whitespace, so splitting into lines never changes the
      tokens that str.split() finds. */
  lemma LineBreakIsSpace(c: char)
    requires IsLineBreak(c)
    ensures IsSpace(c)
  {
  }

  /** str.strip() without arguments. */
  function Strip(s: string): (r: string)
    ensures |r| <= |s|
    ensures r == [] || (!IsSpace(r[0]) && !IsSpace(r[|r| - 1]))
    decreases |s|
  {
    if s == [] then []
    else if IsSpace(s[0]) then Strip(s[1..])
    else if IsSpace(s[|s| - 1]) then Strip(s[..|s| - 1])
    else s
  }

  /** The index of the first whitespace character at or after `from`, or |s|. */
  function NextSpace(s: string, from: nat): (r: nat)
    requires from <= |s|
    ensures from <= r <= |s|
    ensures r < |s| ==> IsSpace(s[r])
    ensures forall j :: from <= j < r ==> !IsSpace(s[j])
    decreases |s| - from
  {
    if from == |s| || IsSpace(s[from]) then from else NextSpace(s, from + 1)
  }

  /** str.split() without arguments: the maximal runs of non-whitespace characters. */
  function Words(s: string): (r: seq<string>)
    ensures forall k :: 0 <= k < |r| ==> r[k] != [] && forall j :: 0 <= j < |r[k]| ==> !IsSpace(r[k][j])
    decreases |s|
  {
    if s == [] then []
    else if IsSpace(s[0]) then Words(s[1..])
    else
      var e := NextSpace(s, 0);
      [s[..e]] + Words(s[e..])
  }

  /** str.split(sep) with a one-character separator: every piece, empty ones included. */
  function SplitOn(s: string, sep: char): (r: seq<string>)
    ensures |r| >= 1
    ensures forall k :: 0 <= k < |r| ==> sep !in r[k]
  {
    SplitAll(s, sep)
  }

  /** The index of the first line break at or after `from`, or |s|. */
  function NextLineBreak(s: string, from: nat): (r: nat)
    requires from <= |s|
    ensures from <= r <= |s|
    ensures r < |s| ==> IsLineBreak(s[r])
    decreases |s| - from
  {
    if from == |s| || IsLineBreak(s[from]) then from else NextLineBreak(s, from + 1)
  }

  /** str.splitlines(), except that "\r\n" yields an extra empty line.  That
      line has no words, so no caller that looks only at words can tell. */
  function Lines(s: string): (r: seq<string>)
    decreases |s|
  {
    if s == [] then []
    else
      var e := NextLineBreak(s, 0);
      if e == |s| then [s] else [s[..e]] + Lines(s[e + 1..])
  }

  /** The digits and single underscores of a Python integer literal body. */
  predicate IsDigitGroups(s: string) {
    s != [] && IsDigit(s[0]) && IsDigit(s[|s| - 1])
    && (forall i :: 0 <= i < |s| ==> IsDigit(s[i]) || s[i] == '_')
    && (forall i :: 0 <= i < |s| - 1 ==> !(s[i] == '_' && s[i + 1] == '_'))
  }

  /** The value of a run of digits and underscores, underscores ignored. */
  function GroupsValue(s: string): (n: nat)
    requires forall i :: 0 <= i < |s| ==> IsDigit(s[i]) || s[i] == '_'
    decreases |s|
  {
    if s == [] then 0
    else if s[|s| - 1] == '_' then GroupsValue(s[..|s| - 1])
    else GroupsValue(s[..|s| - 1]) * 10 + DigitValue(s[|s| - 1])
  }

  /** int(s) for a str argument in base 10: surrounding whitespace, an optional
      sign, digits with single underscores between them; None where Python
      raises ValueError.  Python integers are unbounded. */
  function ParseInt(s: string): (r: Option<int>)
    ensures r.Some? ==> exists i :: 0 <= i < |s| && IsDigit(s[i])
  {
    var t := Strip(s);
    if t == [] then None
    else
      var neg := t[0] == '-';
      var body := if t[0] == '-' || t[0] == '+' then t[1..] else t;
      if !IsDigitGroups(body) then None
      else
        assert IsDigit(body[0]);
        StripKeepsDigit(s, if body == t then 0 else 1);
        var mag: int := GroupsValue(body);
        Some(if neg then 0 - mag else mag)
  }

  lemma {:induction false} StripKeepsDigit(s: string, k: nat)
    requires k < |Strip(s)| && IsDigit(Strip(s)[k])
    ensures exists i :: 0 <= i < |s| && IsDigit(s[i])
    decreases |s|
  {
    if s != [] {
      if IsSpace(s[0]) {
        StripKeepsDigit(s[1..], k);
        var i :| 0 <= i < |s[1..]| && IsDigit(s[1..][i]);
        assert IsDigit(s[i + 1]);
      } else if IsSpace(s[|s| - 1]) {
        StripKeepsDigit(s[..|s| - 1], k);
        var i :| 0 <= i < |s[..|s| - 1]| && IsDigit(s[..|s| - 1][i]);
        assert IsDigit(s[i]);
      } else {
        assert IsDigit(s[k]);
      }
    }
  }

  /** A plain run of ASCII digits parses to its decimal value. */
  lemma ParseDigits(s: string)
    requires AllDigits(s)
    ensures ParseInt(s) == Some(DigitsValue(s) as int)
  {
    StripNoSpace(s);
    DigitsAreGroups(s);
  }

  lemma StripNoSpace(s: string)
    requires AllDigits(s)
    ensures Strip(s) == s
  {
    assert !IsSpace(s[0]) && !IsSpace(s[|s| - 1]);
  }

  lemma {:induction false} DigitsAreGroups(s: string)
    requires AllDigits(s)
    ensures IsDigitGroups(s)
    ensures GroupsValue(s) == DigitsValue(s)
    decreases |s|
  {
    if |s| > 1 {
      DigitsAreGroups(s[..|s| - 1]);
    }
  }
}
