/** The fixed regular expressions of the HTML pipeline, each written out as the
    left-to-right, non-overlapping scan java.util.regex.Matcher performs for
    it.  `.` does not match a line terminator; `\s` is [ \t\n\x0B\f\r]. */
module HtmlRegex {
  import opened Text

  /** The characters `.` refuses: \n, \r, U+0085, U+2028, U+2029. */
  predicate IsLineTerminator(c: char) {
    c == '\n' || c == '\r' || c == '\U{85}' || c == '\U{2028}' || c == '\U{2029}'
  }

  predicate NoLineTerminator(s: string) {
    forall k :: 0 <= k < |s| ==> !IsLineTerminator(s[k])
  }

  predicate IsRegexSpace(c: char) {
    c == ' ' || c == '\t' || c == '\n' || c == '\U{0b}' || c == '\U{0c}' || c == '\r'
  }

  /** The end of the run of `\s` characters starting at j. */
  function SkipRegexSpaces(s: string, j: nat): (r: nat)
    requires j <= |s|
    ensures j <= r <= |s|
    ensures forall k :: j <= k < r ==> IsRegexSpace(s[k])
    ensures r < |s| ==> !IsRegexSpace(s[r])
    decreases |s| - j
  {
    if j < |s| && IsRegexSpace(s[j]) then SkipRegexSpaces(s, j + 1) else j
  }

  // ---------------------------------------------------------------------
  // <font\s+color\s*=\s*"[^"]+">(.*?)</font>  and its "LEVEL" variant

  /** The index just past an opening `<font color="...">` tag at i: any
      non-empty colour, or exactly LEVEL when `onlyLevel`. */
  function FontOpenEnd(s: string, i: nat, onlyLevel: bool): (r: Option<nat>)
    requires i <= |s|
    ensures r.Some? ==> StartsAt(s, "<font", i) && i + 5 < r.value <= |s| && s[r.value - 1] == '>' && s[r.value - 2] == '"'
  {
    if !StartsAt(s, "<font", i) then None
    else
      var a := SkipRegexSpaces(s, i + 5);
      if a == i + 5 || !StartsAt(s, "color", a) then None
      else
        var b := SkipRegexSpaces(s, a + 5);
        if b >= |s| || s[b] != '=' then None
        else
          var c := SkipRegexSpaces(s, b + 1);
          if c >= |s| || s[c] != '"' then None
          else FontValueEnd(s, c, onlyLevel)
  }

  /** The index just past `"...">` from the opening quote at c: the colour
      runs to the next quote and is not empty; LEVEL when `onlyLevel`. */
  function FontValueEnd(s: string, c: nat, onlyLevel: bool): (r: Option<nat>)
    requires c < |s| && s[c] == '"'
    ensures r.Some? ==> c + 2 < r.value <= |s| && s[r.value - 1] == '>' && s[r.value - 2] == '"'
  {
    if onlyLevel then
      if StartsAt(s, "LEVEL\">", c + 1) then
        assert s[c + 1..c + 8][5] == s[c + 6] && s[c + 1..c + 8][6] == s[c + 7];
        Some(c + 8)
      else None
    else
      var q := IndexOfChar(s, '"', c + 1);
      if q <= c + 1 || q + 1 >= |s| || s[q + 1] != '>' then None else Some(q + 2)
  }

  /** A font element at i: the content runs from the end of the opening tag to
      the first "</font>", and must hold no line terminator. */
  function FontAt(s: string, i: nat, onlyLevel: bool): (r: Option<(nat, nat)>)
    requires i <= |s|
    ensures r.Some? ==> i < r.value.0 <= r.value.1 && StartsAt(s, "</font>", r.value.1)
    ensures r.Some? ==> FontOpenEnd(s, i, onlyLevel) == Some(r.value.0)
  {
    var o := FontOpenEnd(s, i, onlyLevel);
    if o.None? then None
    else
      var j := IndexOf(s, "</font>", o.value);
      if j == -1 || !NoLineTerminator(s[o.value..j]) then None else Some((o.value, j))
  }

  /** replaceAll(font pattern, "$1") from index i. */
  function UnwrapFontsFrom(s: string, i: nat, onlyLevel: bool): (r: string)
    requires i <= |s|
    ensures |r| <= |s| - i
    decreases |s| - i
  {
    if i == |s| then []
    else
      var m := FontAt(s, i, onlyLevel);
      if m.Some? then s[m.value.0..m.value.1] + UnwrapFontsFrom(s, m.value.1 + 7, onlyLevel)
      else [s[i]] + UnwrapFontsFrom(s, i + 1, onlyLevel)
  }

  function UnwrapFonts(s: string, onlyLevel: bool): string {
    UnwrapFontsFrom(s, 0, onlyLevel)
  }

  /** Text with no '<' holds no font element and is left as it is. */
  lemma {:induction false} UnwrapFontsNoTag(s: string, i: nat, onlyLevel: bool)
    requires i <= |s|
    requires forall k :: i <= k < |s| ==> s[k] != '<'
    ensures UnwrapFontsFrom(s, i, onlyLevel) == s[i..]
    decreases |s| - i
  {
    if i < |s| {
      NoFontAt(s, i, onlyLevel);
      assert UnwrapFontsFrom(s, i, onlyLevel) == [s[i]] + UnwrapFontsFrom(s, i + 1, onlyLevel);
      UnwrapFontsNoTag(s, i + 1, onlyLevel);
      assert s[i..] == [s[i]] + s[i + 1..];
    }
  }

  /** No font element starts at a character other than '<'. */
  lemma NoFontAt(s: string, i: nat, onlyLevel: bool)
    requires i < |s| && s[i] != '<'
    ensures FontAt(s, i, onlyLevel).None?
  {
    assert i + 5 <= |s| ==> s[i..i + 5][0] == s[i];
    assert !StartsAt(s, "<font", i);
  }

  /** An opening tag `<font color="v">`. */
  function FontOpenTag(color: string): string {
    "<font color=\"" + color + "\">"
  }

  /** A whole font element of plain text is replaced by its content. */
  lemma UnwrapSingleFont(color: string, body: string)
    requires color != [] && '"' !in color
    requires '<' !in body && NoLineTerminator(body)
    ensures UnwrapFonts(FontOpenTag(color) + body + "</font>", false) == body
  {
    FontOpenOfTag(color, body + "</font>");
    FontAtAfterOpen(FontOpenTag(color), body);
  }

  /** An opening tag, then a '<'-free body without line terminators, then
      its "</font>": that is the font element at 0. */
  lemma FontAtAfterOpen(open: string, body: string)
    requires FontOpenEnd(open + (body + "</font>"), 0, false) == Some(|open|)
    requires '<' !in body && NoLineTerminator(body)
    ensures FontAt(open + body + "</font>", 0, false) == Some((|open|, |open| + |body|))
  {
    var t := open + body + "</font>";
    var o := |open|;
    Associative(open, body, "</font>");
    AppendSlices3(open, body, "</font>");
    SingleFontClose(t, o, body);
    FontAtOf(t, o, body);
  }

  /** An opening tag ending at o, then a body without line terminators
      whose end starts the first "</font>": that is the font element at 0. */
  lemma FontAtOf(t: string, o: nat, body: string)
    requires FontOpenEnd(t, 0, false) == Some(o)
    requires o + |body| <= |t| && t[o..o + |body|] == body && NoLineTerminator(body)
    requires IndexOf(t, "</font>", o) == o + |body|
    ensures FontAt(t, 0, false) == Some((o, o + |body|))
  {
  }

  /** The middle piece of a three-part concatenation, and what follows it. */
  lemma AppendSlices3(a: string, b: string, c: string)
    ensures var t := a + b + c;
      t[|a|..|a| + |b|] == b && StartsAt(t, c, |a| + |b|)
  {
    var t := a + b + c;
    assert t[|a|..|a| + |b|] == b;
    assert t[|a| + |b|..|a| + |b| + |c|] == c;
  }

  /** The first "</font>" after a '<'-free body is the one right after it. */
  lemma SingleFontClose(t: string, o: nat, body: string)
    requires '<' !in body
    requires o + |body| <= |t| && t[o..o + |body|] == body
    requires StartsAt(t, "</font>", o + |body|)
    ensures IndexOf(t, "</font>", o) == o + |body|
  {
    forall j | o <= j < o + |body|
      ensures !StartsAt(t, "</font>", j)
    {
      assert t[j] == t[o..o + |body|][j - o];
      assert j + 7 <= |t| ==> t[j..j + 7][0] == t[j];
    }
    IndexOfIs(t, "</font>", o, o + |body|);
  }

  lemma FontOpenOfTag(color: string, rest: string)
    requires color != [] && '"' !in color
    ensures FontOpenEnd(FontOpenTag(color) + rest, 0, false) == Some(|FontOpenTag(color)|)
  {
    var t := FontOpenTag(color) + rest;
    var n := |color|;
    assert t[..5] == "<font";
    assert t[5] == ' ' && !IsRegexSpace(t[6]);
    assert SkipRegexSpaces(t, 6) == 6;
    assert SkipRegexSpaces(t, 5) == 6;
    assert t[6..11] == "color";
    assert SkipRegexSpaces(t, 11) == 11;
    assert t[11] == '=' && t[12] == '"';
    assert SkipRegexSpaces(t, 12) == 12;
    forall k | 13 <= k < 13 + n
      ensures t[k] != '"'
    {
      assert t[k] == color[k - 13];
    }
    assert t[13 + n] == '"' && t[14 + n] == '>';
    assert IndexOfChar(t, '"', 13) == 13 + n;
  }

  /** String.matches for the font pattern: the whole text is one font element
      whose content (to the final "</font>") has no line terminator. */
  predicate FontWrapped(t: string, onlyLevel: bool) {
    var o := FontOpenEnd(t, 0, onlyLevel);
    o.Some? && o.value + 7 <= |t| && EndsWith(t, "</font>") && NoLineTerminator(t[o.value..|t| - 7])
  }

  /** A text that does not start with '<' is not one font element. */
  lemma NotFontWrapped(t: string, onlyLevel: bool)
    requires t != [] && t[0] != '<'
    ensures !FontWrapped(t, onlyLevel)
  {
    assert |t| >= 5 ==> t[0..5][0] == t[0];
    assert !StartsAt(t, "<font", 0);
  }

  // ---------------------------------------------------------------------
  // <a([^>]*)>(.*?)</a>

  /** An anchor at i: ('>' ending the opening tag, start of the first "</a>"
      after it); the text between holds no line terminator. */
  function AnchorAt(s: string, i: nat): (r: Option<(nat, nat)>)
    requires i <= |s|
    ensures r.Some? ==> StartsAt(s, "<a", i) && i + 2 <= r.value.0 < r.value.1 && StartsAt(s, "</a>", r.value.1)
    ensures r.Some? ==> s[r.value.0] == '>' && '>' !in s[i + 2..r.value.0]
  {
    if !StartsAt(s, "<a", i) then None
    else
      var g := IndexOfChar(s, '>', i + 2);
      if g == -1 then None
      else
        var j := IndexOf(s, "</a>", g + 1);
        if j == -1 || !NoLineTerminator(s[g + 1..j]) then None
        else
          assert forall k :: i + 2 <= k < g ==> s[k] != '>';
          Some((g, j))
  }

  // ---------------------------------------------------------------------
  // action\s*=\s*"([^"]+)"

  /** The action value if `action="..."` starts at i. */
  function ActionAt(s: string, i: nat): (r: Option<string>)
    requires i <= |s|
    ensures r.Some? ==> r.value != [] && '"' !in r.value
  {
    if !StartsAt(s, "action", i) then None
    else
      var b := SkipRegexSpaces(s, i + 6);
      if b >= |s| || s[b] != '=' then None
      else
        var c := SkipRegexSpaces(s, b + 1);
        if c >= |s| || s[c] != '"' then None
        else
          var q := IndexOfChar(s, '"', c + 1);
          if q <= c + 1 then None
          else
            assert forall k :: c + 1 <= k < q ==> s[k] != '"';
            Some(s[c + 1..q])
  }

  /** The first action value found at or after i, or "". */
  function FirstAction(s: string, i: nat): (r: string)
    requires i <= |s|
    ensures '"' !in r
    decreases |s| - i
  {
    if i == |s| then ""
    else
      var a := ActionAt(s, i);
      if a.Some? then a.value else FirstAction(s, i + 1)
  }

  /** Without the word "action" there is no action. */
  lemma {:induction false} NoActionWord(s: string, i: nat)
    requires i <= |s|
    requires forall k :: i <= k <= |s| ==> !StartsAt(s, "action", k)
    ensures FirstAction(s, i) == ""
    decreases |s| - i
  {
    if i < |s| {
      NoActionWord(s, i + 1);
    }
  }

  /** `action="v"` at the start of the attributes is the action. */
  lemma ActionFirst(v: string, rest: string)
    requires v != [] && '"' !in v
    ensures FirstAction("action=\"" + v + "\"" + rest, 0) == v
  {
    var t := "action=\"" + v + "\"" + rest;
    assert t[..6] == "action";
    assert t[6] == '=' && t[7] == '"';
    assert SkipRegexSpaces(t, 6) == 6;
    assert SkipRegexSpaces(t, 7) == 7;
    forall k | 8 <= k < 8 + |v|
      ensures t[k] != '"'
    {
      assert t[k] == v[k - 8];
    }
    assert t[8 + |v|] == '"';
    assert IndexOfChar(t, '"', 8) == 8 + |v|;
    assert t[8..8 + |v|] == v;
  }

  // ---------------------------------------------------------------------
  // value=""([^"]+)""  replaced by  value="$1"

  /** The inner closing quote q when value=""X"" starts at i. */
  function DoubledValueAt(s: string, i: nat): (r: Option<nat>)
    requires i <= |s|
    ensures r.Some? ==> i + 8 < r.value && r.value + 2 <= |s|
  {
    if !StartsAt(s, "value=\"\"", i) then None
    else
      var q := IndexOfChar(s, '"', i + 8);
      if q <= i + 8 || q + 1 >= |s| || s[q + 1] != '"' then None else Some(q)
  }

  function UndoubleValuesFrom(s: string, i: nat): (r: string)
    requires i <= |s|
    decreases |s| - i
  {
    if i == |s| then []
    else
      var m := DoubledValueAt(s, i);
      if m.Some? then "value=\"" + s[i + 8..m.value] + "\"" + UndoubleValuesFrom(s, m.value + 2)
      else [s[i]] + UndoubleValuesFrom(s, i + 1)
  }

  function UndoubleValues(s: string): string {
    UndoubleValuesFrom(s, 0)
  }

  /** Text without any `""` is left as it is. */
  lemma {:induction false} UndoubleNoDoubleQuote(s: string, i: nat)
    requires i <= |s|
    requires forall k :: i <= k < |s| - 1 ==> !(s[k] == '"' && s[k + 1] == '"')
    ensures UndoubleValuesFrom(s, i) == s[i..]
    decreases |s| - i
  {
    if i < |s| {
      assert i + 8 <= |s| ==> s[i..i + 8][6] == s[i + 6] && s[i..i + 8][7] == s[i + 7];
      UndoubleNoDoubleQuote(s, i + 1);
      assert s[i..] == [s[i]] + s[i + 1..];
    }
  }
}
