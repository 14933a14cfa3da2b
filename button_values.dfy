/** The button-label stage of processHtmltags: the value="..." text of every
    <button ...> is cut to at most 45 characters. */
module ButtonValues {
  import opened Text
  import opened JavaReplacement

  const MAX_VALUE: nat := 45
  const VALUE_ATTR: string := "value=\""
  const BUTTON_OPEN: string := "<button"

  /** value="([^"]+)" at index p: returns the index of the closing quote. */
  function ValueAttrAt(s: string, p: nat): (r: Option<nat>)
    ensures r.Some? ==> StartsAt(s, VALUE_ATTR, p) && p + 7 < r.value < |s| && s[r.value] == '"'
    ensures r.Some? ==> forall k :: p + 7 <= k < r.value ==> s[k] != '"'
  {
    if StartsAt(s, VALUE_ATTR, p) then
      var q := IndexOfChar(s, '"', p + 7);
      if q > p + 7 then Some(q) else None
    else None
  }

  /** The last index in [lo, p] where value="..." matches. */
  function LastValueIn(s: string, lo: nat, p: int): (r: Option<nat>)
    ensures r.Some? ==> lo <= r.value <= p && ValueAttrAt(s, r.value).Some?
    ensures r.Some? ==> forall k :: r.value < k <= p ==> ValueAttrAt(s, k).None?
    ensures r.None? ==> forall k :: lo <= k <= p ==> ValueAttrAt(s, k).None?
    decreases p - lo + 1
  {
    if p < lo then None
    else if ValueAttrAt(s, p).Some? then Some(p)
    else LastValueIn(s, lo, p - 1)
  }

  /** The first index at or after p where value="..." matches. */
  function FirstValueIn(s: string, p: nat): (r: Option<nat>)
    ensures r.Some? ==> p <= r.value < |s| && ValueAttrAt(s, r.value).Some?
    ensures r.Some? ==> forall k :: p <= k < r.value ==> ValueAttrAt(s, k).None?
    ensures r.None? ==> forall k :: p <= k ==> ValueAttrAt(s, k).None?
    decreases |s| - p
  {
    if p >= |s| then None
    else if ValueAttrAt(s, p).Some? then Some(p)
    else FirstValueIn(s, p + 1)
  }

  /** <button[^>]*value="([^"]+)" at index i: `[^>]*` runs to the first
      '>' and backtracks, so the match takes the last value="..." that
      starts before that '>'.  Returns where value= starts and the index of
      its closing quote. */
  function ButtonAt(s: string, i: nat): (r: Option<(nat, nat)>)
    ensures r.Some? ==> StartsAt(s, BUTTON_OPEN, i) && i + 7 <= r.value.0
    ensures r.Some? ==> ValueAttrAt(s, r.value.0) == Some(r.value.1)
    ensures r.Some? ==> forall k :: i + 7 <= k < r.value.0 ==> s[k] != '>'
  {
    if StartsAt(s, BUTTON_OPEN, i) then
      var f := IndexOfChar(s, '>', i + 7);
      var hi := if f == -1 then |s| else f;
      var p := LastValueIn(s, i + 7, hi);
      if p.Some? then
        assert p.value != f;
        Some((p.value, ValueAttrAt(s, p.value).value))
      else None
    else None
  }

  /** The label cut to 45 characters. */
  function Cut(v: string): (r: string)
    ensures |r| <= MAX_VALUE && r <= v
    ensures |v| <= MAX_VALUE ==> r == v
  {
    if |v| > MAX_VALUE then v[..MAX_VALUE] else v
  }

  /** replaceFirst("value=\"[^\"]+\"", ...) with a literal replacement. */
  function ReplaceFirstValue(g: string, lit: string): string {
    var p := FirstValueIn(g, 0);
    if p.Some? then g[..p.value] + lit + g[ValueAttrAt(g, p.value).value + 1..]
    else g
  }

  /** What goes between the quotes: the cut label, or, as written, the cut
      label passed once more through quoteReplacement, whose backslashes
      the literal replacement keeps. */
  function NewLabel(v: string, asWritten: bool): string {
    if asWritten then QuoteReplacement(Cut(v)) else Cut(v)
  }

  function TruncStep(s: string, i: nat, asWritten: bool): (r: (string, nat))
    requires i < |s|
    ensures i < r.1 <= |s|
  {
    var m := ButtonAt(s, i);
    if m.Some? then (MatchReplacement(s, i, m.value.0, m.value.1, asWritten), m.value.1 + 1)
    else ([s[i]], i + 1)
  }

  /** The text a match from i to the quote at q becomes, its label
      starting at p + 7. */
  function MatchReplacement(s: string, i: nat, p: nat, q: nat, asWritten: bool): string
    requires i <= p && p + 7 < q < |s|
  {
    ReplaceFirstValue(s[i..q + 1], VALUE_ATTR + NewLabel(s[p + 7..q], asWritten) + "\"")
  }

  function TruncFrom(s: string, i: nat, asWritten: bool): string
    requires i <= |s|
    decreases |s| - i
  {
    if i == |s| then []
    else
      var st := TruncStep(s, i, asWritten);
      st.0 + TruncFrom(s, st.1, asWritten)
  }

  /** The stage with the labels inserted as they are. */
  function TruncateValues(s: string): string {
    TruncFrom(s, 0, false)
  }

  /** The stage as written, with quoteReplacement applied twice. */
  function TruncateValuesAsWritten(s: string): string {
    TruncFrom(s, 0, true)
  }

  /** The matcher loop with appendReplacement and appendTail. */
  method TruncateButtonValues(html: string) returns (out: string)
    ensures out == TruncateValues(html)
  {
    out := "";
    var i: nat := 0;
    while i < |html|
      invariant i <= |html|
      invariant out + TruncFrom(html, i, false) == TruncateValues(html)
      decreases |html| - i
    {
      var st := TruncStep(html, i, false);
      ghost var rest := TruncFrom(html, st.1, false);
      assert TruncFrom(html, i, false) == st.0 + rest;
      Associative(out, st.0, rest);
      var m := ButtonAt(html, i);
      if m.Some? {
        var replaced := LimitLabel(html, i, m.value.0, m.value.1);
        out := out + replaced;
        i := m.value.1 + 1;
      } else {
        out := out + [html[i]];
        i := i + 1;
      }
    }
  }

  /** The body of the loop for one match: the label cut to 45 characters
      and put back in place of the first value="..." of the match. */
  method LimitLabel(html: string, i: nat, p: nat, q: nat) returns (replaced: string)
    requires i <= p && p + 7 < q < |html|
    ensures replaced == MatchReplacement(html, i, p, q, false)
  {
    var valueText := html[p + 7..q];
    if |valueText| > MAX_VALUE {
      valueText := valueText[..MAX_VALUE];
    }
    replaced := ReplaceFirstValue(html[i..q + 1], VALUE_ATTR + valueText + "\"");
  }

  /** A page without "<button" goes through unchanged. */
  lemma {:induction false} NoButtonUnchanged(s: string, i: nat, asWritten: bool)
    requires i <= |s|
    requires forall j :: i <= j < |s| ==> !StartsAt(s, BUTTON_OPEN, j)
    ensures TruncFrom(s, i, asWritten) == s[i..]
    decreases |s| - i
  {
    if i < |s| {
      NoButtonUnchanged(s, i + 1, asWritten);
      assert s[i..] == [s[i]] + s[i + 1..];
    }
  }

  /** The page of one button: `<button value="v">`. */
  function OneButton(v: string): string {
    "<button value=\"" + v + "\">"
  }

  lemma OneButtonChars(v: string)
    ensures var s := OneButton(v);
      |s| == |v| + 17 && s[14] == '"' && s[15 + |v|] == '"' && s[16 + |v|] == '>'
      && (forall k :: 0 <= k < 14 ==> s[k] != '"' && s[k] != '>')
      && (forall k :: 15 <= k < 15 + |v| ==> s[k] == v[k - 15])
      && s[..7] == BUTTON_OPEN && s[8..15] == VALUE_ATTR
  {
  }

  /** LastValueIn finds the given match when none follows it. */
  lemma {:induction false} LastValueInIs(s: string, lo: nat, p: int, x: nat)
    requires lo <= x <= p && ValueAttrAt(s, x).Some?
    requires forall k :: x < k <= p ==> ValueAttrAt(s, k).None?
    ensures LastValueIn(s, lo, p) == Some(x)
    decreases p - lo + 1
  {
    if p > x {
      LastValueInIs(s, lo, p - 1, x);
    }
  }

  /** FirstValueIn finds the given match when none precedes it. */
  lemma {:induction false} FirstValueInIs(s: string, p: nat, x: nat)
    requires p <= x && ValueAttrAt(s, x).Some?
    requires forall k :: p <= k < x ==> ValueAttrAt(s, k).None?
    ensures FirstValueIn(s, p) == Some(x)
    decreases x - p
  {
    if p < x {
      FirstValueInIs(s, p + 1, x);
    }
  }

  /** A match in a prefix is a match in the whole text, and a match that
      ends inside the prefix is a match of the prefix. */
  lemma PrefixValueAttr(s: string, n: nat, k: nat)
    requires n <= |s|
    ensures ValueAttrAt(s[..n], k).Some? ==> ValueAttrAt(s, k) == ValueAttrAt(s[..n], k)
    ensures ValueAttrAt(s, k).Some? && ValueAttrAt(s, k).value < n ==> ValueAttrAt(s[..n], k) == ValueAttrAt(s, k)
  {
    var g := s[..n];
    if k + 7 <= n {
      assert g[k..k + 7] == s[k..k + 7];
      IndexOfCharPrefix(s, n, '"', k + 7);
    }
  }

  /** In that page value="..." starts only at index 8. */
  lemma OneButtonValueAt(v: string, p: nat)
    requires v != [] && '"' !in v && '>' !in v
    ensures ValueAttrAt(OneButton(v), p) == if p == 8 then Some(15 + |v|) else None
  {
    var s := OneButton(v);
    OneButtonChars(v);
    assert forall k :: 15 <= k < 15 + |v| ==> s[k] != '"' by {
      assert forall j :: 0 <= j < |v| ==> v[j] in v;
    }
    assert StartsAt(s, VALUE_ATTR, p) ==> s[p + 6] == VALUE_ATTR[6];
    if p == 8 {
      assert StartsAt(s, VALUE_ATTR, 8);
      assert IndexOfChar(s, '"', 15) == 15 + |v|;
    } else if StartsAt(s, VALUE_ATTR, p) && p + 6 >= 15 + |v| {
      assert IndexOfChar(s, '"', p + 7) == -1;
    }
  }

  /** The button of that page is found with its whole label. */
  lemma OneButtonMatch(v: string)
    requires v != [] && '"' !in v && '>' !in v
    ensures ButtonAt(OneButton(v), 0) == Some((8, (15 + |v|) as nat))
  {
    var s := OneButton(v);
    OneButtonChars(v);
    assert StartsAt(s, BUTTON_OPEN, 0);
    assert forall k :: 15 <= k < 15 + |v| ==> s[k] != '>' by {
      assert forall j :: 0 <= j < |v| ==> v[j] in v;
    }
    assert IndexOfChar(s, '>', 7) == 16 + |v|;
    forall k | 8 <= k <= 16 + |v| {
      OneButtonValueAt(v, k);
    }
    LastValueInIs(s, 7, 16 + |v|, 8);
  }

  /** In the matched text the first value="..." is the same one. */
  lemma OneButtonFirstValue(v: string)
    requires v != [] && '"' !in v && '>' !in v
    ensures var g := OneButton(v)[..16 + |v|];
      FirstValueIn(g, 0) == Some(8) && ValueAttrAt(g, 8) == Some(15 + |v|)
  {
    var s := OneButton(v);
    var g := s[..16 + |v|];
    forall k | 0 <= k <= 8
      ensures ValueAttrAt(g, k) == if k == 8 then Some(15 + |v|) else None
    {
      OneButtonValueAt(v, k);
      PrefixValueAttr(s, 16 + |v|, k);
    }
    FirstValueInIs(g, 0, 8);
  }

  /** One button: its label comes out cut to 45 characters, and, as
      written, with a backslash before every `\` and `$`. */
  lemma OneButtonStage(v: string, asWritten: bool)
    requires v != [] && '"' !in v && '>' !in v
    ensures TruncFrom(OneButton(v), 0, asWritten) == OneButton(NewLabel(v, asWritten))
  {
    var s := OneButton(v);
    OneButtonChars(v);
    OneButtonMatch(v);
    OneButtonFirstValue(v);
    var q := 15 + |v|;
    assert s[8 + 7..q] == v;
    var g := s[0..q + 1];
    var lbl := NewLabel(v, asWritten);
    var lit := VALUE_ATTR + lbl + "\"";
    assert TruncStep(s, 0, asWritten) == (ReplaceFirstValue(g, lit), q + 1);
    assert g == s[..16 + |v|];
    assert g[q + 1..] == [];
    assert ReplaceFirstValue(g, lit) == g[..8] + lit;
    assert g[..8] == "<button ";
    NoButtonUnchanged(s, q + 1, asWritten);
    assert s[q + 1..] == ">";
    assert TruncFrom(s, 0, asWritten) == ("<button " + lit) + ">";
    OneButtonShape(lbl);
  }

  lemma OneButtonShape(lbl: string)
    ensures ("<button " + (VALUE_ATTR + lbl + "\"")) + ">" == OneButton(lbl)
  {
    assert "<button value=\"" == "<button " + VALUE_ATTR;
    assert "\">" == "\"" + ">";
  }

  /** A label of at most 45 characters stays as it is, and a longer one is
      cut to its first 45 characters. */
  lemma OneButtonCut(v: string)
    requires v != [] && '"' !in v && '>' !in v
    ensures |v| <= MAX_VALUE ==> TruncateValues(OneButton(v)) == OneButton(v)
    ensures |v| > MAX_VALUE ==> TruncateValues(OneButton(v)) == OneButton(v[..MAX_VALUE])
  {
    OneButtonStage(v, false);
  }

  /** As written, a short label holding a `$` does not come out as it went
      in: it gains a backslash. */
  lemma OneButtonDollar(v: string)
    requires v != [] && '"' !in v && '>' !in v && |v| <= MAX_VALUE && '$' in v
    ensures TruncateValues(OneButton(v)) == OneButton(v)
    ensures |TruncateValuesAsWritten(OneButton(v))| > |OneButton(v)|
  {
    OneButtonStage(v, false);
    OneButtonStage(v, true);
  }
}
