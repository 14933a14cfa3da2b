/** formatLinks: every `<a ...>text</a>` becomes a `<button>` whose size is
    chosen from the length of the link text.  NpcHtmlMessage takes its slots
    from config/traducao/config.properties (or a fallback table) and leaves
    pages that already have buttons or form fields alone; TutorialShowHtml
    has fixed thresholds and no such early return. */
module LinkButtons {
  import opened Text
  import opened HtmlRegex

  datatype ButtonConfig = ButtonConfig(width: int, height: int, back: string, fore: string)

  /** The loaded button slots and their length limits. */
  datatype ButtonSetup = ButtonSetup(configs: seq<ButtonConfig>, limits: seq<int>)

  /** The limits in force before the config file is read, and after a failed read. */
  const DEFAULT_LIMITS: seq<int> := [8, 11, 14, 18, 46, INT_MAX]

  /** The six slots used when the config file cannot be read. */
  const FALLBACK_CONFIGS: seq<ButtonConfig> := [
    ButtonConfig(48, 13, "L2UI_ch3.smallbutton1_over", "L2UI_ch3.smallbutton1"),
    ButtonConfig(65, 13, "L2UI_ch3.smallbutton2_over", "L2UI_ch3.smallbutton2"),
    ButtonConfig(95, 13, "L2UI_ch3.bigbutton_over", "L2UI_ch3.bigbutton"),
    ButtonConfig(133, 13, "L2butom.bigbutton3_over", "L2butom.bigbutton3"),
    ButtonConfig(238, 13, "L2butom.bitbuttom7_over", "L2butom.bitbuttom7"),
    ButtonConfig(238, 19, "L2butom.bitbuttom8_over", "L2butom.bitbuttom8")]

  const FALLBACK_SETUP: ButtonSetup := ButtonSetup(FALLBACK_CONFIGS, DEFAULT_LIMITS)

  /** Every limit has a slot, and slot 0 exists. */
  predicate ValidSetup(setup: ButtonSetup) {
    |setup.limits| <= |setup.configs| && |setup.configs| >= 1
  }

  /** How a packet formats its links. */
  datatype LinkStyle = Configured(setup: ButtonSetup) | Fixed

  predicate ValidStyle(style: LinkStyle) {
    style.Configured? ==> ValidSetup(style.setup)
  }

  /** The loop over BUTTON_LENGTHS from index i: the first slot whose limit
      is at least len, or 0 when there is none. */
  function ChooseSlotFrom(limits: seq<int>, len: int, i: nat): (r: nat)
    requires i <= |limits|
    ensures r == 0 || (i <= r < |limits| && len <= limits[r])
    ensures r != 0 || i == 0 ==> forall j :: i <= j < r ==> len > limits[j]
    decreases |limits| - i
  {
    if i == |limits| then 0
    else if len <= limits[i] then i
    else ChooseSlotFrom(limits, len, i + 1)
  }

  /** The slot formatLinks picks. */
  function ChooseSlot(limits: seq<int>, len: int): nat
  {
    ChooseSlotFrom(limits, len, 0)
  }

  /** The slot is the first one whose limit admits the length; when no limit
      does, slot 0 is the fallback. */
  lemma {:induction false} ChooseSlotFirstFit(limits: seq<int>, len: int, i: nat)
    requires i <= |limits|
    ensures (exists j :: i <= j < |limits| && len <= limits[j]) ==>
      var r := ChooseSlotFrom(limits, len, i);
      i <= r < |limits| && len <= limits[r] && forall j :: i <= j < r ==> len > limits[j]
    ensures (forall j :: i <= j < |limits| ==> len > limits[j]) ==> ChooseSlotFrom(limits, len, i) == 0
    decreases |limits| - i
  {
    if i < |limits| && len > limits[i] {
      ChooseSlotFirstFit(limits, len, i + 1);
    }
  }

  /** The slot TutorialShowHtml's if-chain picks: 8, 11, 16, 20, 46 chars. */
  function TutorialSlot(len: int): (r: nat)
    ensures r < 6
  {
    if len <= 8 then 0
    else if len <= 11 then 1
    else if len <= 16 then 2
    else if len <= 20 then 3
    else if len <= 46 then 4
    else 5
  }

  const TUTORIAL_LIMITS: seq<int> := [8, 11, 16, 20, 46, INT_MAX]

  /** The tutorial's chain is the configured loop over the limits
      8, 11, 16, 20, 46, MAX_VALUE, for every length a Java string can have. */
  lemma TutorialSlotIsFirstFit(len: int)
    requires len <= INT_MAX
    ensures TutorialSlot(len) == ChooseSlot(TUTORIAL_LIMITS, len)
  {
    var l := TUTORIAL_LIMITS;
    assert l[0] == 8 && l[1] == 11 && l[2] == 16 && l[3] == 20 && l[4] == 46 && l[5] == INT_MAX;
    assert ChooseSlotFrom(l, len, 5) == 5;
    assert ChooseSlotFrom(l, len, 4) == if len <= 46 then 4 else 5;
    assert ChooseSlotFrom(l, len, 3) == if len <= 20 then 3 else ChooseSlotFrom(l, len, 4);
    assert ChooseSlotFrom(l, len, 2) == if len <= 16 then 2 else ChooseSlotFrom(l, len, 3);
    assert ChooseSlotFrom(l, len, 1) == if len <= 11 then 1 else ChooseSlotFrom(l, len, 2);
    assert ChooseSlotFrom(l, len, 0) == if len <= 8 then 0 else ChooseSlotFrom(l, len, 1);
  }

  /** String.format of the button template. */
  function ButtonTag(cfg: ButtonConfig, action: string, text: string): string {
    "<button width=" + IntToString(cfg.width) + " height=" + IntToString(cfg.height)
      + " back=\"" + cfg.back + "\" fore=\"" + cfg.fore + "\" action=\"" + action + "\" value=\"" + text + "\">"
  }

  /** One pair of surrounding double quotes removed, when there is a pair. */
  function StripQuotes(t: string): (r: string)
    ensures |t| > 1 && t[0] == '"' && t[|t| - 1] == '"' ==> r == t[1..|t| - 1]
    ensures !(|t| > 1 && t[0] == '"' && t[|t| - 1] == '"') ==> r == t
  {
    if StartsWith(t, "\"") && EndsWith(t, "\"") && |t| > 1 then t[1..|t| - 1] else t
  }

  /** The link text as it goes into the button.  NpcHtmlMessage unwraps
      every font element in it (any colour, then LEVEL); TutorialShowHtml
      only when the whole text is one font element. */
  function LinkText(style: LinkStyle, raw: string): string
  {
    var t := Trim(raw);
    var u := if style.Configured? then UnwrapFonts(UnwrapFonts(t, false), true)
      else
        var v := if FontWrapped(t, false) then UnwrapFonts(t, false) else t;
        if FontWrapped(v, true) then UnwrapFonts(v, true) else v;
    StripQuotes(u)
  }

  /** The slot configuration for a text of length len. */
  function ConfigFor(style: LinkStyle, len: nat): ButtonConfig
    requires ValidStyle(style)
  {
    if style.Configured? then style.setup.configs[ChooseSlot(style.setup.limits, len)]
    else FALLBACK_CONFIGS[TutorialSlot(len)]
  }

  /** The replacement of one anchor with attributes `attrs` and text `raw`. */
  function ButtonFor(style: LinkStyle, attrs: string, raw: string): string
    requires ValidStyle(style)
  {
    var text := LinkText(style, raw);
    var a := Trim(attrs);
    var tag := ButtonTag(ConfigFor(style, |text|), FirstAction(a, 0), text);
    UndoubleValues(UndoubleValues(tag))
  }

  /** The button for the anchor of `html` at `i` whose '>' and "</a>" are at
      `a`. */
  function AnchorButton(html: string, i: nat, a: (nat, nat), style: LinkStyle): string
    requires i + 2 <= a.0 < a.1 <= |html| && ValidStyle(style)
  {
    var p := AnchorParts(html, i, a);
    ButtonFor(style, p.0, p.1)
  }

  /** The attributes and the text of that anchor. */
  function AnchorParts(html: string, i: nat, a: (nat, nat)): (string, string)
    requires i + 2 <= a.0 < a.1 <= |html|
  {
    (html[i + 2..a.0], html[a.0 + 1..a.1])
  }

  /** One step of the matcher at i: the text it appends and where it goes on. */
  function FormatStep(html: string, i: nat, style: LinkStyle): (r: (string, nat))
    requires i < |html| && ValidStyle(style)
    ensures i < r.1 <= |html|
  {
    var m := AnchorAt(html, i);
    if m.Some? then (AnchorButton(html, i, m.value, style), m.value.1 + 4)
    else ([html[i]], i + 1)
  }

  /** The matcher loop of formatLinks from index i. */
  function FormatFrom(html: string, i: nat, style: LinkStyle): (r: string)
    requires i <= |html| && ValidStyle(style)
    decreases |html| - i
  {
    if i == |html| then []
    else
      var st := FormatStep(html, i, style);
      st.0 + FormatFrom(html, st.1, style)
  }

  /** NpcHtmlMessage's early return. */
  predicate HasFormControls(html: string) {
    Contains(html, "<button") || Contains(html, "<edit") || Contains(html, "<combobox")
  }

  /** formatLinks for either packet. */
  function FormatLinksSpec(html: string, style: LinkStyle): string
    requires ValidStyle(style)
  {
    if style.Configured? && HasFormControls(html) then html else FormatFrom(html, 0, style)
  }

  /** The matcher loop of formatLinks, with appendReplacement and appendTail. */
  method FormatLinks(html: string, style: LinkStyle) returns (out: string)
    requires ValidStyle(style)
    ensures out == FormatLinksSpec(html, style)
    ensures style.Configured? && HasFormControls(html) ==> out == html
  {
    if style.Configured? && HasFormControls(html) {
      return html;
    }
    out := [];
    var i := 0;
    while i < |html|
      invariant 0 <= i <= |html|
      invariant out + FormatFrom(html, i, style) == FormatFrom(html, 0, style)
      decreases |html| - i
    {
      var st := FormatStep(html, i, style);
      ghost var rest := FormatFrom(html, st.1, style);
      assert FormatFrom(html, i, style) == st.0 + rest;
      assert out + (st.0 + rest) == (out + st.0) + rest;
      out := out + st.0;
      i := st.1;
    }
  }

  /** A page without "<a" is returned as it is. */
  lemma {:induction false} NoAnchorUnchanged(html: string, i: nat, style: LinkStyle)
    requires i <= |html| && ValidStyle(style)
    requires forall k :: i <= k < |html| ==> !StartsAt(html, "<a", k)
    ensures FormatFrom(html, i, style) == html[i..]
    decreases |html| - i
  {
    if i < |html| {
      assert FormatStep(html, i, style) == ([html[i]], i + 1);
      NoAnchorUnchanged(html, i + 1, style);
      assert html[i..] == [html[i]] + html[i + 1..];
    }
  }

  /** A page that is one anchor becomes that anchor's button. */
  lemma SingleAnchor(attrs: string, text: string, style: LinkStyle)
    requires ValidStyle(style)
    requires '>' !in attrs && '<' !in text && NoLineTerminator(text)
    ensures FormatFrom("<a" + attrs + ">" + text + "</a>", 0, style) == ButtonFor(style, attrs, text)
  {
    var html := "<a" + attrs + ">" + text + "</a>";
    var g := 2 + |attrs|;
    var j := g + 1 + |text|;
    SingleAnchorAt(attrs, text);
    FormatAnchorUnfold(html, 0, style);
    AnchorButtonOf(html, 0, (g, j), attrs, text, style);
    assert FormatFrom(html, j + 4, style) == [];
  }

  /** Where the one anchor of such a page has its parts. */
  lemma SingleAnchorAt(attrs: string, text: string)
    requires '>' !in attrs && '<' !in text && NoLineTerminator(text)
    ensures var html := "<a" + attrs + ">" + text + "</a>";
      var g := 2 + |attrs|;
      var j := g + 1 + |text|;
      AnchorAt(html, 0) == Some((g, j)) && AnchorParts(html, 0, (g, j)) == (attrs, text) && j + 4 == |html|
  {
    var html := "<a" + attrs + ">" + text + "</a>";
    var g := 2 + |attrs|;
    var j := g + 1 + |text|;
    AnchorOpenEnd(attrs, text, html, g);
    AnchorCloseAt(attrs, text, html, g, j);
    AnchorAtOf(html, g, j);
  }

  /** The opening tag of that anchor ends at its first '>'. */
  lemma AnchorOpenEnd(attrs: string, text: string, html: string, g: nat)
    requires '>' !in attrs
    requires html == "<a" + attrs + ">" + text + "</a>" && g == 2 + |attrs|
    ensures StartsAt(html, "<a", 0) && IndexOfChar(html, '>', 2) == g && html[2..g] == attrs
  {
    assert html[..2] == "<a";
    forall k | 2 <= k < g
      ensures html[k] != '>'
    {
      assert html[k] == attrs[k - 2];
    }
    assert html[g] == '>';
    IndexOfCharIs(html, '>', 2, g);
    assert html[2..g] == attrs;
  }

  /** The text of that anchor runs to the "</a>" that ends it. */
  lemma AnchorCloseAt(attrs: string, text: string, html: string, g: nat, j: nat)
    requires '<' !in text
    requires html == "<a" + attrs + ">" + text + "</a>" && g == 2 + |attrs| && j == g + 1 + |text|
    ensures IndexOf(html, "</a>", g + 1) == j && html[g + 1..j] == text && j + 4 == |html|
  {
    assert html[j..j + 4] == "</a>";
    forall k | g + 1 <= k < j
      ensures !StartsAt(html, "</a>", k)
    {
      assert html[k] == text[k - g - 1];
      assert text[k - g - 1] in text;
      assert k + 4 <= |html| ==> html[k..k + 4][0] == html[k];
    }
    IndexOfIs(html, "</a>", g + 1, j);
    assert html[g + 1..j] == text;
  }

  /** An opening tag ending at g and its first "</a>" at j, with no line
      terminator between: that is the anchor at 0. */
  lemma AnchorAtOf(html: string, g: nat, j: nat)
    requires StartsAt(html, "<a", 0) && 2 <= g && IndexOfChar(html, '>', 2) == g
    requires g < j <= |html| && IndexOf(html, "</a>", g + 1) == j && NoLineTerminator(html[g + 1..j])
    ensures AnchorAt(html, 0) == Some((g, j))
  {
  }

  /** The matcher at an anchor: its button, then the rest after "</a>". */
  lemma FormatAnchorUnfold(html: string, i: nat, style: LinkStyle)
    requires i < |html| && ValidStyle(style) && AnchorAt(html, i).Some?
    ensures var a := AnchorAt(html, i).value;
      FormatFrom(html, i, style) == AnchorButton(html, i, a, style) + FormatFrom(html, a.1 + 4, style)
  {
    FormatFromUnfold(html, i, style);
    AnchorStep(html, i, style);
  }

  lemma FormatFromUnfold(html: string, i: nat, style: LinkStyle)
    requires i < |html| && ValidStyle(style)
    ensures FormatFrom(html, i, style) == FormatStep(html, i, style).0 + FormatFrom(html, FormatStep(html, i, style).1, style)
  {
  }

  lemma AnchorStep(html: string, i: nat, style: LinkStyle)
    requires i < |html| && ValidStyle(style) && AnchorAt(html, i).Some?
    ensures FormatStep(html, i, style).0 == AnchorButton(html, i, AnchorAt(html, i).value, style)
    ensures FormatStep(html, i, style).1 == AnchorAt(html, i).value.1 + 4
  {
  }

  /** The button of an anchor depends only on its attributes and text. */
  lemma AnchorButtonOf(html: string, i: nat, a: (nat, nat), attrs: string, text: string, style: LinkStyle)
    requires i + 2 <= a.0 < a.1 <= |html| && ValidStyle(style)
    requires AnchorParts(html, i, a) == (attrs, text)
    ensures AnchorButton(html, i, a, style) == ButtonFor(style, attrs, text)
  {
  }

  /** No two double quotes side by side. */
  predicate NoDoubledQuote(s: string) {
    forall k :: 0 <= k < |s| - 1 ==> !(s[k] == '"' && s[k + 1] == '"')
  }

  lemma NoDoubledQuoteConcat(a: string, b: string)
    requires NoDoubledQuote(a) && NoDoubledQuote(b)
    requires a == [] || b == [] || !(a[|a| - 1] == '"' && b[0] == '"')
    ensures NoDoubledQuote(a + b)
  {
    var s := a + b;
    forall k | 0 <= k < |s| - 1
      ensures !(s[k] == '"' && s[k + 1] == '"')
    {
      if k < |a| - 1 {
        assert s[k] == a[k] && s[k + 1] == a[k + 1];
      } else if k >= |a| {
        assert s[k] == b[k - |a|] && s[k + 1] == b[k + 1 - |a|];
      }
    }
  }

  /** A non-empty field without quotes, placed between a literal that ends
      in a quote and one that starts with one. */
  lemma QuotedField(pre: string, field: string)
    requires NoDoubledQuote(pre) && field != [] && '"' !in field
    ensures NoDoubledQuote(pre + field) && (pre + field)[|pre + field| - 1] != '"'
  {
    assert NoDoubledQuote(field);
    NoDoubledQuoteConcat(pre, field);
    assert (pre + field)[|pre + field| - 1] == field[|field| - 1];
  }

  lemma AfterField(pre: string, lit: string)
    requires NoDoubledQuote(pre) && pre != [] && pre[|pre| - 1] != '"' && NoDoubledQuote(lit)
    ensures NoDoubledQuote(pre + lit)
  {
    NoDoubledQuoteConcat(pre, lit);
  }

  /** With every field non-empty and free of quotes the button has no `""`,
      so the two value="" clean-ups leave it alone. */
  lemma ButtonTagNoDoubledQuote(cfg: ButtonConfig, action: string, text: string)
    requires cfg.back != [] && '"' !in cfg.back && cfg.fore != [] && '"' !in cfg.fore
    requires action != [] && '"' !in action && text != [] && '"' !in text
    ensures NoDoubledQuote(ButtonTag(cfg, action, text))
  {
    var s2 := ButtonHead(cfg);
    ButtonHeadNoDoubledQuote(cfg);
    AfterField(s2, "\" fore=\"");
    QuotedField(s2 + "\" fore=\"", cfg.fore);
    var s3 := s2 + "\" fore=\"" + cfg.fore;
    AfterField(s3, "\" action=\"");
    QuotedField(s3 + "\" action=\"", action);
    var s4 := s3 + "\" action=\"" + action;
    AfterField(s4, "\" value=\"");
    QuotedField(s4 + "\" value=\"", text);
    var s5 := s4 + "\" value=\"" + text;
    AfterField(s5, "\">");
    assert s5 + "\">" == ButtonTag(cfg, action, text);
  }

  /** The button template up to the back texture. */
  function ButtonHead(cfg: ButtonConfig): string {
    "<button width=" + IntToString(cfg.width) + " height=" + IntToString(cfg.height) + " back=\"" + cfg.back
  }

  lemma ButtonHeadNoDoubledQuote(cfg: ButtonConfig)
    requires cfg.back != [] && '"' !in cfg.back
    ensures NoDoubledQuote(ButtonHead(cfg)) && ButtonHead(cfg)[|ButtonHead(cfg)| - 1] != '"'
  {
    var w, h := IntToString(cfg.width), IntToString(cfg.height);
    IntToStringHasNo(cfg.width, '"');
    IntToStringHasNo(cfg.height, '"');
    var s0 := "<button width=";
    QuotedField(s0, w);
    AfterField(s0 + w, " height=");
    QuotedField(s0 + w + " height=", h);
    var s1 := s0 + w + " height=" + h;
    AfterField(s1, " back=\"");
    QuotedField(s1 + " back=\"", cfg.back);
  }

  /** Plain text (no '<', no surrounding blanks or quotes) is the link text. */
  lemma LinkTextPlain(style: LinkStyle, text: string)
    requires text != [] && '<' !in text && text[0] != '"'
    requires !IsTrimmable(text[0]) && !IsTrimmable(text[|text| - 1])
    ensures LinkText(style, text) == text
  {
    TrimNoop(text);
    assert forall k :: 0 <= k < |text| ==> text[k] != '<' by {
      assert forall k :: 0 <= k < |text| ==> text[k] in text;
    }
    UnwrapFontsNoTag(text, 0, false);
    UnwrapFontsNoTag(text, 0, true);
    assert text[0..] == text;
    NotFontWrapped(text, false);
    NotFontWrapped(text, true);
  }

  /** Attributes that start with action="v" give the action v. */
  lemma AttrsAction(action: string, rest: string)
    requires action != [] && '"' !in action
    requires rest == [] || !IsTrimmable(rest[|rest| - 1])
    ensures FirstAction(Trim("action=\"" + action + "\"" + rest), 0) == action
  {
    var attrs := "action=\"" + action + "\"" + rest;
    assert attrs[0] == 'a';
    assert attrs[|attrs| - 1] == (if rest == [] then '"' else rest[|rest| - 1]);
    TrimNoop(attrs);
    ActionFirst(action, rest);
  }

  /** A button without `""` is not touched by the value="" clean-ups. */
  lemma ButtonUntouched(cfg: ButtonConfig, action: string, text: string)
    requires cfg.back != [] && '"' !in cfg.back && cfg.fore != [] && '"' !in cfg.fore
    requires action != [] && '"' !in action && text != [] && '"' !in text
    ensures UndoubleValues(UndoubleValues(ButtonTag(cfg, action, text))) == ButtonTag(cfg, action, text)
  {
    var tag := ButtonTag(cfg, action, text);
    ButtonTagNoDoubledQuote(cfg, action, text);
    UndoubleNoDoubleQuote(tag, 0);
    assert tag[0..] == tag;
  }

  /** For an anchor with an action and plain link text, the button carries
      exactly that action and that text, in the slot chosen by its length. */
  lemma PlainLinkButton(style: LinkStyle, action: string, rest: string, text: string)
    requires ValidStyle(style)
    requires action != [] && '"' !in action && text != [] && '"' !in text && '<' !in text
    requires !IsTrimmable(text[0]) && !IsTrimmable(text[|text| - 1])
    requires rest == [] || !IsTrimmable(rest[|rest| - 1])
    requires var cfg := ConfigFor(style, |text|);
      cfg.back != [] && '"' !in cfg.back && cfg.fore != [] && '"' !in cfg.fore
    ensures ButtonFor(style, "action=\"" + action + "\"" + rest, text) == ButtonTag(ConfigFor(style, |text|), action, text)
  {
    LinkTextPlain(style, text);
    AttrsAction(action, rest);
    ButtonUntouched(ConfigFor(style, |text|), action, text);
  }
}
