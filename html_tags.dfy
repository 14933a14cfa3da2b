/** processHtmltags, shared by NpcHtmlMessage and TutorialShowHtml: the
    %key% placeholders are filled from the translation table, then the page
    goes through the font, <br1>, wrapping and button-label stages, and a
    page built without a stored translation is handed back for saving. */
module HtmlTags {
  import opened Text
  import opened HtmlRegex
  import opened I18n
  import opened TextWrap
  import opened ButtonValues
  import opened TranslationKey

  /** "%(.*?)%" at index i: the next '%' with no line terminator in between;
      returns its index. */
  function KeyAt(s: string, i: nat): (r: Option<nat>)
    requires i < |s|
    ensures r.Some? ==> i < r.value < |s| && s[i] == '%' && s[r.value] == '%'
    ensures r.Some? ==> '%' !in s[i + 1..r.value] && NoLineTerminator(s[i + 1..r.value])
  {
    if s[i] == '%' then
      var j := IndexOfChar(s, '%', i + 1);
      if j != -1 && NoLineTerminator(s[i + 1..j]) then Some(j) else None
    else None
  }

  /** The keys the matcher finds from index i, in order. */
  function KeysFrom(s: string, i: nat): (r: seq<string>)
    requires i <= |s|
    ensures forall k :: 0 <= k < |r| ==> '%' !in r[k]
    decreases |s| - i
  {
    if i == |s| then []
    else
      var m := KeyAt(s, i);
      if m.Some? then [s[i + 1..m.value]] + KeysFrom(s, m.value + 1)
      else KeysFrom(s, i + 1)
  }

  function Keys(s: string): seq<string> {
    KeysFrom(s, 0)
  }

  /** The placeholder in the page, and the one I18n.get gives back. */
  function Tag(key: string): (r: string)
    ensures r != []
  {
    "%" + key + "%"
  }

  function Placeholder(key: string): string {
    "!" + key + "!"
  }

  /** %quest% and %objectId% are left for the quest and object handlers. */
  predicate Excluded(key: string) {
    LowerStr(key) == "quest" || LowerStr(key) == "objectid"
  }

  /** Excluded is the equalsIgnoreCase test against "quest" and "objectId". */
  lemma ExcludedIgnoresCase(key: string)
    ensures Excluded(key) <==> EqualsIgnoreCase(key, "quest") || EqualsIgnoreCase(key, "objectId")
  {
    LowerStrIs("quest", "quest");
    LowerStrIs("objectId", "objectid");
    EqualsIgnoreCaseLower(key, "quest");
    EqualsIgnoreCaseLower(key, "objectId");
  }

  /** The quote and bracket stripping of a translation, as written: the
      first test also takes ["..."], cutting one character from each end,
      so the quotes of ["..."] stay. */
  function UnquoteAsWritten(v: string): string {
    if |v| > 1 then
      var a := if (StartsWith(v, "\"") && EndsWith(v, "\"")) || (StartsWith(v, "[\"") && EndsWith(v, "\"]"))
        then v[1..|v| - 1] else v;
      StripBrackets(a)
    else v
  }

  /** The same with only "..." in the first test, so that ["..."] reaches
      the bracket step and loses brackets and quotes, as intended. */
  function Unquote(v: string): string {
    if |v| > 1 then
      var a := if StartsWith(v, "\"") && EndsWith(v, "\"") then v[1..|v| - 1] else v;
      StripBrackets(a)
    else v
  }

  /** [text] loses its brackets, and then "text" its quotes. */
  function StripBrackets(a: string): string {
    if StartsWith(a, "[") && EndsWith(a, "]") then
      assert a[0] == '[' && a[|a| - 1] == ']';
      var b := a[1..|a| - 1];
      if StartsWith(b, "\"") && EndsWith(b, "\"") && |b| > 1 then b[1..|b| - 1] else b
    else a
  }

  /** A value that starts with neither a quote nor a bracket is used as it
      is; placeholders in particular. */
  lemma UnquotePlain(v: string)
    requires v == [] || (v[0] != '"' && v[0] != '[')
    ensures Unquote(v) == v && UnquoteAsWritten(v) == v
  {
  }

  lemma PlaceholderUnquoted(key: string)
    ensures Unquote(Placeholder(key)) == Placeholder(key)
  {
    UnquotePlain(Placeholder(key));
  }

  /** "text" loses its quotes. */
  lemma UnquoteQuoted(y: string)
    requires !(StartsWith(y, "[") && EndsWith(y, "]"))
    ensures Unquote("\"" + y + "\"") == y && UnquoteAsWritten("\"" + y + "\"") == y
  {
    var v := "\"" + y + "\"";
    WrappedEnds('"', y, '"');
    assert !StartsWith(v, "[\"");
    assert StripBrackets(y) == y;
  }

  /** [text] loses its brackets when the text is not itself quoted. */
  lemma UnquoteBracketed(y: string)
    requires !(StartsWith(y, "\"") && EndsWith(y, "\""))
    ensures Unquote("[" + y + "]") == y && UnquoteAsWritten("[" + y + "]") == y
  {
    var v := "[" + y + "]";
    WrappedEnds('[', y, ']');
    BracketedQuoteInside(y);
    assert StripBrackets(v) == y;
  }

  /** The ends and the inside of c + y + d. */
  lemma WrappedEnds(c: char, y: string, d: char)
    ensures var v := [c] + y + [d];
      |v| == |y| + 2 && v[1..|v| - 1] == y
      && (StartsWith(v, [c]) && EndsWith(v, [d]))
      && (StartsWith(v, "\"") <==> c == '"') && (EndsWith(v, "\"") <==> d == '"')
      && (StartsWith(v, "[") <==> c == '[') && (EndsWith(v, "]") <==> d == ']')
  {
    var v := [c] + y + [d];
    assert v[0..1] == [c];
    assert v[|v| - 1..] == [d];
    assert v[1..|v| - 1] == y;
  }

  /** ["..."] around y means y itself is quoted. */
  lemma BracketedQuoteInside(y: string)
    ensures var v := "[" + y + "]";
      StartsWith(v, "[\"") && EndsWith(v, "\"]") ==> StartsWith(y, "\"") && EndsWith(y, "\"")
  {
    var v := "[" + y + "]";
    if StartsWith(v, "[\"") && EndsWith(v, "\"]") {
      assert v[0..2][1] == v[1] == y[0];
      assert |y| >= 1;
      assert v[|v| - 2..][0] == v[|v| - 2] == y[|y| - 1];
      assert y[0..1] == "\"";
      assert y[|y| - 1..] == "\"";
    }
  }

  /** ["text"] loses brackets and quotes. */
  lemma UnquoteBracketedQuote(y: string)
    ensures Unquote("[\"" + y + "\"]") == y
  {
    var v := "[\"" + y + "\"]";
    var b := "\"" + y + "\"";
    assert v == "[" + b + "]";
    WrappedEnds('[', b, ']');
    WrappedEnds('"', y, '"');
    assert |b| > 1;
    assert StripBrackets(v) == y;
  }

  /** As written, ["text"] keeps its quotes. */
  lemma UnquoteAsWrittenKeepsQuotes(y: string)
    ensures UnquoteAsWritten("[\"" + y + "\"]") == "\"" + y + "\""
  {
    var v := "[\"" + y + "\"]";
    var b := "\"" + y + "\"";
    assert v == "[" + b + "]";
    WrappedEnds('[', b, ']');
    Wrapped("[\"", y, "\"]");
    WrappedEnds('"', y, '"');
    assert StripBrackets(b) == b;
  }

  /** What the first pass keeps track of. */
  datatype KeyState = KeyState(html: string, processed: set<string>, unprocessed: seq<string>)

  /** The first pass for one found key: skipped when excluded or already
      replaced; put aside when its cleaned translation is the placeholder;
      otherwise every %key% is replaced by the cleaned translation. */
  function KeyStep(st: KeyState, key: string, table: map<string, string>): KeyState {
    if Excluded(key) || key in st.processed then st
    else
      var v := Unquote(Lookup(table, key));
      if v == Placeholder(key) then st.(unprocessed := st.unprocessed + [key])
      else KeyState(Replace(st.html, Tag(key), v), st.processed + {key}, st.unprocessed)
  }

  function FirstPass(st: KeyState, keys: seq<string>, table: map<string, string>): KeyState
    decreases |keys|
  {
    if keys == [] then st else FirstPass(KeyStep(st, keys[0], table), keys[1..], table)
  }

  /** The second pass over the keys put aside: the raw translation is used
      whenever it is not the placeholder. */
  function SecondPass(html: string, keys: seq<string>, table: map<string, string>): string
    decreases |keys|
  {
    if keys == [] then html
    else
      var raw := Lookup(table, keys[0]);
      var next := if raw != Placeholder(keys[0]) then Replace(html, Tag(keys[0]), raw) else html;
      SecondPass(next, keys[1..], table)
  }

  function SubstituteKeysSpec(html: string, table: map<string, string>): string {
    var st := FirstPass(KeyState(html, {}, []), Keys(html), table);
    SecondPass(st.html, st.unprocessed, table)
  }

  /** What the first pass promises about its bookkeeping: every replaced key
      is a page key that is not excluded and had a real translation, and
      every key put aside is a page key that is not excluded and whose
      cleaned translation is the placeholder.  */
  predicate Bookkeeping(st: KeyState, table: map<string, string>, found: seq<string>) {
    (forall k :: k in st.processed ==> k in found && !Excluded(k) && Unquote(Lookup(table, k)) != Placeholder(k))
    && (forall i :: 0 <= i < |st.unprocessed| ==>
          st.unprocessed[i] in found && !Excluded(st.unprocessed[i])
          && Unquote(Lookup(table, st.unprocessed[i])) == Placeholder(st.unprocessed[i]))
  }

  lemma {:induction false} FirstPassBookkeeping(st: KeyState, keys: seq<string>, table: map<string, string>, found: seq<string>)
    requires Bookkeeping(st, table, found)
    requires forall i :: 0 <= i < |keys| ==> keys[i] in found
    ensures Bookkeeping(FirstPass(st, keys, table), table, found)
    decreases |keys|
  {
    if keys != [] {
      var next := KeyStep(st, keys[0], table);
      assert Bookkeeping(next, table, found);
      FirstPassBookkeeping(next, keys[1..], table, found);
    }
  }

  /** The bookkeeping of the whole first pass. */
  lemma SubstitutionBookkeeping(html: string, table: map<string, string>)
    ensures Bookkeeping(FirstPass(KeyState(html, {}, []), Keys(html), table), table, Keys(html))
  {
    FirstPassBookkeeping(KeyState(html, {}, []), Keys(html), table, Keys(html));
  }

  /** When the table has no entry for any key of the page, the first pass
      changes nothing on the page. */
  lemma {:induction false} FirstPassUntouched(st: KeyState, keys: seq<string>, table: map<string, string>)
    requires forall i :: 0 <= i < |keys| ==> keys[i] !in table
    ensures FirstPass(st, keys, table).html == st.html
    decreases |keys|
  {
    if keys != [] {
      PlaceholderUnquoted(keys[0]);
      FirstPassUntouched(KeyStep(st, keys[0], table), keys[1..], table);
    }
  }

  lemma {:induction false} SecondPassUntouched(html: string, keys: seq<string>, table: map<string, string>)
    requires forall i :: 0 <= i < |keys| ==> keys[i] !in table
    ensures SecondPass(html, keys, table) == html
    decreases |keys|
  {
    if keys != [] {
      SecondPassUntouched(html, keys[1..], table);
    }
  }

  /** A page none of whose keys has a translation is left as it is. */
  lemma NoTranslationUnchanged(html: string, table: map<string, string>)
    requires forall i :: 0 <= i < |Keys(html)| ==> Keys(html)[i] !in table
    ensures SubstituteKeysSpec(html, table) == html
  {
    var st := FirstPass(KeyState(html, {}, []), Keys(html), table);
    FirstPassUntouched(KeyState(html, {}, []), Keys(html), table);
    SubstitutionBookkeeping(html, table);
    SecondPassUntouched(st.html, st.unprocessed, table);
  }

  /** Replacing a whole string that is the target. */
  lemma ReplaceWhole(t: string, v: string)
    requires t != []
    ensures Replace(t, t, v) == v
  {
    assert t[..|t|] == t && t[|t|..] == [];
    assert v + [] == v;
  }

  /** The keys of a page that is one placeholder. */
  lemma KeysOfTag(key: string)
    requires '%' !in key && NoLineTerminator(key)
    ensures Keys(Tag(key)) == [key]
  {
    var s := Tag(key);
    assert forall k :: 1 <= k <= |key| ==> s[k] == key[k - 1];
    assert forall k :: 1 <= k <= |key| ==> s[k] != '%' by {
      assert forall j :: 0 <= j < |key| ==> key[j] in key;
    }
    assert s[|key| + 1] == '%';
    assert IndexOfChar(s, '%', 1) == |key| + 1;
    assert s[1..|key| + 1] == key;
    assert KeysFrom(s, |key| + 2) == [];
  }

  /** The key stage of a page that is one placeholder, unfolded. */
  lemma OneKeyStage(key: string, table: map<string, string>)
    requires '%' !in key && NoLineTerminator(key)
    ensures var st := KeyStep(KeyState(Tag(key), {}, []), key, table);
      SubstituteKeysSpec(Tag(key), table) == SecondPass(st.html, st.unprocessed, table)
  {
    KeysOfTag(key);
    var st0 := KeyState(Tag(key), {}, []);
    assert [key][1..] == [];
    assert FirstPass(st0, [key], table) == FirstPass(KeyStep(st0, key, table), [], table);
  }

  /** A page that is one translated placeholder becomes the cleaned
      translation. */
  lemma OneKeyTranslated(key: string, table: map<string, string>)
    requires '%' !in key && NoLineTerminator(key) && !Excluded(key)
    requires Unquote(Lookup(table, key)) != Placeholder(key)
    ensures SubstituteKeysSpec(Tag(key), table) == Unquote(Lookup(table, key))
  {
    OneKeyStage(key, table);
    ReplaceWhole(Tag(key), Unquote(Lookup(table, key)));
  }

  /** %quest% and %objectId% stay in the page whatever the table says. */
  lemma OneKeyExcluded(key: string, table: map<string, string>)
    requires '%' !in key && NoLineTerminator(key) && Excluded(key)
    ensures SubstituteKeysSpec(Tag(key), table) == Tag(key)
  {
    OneKeyStage(key, table);
  }

  /** A translation that is the placeholder in quotes survives the first
      pass and is then used raw, quotes included, by the second. */
  lemma QuotedPlaceholderUsedRaw(key: string, table: map<string, string>)
    requires '%' !in key && NoLineTerminator(key) && !Excluded(key)
    requires key in table && table[key] == "\"" + Placeholder(key) + "\""
    ensures SubstituteKeysSpec(Tag(key), table) == "\"" + Placeholder(key) + "\""
  {
    OneKeyStage(key, table);
    assert Placeholder(key)[0] == '!';
    UnquoteQuoted(Placeholder(key));
    ReplaceWhole(Tag(key), table[key]);
    assert [key][1..] == [];
    assert SecondPass(Tag(key), [key], table) == SecondPass(table[key], [], table);
  }

  /** The key stage: the matcher loop, then the loop over the keys put
      aside. */
  method SubstituteKeys(html: string, table: map<string, string>) returns (out: string)
    ensures out == SubstituteKeysSpec(html, table)
  {
    var unprocessed;
    out, unprocessed := ReplaceFoundKeys(html, table);
    out := ReplaceRemainingKeys(out, unprocessed, table);
  }

  /** The matcher loop over the keys of the original page. */
  method ReplaceFoundKeys(html: string, table: map<string, string>) returns (out: string, unprocessed: seq<string>)
    ensures var st := FirstPass(KeyState(html, {}, []), Keys(html), table);
      out == st.html && unprocessed == st.unprocessed
  {
    out := html;
    var processed: set<string> := {};
    unprocessed := [];
    var i: nat := 0;
    ghost var final := FirstPass(KeyState(html, {}, []), Keys(html), table);
    while i < |html|
      invariant i <= |html|
      invariant FirstPass(KeyState(out, processed, unprocessed), KeysFrom(html, i), table) == final
      decreases |html| - i
    {
      out, processed, unprocessed, i := MatchAt(html, i, out, processed, unprocessed, table);
    }
  }

  /** One iteration of the matcher loop: a key found at i is processed and
      the matcher resumes after its closing '%'; otherwise it moves on. */
  method MatchAt(html: string, i: nat, out: string, processed: set<string>, unprocessed: seq<string>,
                 table: map<string, string>)
    returns (out': string, processed': set<string>, unprocessed': seq<string>, i': nat)
    requires i < |html|
    ensures i < i' <= |html|
    ensures FirstPass(KeyState(out', processed', unprocessed'), KeysFrom(html, i'), table)
      == FirstPass(KeyState(out, processed, unprocessed), KeysFrom(html, i), table)
  {
    var m := KeyAt(html, i);
    if m.Some? {
      out', processed', unprocessed', i' := MatchKey(html, i, out, processed, unprocessed, table);
    } else {
      KeysFromSkip(html, i);
      out', processed', unprocessed', i' := out, processed, unprocessed, i + 1;
    }
  }

  /** One found key of the matcher loop, processed as a step of the first pass. */
  method MatchKey(html: string, i: nat, out: string, processed: set<string>, unprocessed: seq<string>,
                  table: map<string, string>)
    returns (out': string, processed': set<string>, unprocessed': seq<string>, i': nat)
    requires i < |html| && KeyAt(html, i).Some?
    ensures i' == KeyAt(html, i).value + 1 && i < i' <= |html|
    ensures FirstPass(KeyState(out', processed', unprocessed'), KeysFrom(html, i'), table)
      == FirstPass(KeyState(out, processed, unprocessed), KeysFrom(html, i), table)
  {
    var j := KeyAt(html, i).value;
    var key := html[i + 1..j];
    out', processed', unprocessed' := ProcessFoundKey(out, processed, unprocessed, key, table);
    i' := j + 1;
    FoundKeyStep(html, i, i', key, KeyState(out, processed, unprocessed), KeyState(out', processed', unprocessed'), table);
  }

  lemma FoundKeyStep(s: string, i: nat, next: nat, key: string, st: KeyState, st': KeyState, table: map<string, string>)
    requires i < |s| && KeyAt(s, i).Some? && key == s[i + 1..KeyAt(s, i).value]
    requires next == KeyAt(s, i).value + 1
    requires st' == KeyStep(st, key, table)
    ensures FirstPass(st', KeysFrom(s, next), table) == FirstPass(st, KeysFrom(s, i), table)
  {
    KeysFromStep(s, i);
    FirstPassCons(st, s[i + 1..KeyAt(s, i).value], KeysFrom(s, KeyAt(s, i).value + 1), table);
  }

  lemma KeysFromStep(s: string, i: nat)
    requires i < |s| && KeyAt(s, i).Some?
    ensures KeysFrom(s, i) == [s[i + 1..KeyAt(s, i).value]] + KeysFrom(s, KeyAt(s, i).value + 1)
  {
  }

  lemma KeysFromSkip(s: string, i: nat)
    requires i < |s| && KeyAt(s, i).None?
    ensures KeysFrom(s, i + 1) == KeysFrom(s, i)
  {
  }

  lemma FirstPassCons(st: KeyState, key: string, rest: seq<string>, table: map<string, string>)
    ensures FirstPass(st, [key] + rest, table) == FirstPass(KeyStep(st, key, table), rest, table)
  {
    assert ([key] + rest)[1..] == rest;
  }

  /** The body of the matcher loop for one key. */
  method ProcessFoundKey(html: string, processed: set<string>, unprocessed: seq<string>, key: string,
                         table: map<string, string>)
    returns (html': string, processed': set<string>, unprocessed': seq<string>)
    ensures KeyState(html', processed', unprocessed') == KeyStep(KeyState(html, processed, unprocessed), key, table)
  {
    html', processed', unprocessed' := html, processed, unprocessed;
    ExcludedIgnoresCase(key);
    if EqualsIgnoreCase(key, "quest") || EqualsIgnoreCase(key, "objectId") || key in processed {
      return;
    }
    var translatedValue := Unquote(Lookup(table, key));
    if translatedValue == Placeholder(key) {
      unprocessed' := unprocessed + [key];
    } else {
      html' := Replace(html, Tag(key), translatedValue);
      processed' := processed + {key};
    }
  }

  /** The loop over the keys put aside. */
  method ReplaceRemainingKeys(html: string, unprocessed: seq<string>, table: map<string, string>) returns (out: string)
    ensures out == SecondPass(html, unprocessed, table)
  {
    out := html;
    var k := 0;
    while k < |unprocessed|
      invariant k <= |unprocessed|
      invariant SecondPass(out, unprocessed[k..], table) == SecondPass(html, unprocessed, table)
      decreases |unprocessed| - k
    {
      var key := unprocessed[k];
      assert unprocessed[k..][1..] == unprocessed[k + 1..];
      var translatedValue := Lookup(table, key);
      if translatedValue != Placeholder(key) {
        out := Replace(out, Tag(key), translatedValue);
      }
      k := k + 1;
    }
    assert unprocessed[k..] == [];
  }

  /** The stages after the keys, in the order of the source. */
  function AfterKeys(html: string): string {
    var b := UnwrapFonts(html, true);
    var c := Replace(b, "<br1>", "");
    var d := WrapRuns(c);
    var e := TruncateValues(d);
    UnwrapFonts(e, false)
  }

  function ProcessHtmlTagsSpec(html: string, table: map<string, string>): string {
    AfterKeys(SubstituteKeysSpec(html, table))
  }

  /** A path separator of Windows or Unix. */
  predicate IsSeparator(c: char) {
    c == '/' || c == '\\'
  }

  /** Paths.get(path).getParent() is not null: some name follows a
      separator. */
  predicate HasParent(path: string) {
    exists k, m :: 0 <= k < m < |path| && IsSeparator(path[k]) && !IsSeparator(path[m])
  }

  /** saveTranslatedHtmlToFile as a request: the path and contents of the
      file written, if one is. */
  function SaveRequest(file: Option<string>, html: string, locale: string, hasTranslation: bool): (r: Option<(string, string)>)
    ensures hasTranslation ==> r.None?
    ensures file.None? || file.value == [] ==> r.None?
    ensures r.Some? ==> r.value.0 == TranslatedFileName(file.value, locale) && r.value.1 == html
    ensures r.Some? <==>
      (!hasTranslation && file.Some? && file.value != [] && HasParent(TranslatedFileName(file.value, locale)))
  {
    if hasTranslation || file.None? || file.value == [] then None
    else
      var path := TranslatedFileName(file.value, locale);
      if HasParent(path) then Some((path, html)) else None
  }

  /** Without a file name nothing is saved. */
  lemma NoFileNoSave(html: string, locale: string, hasTranslation: bool)
    ensures SaveRequest(None, html, locale, hasTranslation).None?
  {
  }

  /** The whole of processHtmltags: the new page and what is saved. */
  method ProcessHtmlTags(html: string, table: map<string, string>, file: Option<string>,
                         hasTranslation: bool, locale: string)
    returns (out: string, save: Option<(string, string)>)
    ensures out == ProcessHtmlTagsSpec(html, table)
    ensures save == SaveRequest(file, out, locale, hasTranslation)
  {
    out := SubstituteKeys(html, table);
    out := UnwrapFonts(out, true);
    out := Replace(out, "<br1>", "");
    out := WrapLongTexts(out);
    out := TruncateButtonValues(out);
    out := UnwrapFonts(out, false);
    save := SaveRequest(file, out, locale, hasTranslation);
  }

  /** A page without markup and without '%' comes out as it went in. */
  lemma PlainPageUnchanged(html: string, table: map<string, string>)
    requires '%' !in html && '<' !in html && '>' !in html
    ensures ProcessHtmlTagsSpec(html, table) == html
  {
    NoKeysWithoutPercent(html, 0);
    assert SubstituteKeysSpec(html, table) == html;
    PlainAfterKeys(html);
  }

  /** Without '<' and '>' none of the later stages finds anything. */
  lemma PlainAfterKeys(html: string)
    requires '<' !in html && '>' !in html
    ensures AfterKeys(html) == html
  {
    UnwrapFontsNoTag(html, 0, true);
    ReplaceAbsent(html, "<br1>", "");
    PlainNoWrap(html);
    PlainNoButton(html);
    UnwrapFontsNoTag(html, 0, false);
  }

  lemma PlainNoWrap(html: string)
    requires '>' !in html
    ensures WrapRuns(html) == html
  {
    assert forall j :: 0 <= j < |html| ==> html[j] != '>' by {
      assert forall j :: 0 <= j < |html| ==> html[j] in html;
    }
    WrapNoOpen(html, 0);
  }

  lemma PlainNoButton(html: string)
    requires '<' !in html
    ensures TruncateValues(html) == html
  {
    assert forall j :: 0 <= j < |html| ==> !StartsAt(html, BUTTON_OPEN, j) by {
      assert forall j :: 0 <= j < |html| ==> html[j] in html;
      assert forall j :: 0 <= j < |html| && StartsAt(html, BUTTON_OPEN, j) ==> html[j] == '<';
    }
    NoButtonUnchanged(html, 0, false);
  }

  lemma {:induction false} NoKeysWithoutPercent(s: string, i: nat)
    requires i <= |s| && '%' !in s
    ensures KeysFrom(s, i) == []
    decreases |s| - i
  {
    if i < |s| {
      assert s[i] in s;
      NoKeysWithoutPercent(s, i + 1);
    }
  }
}
