/** saveTranslationsToFile, one copy in each page packet (NpcHtmlMessage
    writes translations.properties, TutorialShowHtml translationstuto.properties):
    the keys the Jsoup passes extracted are merged into the properties file,
    and the answer says whether the page still needs translating.  The file's
    lines are an input (None when it does not exist or cannot be read), and
    the append is returned as the lines the writer would add: a header
    comment, then one `key=value` line per non-empty new key. */
module TranslationsFile {
  import opened Text

  /** A line as the loading loop reads it: a trimmed line that is not empty,
      is not a comment and holds '=' is split at its first '=' into a trimmed
      key and a trimmed value. */
  function PropertyEntry(line: string): Option<(string, string)>
  {
    var t := Trim(line);
    var e := IndexOfChar(t, '=', 0);
    if t == [] || t[0] == '#' || e < 0 then None
    else Some((Trim(t[..e]), Trim(t[e + 1..])))
  }

  /** existingKeys after the loading loop over lines. */
  function KnownKeys(lines: seq<string>): set<string>
    decreases |lines|
  {
    if lines == [] then {}
    else
      var e := PropertyEntry(lines[|lines| - 1]);
      KnownKeys(lines[..|lines| - 1]) + (if e.Some? then {e.value.0} else {})
  }

  /** An entry for a key of the map whose value is empty or is the map's own
      text: the key is in the file but still has to be translated. */
  predicate Untranslated(line: string, translationMap: map<string, string>)
  {
    var e := PropertyEntry(line);
    e.Some? && e.value.0 in translationMap && (e.value.1 == [] || e.value.1 == translationMap[e.value.0])
  }

  /** Whether some line satisfies p, scanning the lines in order. */
  function AnyLine(lines: seq<string>, p: string -> bool): bool
    decreases |lines|
  {
    lines != [] && (AnyLine(lines[..|lines| - 1], p) || p(lines[|lines| - 1]))
  }

  lemma {:induction false} AnyLineIff(lines: seq<string>, p: string -> bool)
    ensures AnyLine(lines, p) <==> exists k :: 0 <= k < |lines| && p(lines[k])
    decreases |lines|
  {
    if lines != [] {
      var init := lines[..|lines| - 1];
      AnyLineIff(init, p);
      if exists k :: 0 <= k < |lines| && p(lines[k]) {
        var k :| 0 <= k < |lines| && p(lines[k]);
        if k < |init| {
          assert init[k] == lines[k];
        }
      }
      if AnyLine(init, p) {
        var k :| 0 <= k < |init| && p(init[k]);
        assert lines[k] == init[k];
      }
    }
  }

  /** hasTranslation after the loading loop over lines. */
  function AnyUntranslated(lines: seq<string>, translationMap: map<string, string>): bool
  {
    AnyLine(lines, line => Untranslated(line, translationMap))
  }

  lemma AnyUntranslatedIff(lines: seq<string>, translationMap: map<string, string>)
    ensures AnyUntranslated(lines, translationMap) <==>
      exists k :: 0 <= k < |lines| && Untranslated(lines[k], translationMap)
  {
    AnyLineIff(lines, line => Untranslated(line, translationMap));
  }

  /** One more line read by the loading loop. */
  lemma LoadStep(lines: seq<string>, k: nat, translationMap: map<string, string>)
    requires k < |lines|
    ensures KnownKeys(lines[..k + 1]) == KnownKeys(lines[..k])
      + (if PropertyEntry(lines[k]).Some? then {PropertyEntry(lines[k]).value.0} else {})
    ensures AnyUntranslated(lines[..k + 1], translationMap)
      == (AnyUntranslated(lines[..k], translationMap) || Untranslated(lines[k], translationMap))
  {
    assert lines[..k + 1][..k] == lines[..k];
    assert lines[..k + 1][k] == lines[k];
  }

  /** The lines the method reads: none without a readable file. */
  function LinesOf(existing: Option<seq<string>>): seq<string>
  {
    if existing.Some? then existing.value else []
  }

  /** newTranslations: the entries of the map whose key the file lacks. */
  function NewEntries(lines: seq<string>, translationMap: map<string, string>): (r: map<string, string>)
    ensures forall key :: key in r <==> key in translationMap && key !in KnownKeys(lines)
    ensures forall key :: key in r ==> r[key] == translationMap[key]
  {
    map key | key in translationMap && key !in KnownKeys(lines) :: translationMap[key]
  }

  /** The answer: an entry still untranslated in the file, or a key new to it. */
  predicate NeedsTranslation(existing: Option<seq<string>>, translationMap: map<string, string>)
  {
    AnyUntranslated(LinesOf(existing), translationMap) || NewEntries(LinesOf(existing), translationMap) != map[]
  }

  /** The comment line the writer puts first: only for a non-null, non-empty
      page path. */
  function HeaderLines(htmlFilePath: Option<string>): (r: seq<string>)
    ensures |r| <= 1
    ensures forall k :: 0 <= k < |r| ==> PropertyEntry(r[k]).None?
  {
    if htmlFilePath.Some? && htmlFilePath.value != "" then
      var line := "# Extracted from: " + htmlFilePath.value;
      assert line[0] == '#' && TrimLeft(line) == line;
      assert Trim(line) != [] && Trim(line)[0] == '#';
      ["# Extracted from: " + htmlFilePath.value]
    else []
  }

  /** One `key=value` line per key, in the given order. */
  function EntryLines(keys: seq<string>, m: map<string, string>): (r: seq<string>)
    requires forall i :: 0 <= i < |keys| ==> keys[i] in m
    ensures |r| == |keys|
    decreases |keys|
  {
    if keys == [] then []
    else EntryLines(keys[..|keys| - 1], m) + [keys[|keys| - 1] + "=" + m[keys[|keys| - 1]]]
  }

  /** What the writer appends for newTranslations: the header, then one line
      for each non-empty key, each key once, in the map's iteration order
      (which the source leaves to HashMap, so it is an output here). */
  predicate WritesEntries(htmlFilePath: Option<string>, m: map<string, string>, order: seq<string>, written: seq<string>)
  {
    (forall i :: 0 <= i < |order| ==> order[i] in m && order[i] != "")
    && (forall key :: key in m && key != "" ==> key in order)
    && (forall i, j :: 0 <= i < j < |order| ==> order[i] != order[j])
    && written == HeaderLines(htmlFilePath) + EntryLines(order, m)
  }

  /** saveTranslationsToFile: the loading loop, then the filter of new keys;
      with new keys they are appended (a write failure is ignored) and the
      answer is true, otherwise it is what the loading loop found and nothing
      is written. */
  method SaveTranslationsToFile(existing: Option<seq<string>>, translationMap: map<string, string>, htmlFilePath: Option<string>)
    returns (hasTranslation: bool, newTranslations: map<string, string>, order: seq<string>, written: seq<string>)
    ensures hasTranslation == NeedsTranslation(existing, translationMap)
    ensures newTranslations == NewEntries(LinesOf(existing), translationMap)
    ensures newTranslations == map[] ==> order == [] && written == []
    ensures newTranslations != map[] ==> WritesEntries(htmlFilePath, newTranslations, order, written)
  {
    var lines := LinesOf(existing);
    var existingKeys: set<string> := {};
    hasTranslation := false;
    var k := 0;
    while k < |lines|
      invariant 0 <= k <= |lines|
      invariant existingKeys == KnownKeys(lines[..k])
      invariant hasTranslation == AnyUntranslated(lines[..k], translationMap)
    {
      LoadStep(lines, k, translationMap);
      existingKeys, hasTranslation := LoadLine(lines[k], existingKeys, hasTranslation, translationMap);
      k := k + 1;
    }
    assert lines[..k] == lines;
    ghost var loaded := hasTranslation;
    newTranslations := map[];
    var todo := translationMap.Keys;
    while todo != {}
      invariant todo <= translationMap.Keys
      invariant forall key :: key in newTranslations <==>
        key in translationMap && key !in todo && key !in existingKeys
      invariant forall key :: key in newTranslations ==> newTranslations[key] == translationMap[key]
      invariant hasTranslation == (loaded || newTranslations != map[])
      decreases todo
    {
      var key :| key in todo;
      if key !in existingKeys {
        newTranslations := newTranslations[key := translationMap[key]];
        hasTranslation := true;
      }
      todo := todo - {key};
    }
    SameMap(newTranslations, NewEntries(lines, translationMap));
    if newTranslations == map[] {
      order, written := [], [];
      return;
    }
    order, written := WriteNewTranslations(htmlFilePath, newTranslations);
    hasTranslation := true;
  }

  /** The writer: the header, then the loop over the entries that skips an
      empty key. */
  method WriteNewTranslations(htmlFilePath: Option<string>, newTranslations: map<string, string>)
    returns (order: seq<string>, written: seq<string>)
    ensures WritesEntries(htmlFilePath, newTranslations, order, written)
  {
    var header := HeaderLines(htmlFilePath);
    written := header;
    order := [];
    var todo := newTranslations.Keys;
    while todo != {}
      invariant todo <= newTranslations.Keys
      invariant forall i :: 0 <= i < |order| ==> order[i] in newTranslations && order[i] !in todo
      invariant forall key :: key in order <==> key in newTranslations && key !in todo && key != ""
      invariant forall i, j :: 0 <= i < j < |order| ==> order[i] != order[j]
      invariant written == header + EntryLines(order, newTranslations)
      decreases todo
    {
      var key :| key in todo;
      if key != "" {
        var line := key + "=" + newTranslations[key];
        EntryLinesSnoc(order, newTranslations, key);
        Associative(header, EntryLines(order, newTranslations), [line]);
        written := written + [line];
        order := order + [key];
      }
      todo := todo - {key};
    }
  }

  /** One more key written after the others. */
  lemma EntryLinesSnoc(keys: seq<string>, m: map<string, string>, key: string)
    requires forall i :: 0 <= i < |keys| ==> keys[i] in m
    requires key in m
    ensures EntryLines(keys + [key], m) == EntryLines(keys, m) + [key + "=" + m[key]]
  {
    assert (keys + [key])[..|keys|] == keys;
  }

  /** The loading loop's body for one line. */
  method LoadLine(line: string, keys: set<string>, has: bool, translationMap: map<string, string>)
    returns (keys': set<string>, has': bool)
    ensures keys' == keys + (if PropertyEntry(line).Some? then {PropertyEntry(line).value.0} else {})
    ensures has' == (has || Untranslated(line, translationMap))
  {
    keys', has' := keys, has;
    var e := PropertyEntry(line);
    if e.Some? {
      keys' := keys + {e.value.0};
      if e.value.0 in translationMap && (e.value.1 == [] || e.value.1 == translationMap[e.value.0]) {
        has' := true;
      }
    }
  }

  /** A key the loader reads back unchanged from its own `key=value` line:
      non-empty, without '=', not starting a comment and not trimmed.  The
      keys the page passes generate are of this kind. */
  predicate ProperKey(key: string)
  {
    key != "" && '=' !in key && key[0] != '#' && !IsTrimmable(key[0]) && !IsTrimmable(key[|key| - 1])
  }

  /** The loader reads the key back from the line the writer wrote for it. */
  lemma EntryLineReadsBack(key: string, value: string)
    requires ProperKey(key)
    ensures PropertyEntry(key + "=" + value).Some? && PropertyEntry(key + "=" + value).value.0 == key
  {
    var line := key + "=" + value;
    assert line[0] == key[0] && TrimLeft(line) == line;
    var t := Trim(line);
    assert t == TrimRight(line) && t == line[..|t|];
    assert line[|key|] == '=';
    assert |key| < |t|;
    assert forall j :: 0 <= j < |key| ==> t[j] == key[j];
    IndexOfCharIs(t, '=', 0, |key|);
    assert t[..|key|] == key;
    TrimNoop(key);
  }

  lemma {:induction false} KnownKeysAppend(a: seq<string>, b: seq<string>)
    ensures KnownKeys(a + b) == KnownKeys(a) + KnownKeys(b)
    decreases |b|
  {
    if b == [] {
      assert a + b == a;
    } else {
      var init := b[..|b| - 1];
      KnownKeysAppend(a, init);
      assert (a + b)[..|a + b| - 1] == a + init;
      assert (a + b)[|a + b| - 1] == b[|b| - 1];
    }
  }

  /** The writer's i-th entry line. */
  lemma {:induction false} EntryLinesAt(keys: seq<string>, m: map<string, string>, i: nat)
    requires forall k :: 0 <= k < |keys| ==> keys[k] in m
    requires i < |keys|
    ensures EntryLines(keys, m)[i] == keys[i] + "=" + m[keys[i]]
    decreases |keys|
  {
    var init := keys[..|keys| - 1];
    if i < |init| {
      EntryLinesAt(init, m, i);
      assert init[i] == keys[i];
    }
  }

  /** The key of any entry line of a file is among the loaded keys. */
  lemma {:induction false} KeyKnownAt(lines: seq<string>, i: nat)
    requires i < |lines| && PropertyEntry(lines[i]).Some?
    ensures PropertyEntry(lines[i]).value.0 in KnownKeys(lines)
    decreases |lines|
  {
    var init := lines[..|lines| - 1];
    if i < |init| {
      KeyKnownAt(init, i);
      assert init[i] == lines[i];
      KnownKeysGrow(init, lines);
    } else {
      assert i == |lines| - 1;
    }
  }

  lemma KnownKeysGrow(init: seq<string>, lines: seq<string>)
    requires lines != [] && init == lines[..|lines| - 1]
    ensures KnownKeys(init) <= KnownKeys(lines)
  {
  }

  /** Saving twice: once the appended lines follow the file's, the same
      extracted keys are all known, so the second save writes nothing new.
      The appended lines are read back as they were written, which holds
      when the file ended with a line break and no value holds one. */
  lemma SecondSaveNothingNew(existing: Option<seq<string>>, translationMap: map<string, string>,
                             htmlFilePath: Option<string>, order: seq<string>, written: seq<string>)
    requires forall key :: key in translationMap ==> ProperKey(key)
    requires WritesEntries(htmlFilePath, NewEntries(LinesOf(existing), translationMap), order, written)
    ensures NewEntries(LinesOf(existing) + written, translationMap) == map[]
  {
    var lines := LinesOf(existing);
    KnownKeysAppend(lines, written);
    forall key | key in translationMap
      ensures key in KnownKeys(lines + written)
    {
      if key !in KnownKeys(lines) {
        WrittenKeyKnown(lines, translationMap, htmlFilePath, order, written, key);
      }
    }
  }

  /** A key new to the file has its line among the written ones. */
  lemma WrittenKeyKnown(lines: seq<string>, translationMap: map<string, string>,
                        htmlFilePath: Option<string>, order: seq<string>, written: seq<string>, key: string)
    requires ProperKey(key) && key in translationMap && key !in KnownKeys(lines)
    requires WritesEntries(htmlFilePath, NewEntries(lines, translationMap), order, written)
    ensures key in KnownKeys(written)
  {
    var m := NewEntries(lines, translationMap);
    assert key in m;
    var i :| 0 <= i < |order| && order[i] == key;
    EntryLinesAt(order, m, i);
    var h := HeaderLines(htmlFilePath);
    assert written[|h| + i] == EntryLines(order, m)[i];
    EntryLineReadsBack(key, m[key]);
    KeyKnownAt(written, |h| + i);
  }

  lemma SameMap(a: map<string, string>, b: map<string, string>)
    requires forall key :: key in a <==> key in b
    requires forall key :: key in a ==> a[key] == b[key]
    ensures a == b
  {
  }

  /** A key the file lacks always asks for a translation. */
  lemma NewKeyNeedsTranslation(existing: Option<seq<string>>, translationMap: map<string, string>, key: string)
    requires key in translationMap && key !in KnownKeys(LinesOf(existing))
    ensures NeedsTranslation(existing, translationMap)
  {
    assert key in NewEntries(LinesOf(existing), translationMap);
  }

  /** Without a readable file the answer is whether anything was extracted. */
  lemma NoFileNewKeys(translationMap: map<string, string>)
    ensures NeedsTranslation(None, translationMap) <==> translationMap != map[]
  {
    if translationMap != map[] {
      var key :| key in translationMap;
      NewKeyNeedsTranslation(None, translationMap, key);
    }
  }

  /** The answer is false exactly when every extracted key is already in the
      file and no entry for one of them is empty or holds the extracted text. */
  lemma {:induction false} AllTranslated(existing: Option<seq<string>>, translationMap: map<string, string>)
    ensures !NeedsTranslation(existing, translationMap) <==>
      (forall key :: key in translationMap ==> key in KnownKeys(LinesOf(existing)))
      && forall k :: 0 <= k < |LinesOf(existing)| ==> !Untranslated(LinesOf(existing)[k], translationMap)
  {
    var lines := LinesOf(existing);
    AnyUntranslatedIff(lines, translationMap);
    if exists key :: key in translationMap && key !in KnownKeys(lines) {
      var key :| key in translationMap && key !in KnownKeys(lines);
      assert key in NewEntries(lines, translationMap);
    }
  }
}
