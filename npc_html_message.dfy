/** The NpcHtmlMessage packet: the page it carries, how setHtml and setFile
    choose and process that page, and how runImpl whitelists the page's
    bypass commands for the player. */
module NpcHtml {
  import opened Text
  import opened Players
  import opened PageCache
  import opened LinkButtons
  import opened TranslationKey
  import opened HtmlTags
  import opened I18n

  // ----- runImpl: the bypass scan -----

  const BYPASS_OPEN := "\"bypass "

  /** What the scan registers, and whether it ended in an exception
      (a substring out of range). */
  datatype Scan = Scan(found: seq<Bypass>, crashed: bool)

  /** One round of the loop of runImpl from index i: it stops when there is
      no further "bypass with a closing quote, throws when the "-h" test or
      the command substring is out of range, and otherwise registers the
      trimmed text up to the quote, or up to a '$' before the quote as a
      prefix, and goes on after the quote. */
  datatype Step = Stop(crashed: bool) | Found(b: Bypass, next: nat)

  /** Where the next "bypass starts, where its command starts (after
      "bypass -h " or "bypass ") and the closing quote after "bypass. */
  datatype Site = NoBypass | Broken | Site(start: nat, from: nat, finish: nat)

  /** The first part of a round: finding "bypass and its closing quote, and
      the "-h" test; Broken is an out-of-range substring. */
  function Locate(html: string, i: nat): (r: Site)
    ensures r.Site? ==> (i <= r.start && r.start + 8 <= r.from <= r.finish < |html|
                         && html[r.finish] == '"' && forall j :: r.start < j < r.finish ==> html[j] != '"')
  {
    var start := IndexOf(html, BYPASS_OPEN, i);
    var finish := IndexOfChar(html, '"', start + 1);
    if start < 0 || finish < 0 then NoBypass
    else if start + 10 > |html| then Broken
    else
      var from := if html[start + 8..start + 10] == "-h" then start + 11 else start + 8;
      if from > finish then Broken else Site(start, from, finish)
  }

  /** The command of a bypass: up to a '$' before the closing quote, as a
      prefix, or else up to the quote; trimmed either way. */
  function CommandAt(html: string, from: nat, finish: nat): Bypass
    requires from <= finish <= |html|
  {
    var dollar := IndexOfChar(html, '$', from);
    if dollar < finish && dollar > 0 then Prefixed(Trim(html[from..dollar]))
    else Exact(Trim(html[from..finish]))
  }

  function ScanStep(html: string, i: nat): (r: Step)
    requires i < |html|
    ensures r.Found? ==> i < r.next <= |html|
  {
    match Locate(html, i)
    case NoBypass => Stop(false)
    case Broken => Stop(true)
    case Site(_, from, finish) => Found(CommandAt(html, from, finish), finish + 1)
  }

  /** The whole loop from index i. */
  function ScanFrom(html: string, i: nat): (r: Scan)
    decreases |html| - i
  {
    if i >= |html| then Scan([], false)
    else
      match ScanStep(html, i)
      case Stop(c) => Scan([], c)
      case Found(b, next) =>
        var rest := ScanFrom(html, next);
        Scan([b] + rest.found, rest.crashed)
  }

  function ScanBypasses(html: string): Scan {
    ScanFrom(html, 0)
  }

  /** A registered command is trimmed and a part of the page without '"';
      a prefix also has no '$'. */
  predicate CleanCommand(b: Bypass) {
    '"' !in b.command && (b.Prefixed? ==> '$' !in b.command) && Trim(b.command) == b.command
  }

  /** Trimming only takes characters away, and trimming twice is trimming once. */
  lemma TrimKeeps(s: string, c: char)
    requires c !in s
    ensures c !in Trim(s) && Trim(Trim(s)) == Trim(s)
  {
    var l := TrimLeft(s);
    SliceLacks(s, c, |s| - |l|, |s|);
    var r := TrimRight(l);
    SliceLacks(l, c, 0, |r|);
    TrimNoop(Trim(s));
  }

  /** A slice that lies before the first c after some index has no c. */
  lemma SliceWithout(html: string, c: char, lo: int, from: nat, to: nat)
    requires 0 <= lo <= from <= to <= |html|
    requires forall j :: lo <= j < to ==> html[j] != c
    ensures c !in html[from..to]
  {
    var piece := html[from..to];
    assert forall k :: 0 <= k < |piece| ==> piece[k] == html[from + k];
  }

  /** A character absent from a string is absent from all its slices. */
  lemma SliceLacks(s: string, c: char, from: nat, to: nat)
    requires from <= to <= |s| && c !in s
    ensures c !in s[from..to]
  {
    assert forall j :: 0 <= j < |s| ==> s[j] != c;
    SliceWithout(s, c, 0, from, to);
  }

  /** A command cut out between a "bypass and its closing quote is clean. */
  lemma CommandClean(html: string, start: nat, from: nat, finish: nat)
    requires start < from <= finish < |html|
    requires forall j :: start < j < finish ==> html[j] != '"'
    ensures CleanCommand(CommandAt(html, from, finish))
  {
    var dollar := IndexOfChar(html, '$', from);
    if dollar < finish && dollar > 0 {
      SliceWithout(html, '"', start + 1, from, dollar);
      SliceWithout(html, '$', from, from, dollar);
      TrimKeeps(html[from..dollar], '"');
      TrimKeeps(html[from..dollar], '$');
    } else {
      SliceWithout(html, '"', start + 1, from, finish);
      TrimKeeps(html[from..finish], '"');
    }
  }

  /** Each round registers a clean command. */
  lemma StepClean(html: string, i: nat)
    requires i < |html|
    ensures ScanStep(html, i).Found? ==> CleanCommand(ScanStep(html, i).b)
  {
    var site := Locate(html, i);
    if site.Site? {
      CommandClean(html, site.start, site.from, site.finish);
    }
  }

  /** Every command the scan registers is clean. */
  lemma {:induction false} ScanClean(html: string, i: nat)
    ensures forall k :: 0 <= k < |ScanFrom(html, i).found| ==> CleanCommand(ScanFrom(html, i).found[k])
    decreases |html| - i
  {
    if i < |html| {
      StepClean(html, i);
      var st := ScanStep(html, i);
      if st.Found? {
        ScanClean(html, st.next);
        FoundStep(html, i);
        var rest := ScanFrom(html, st.next).found;
        forall k | 0 <= k < |[st.b] + rest|
          ensures CleanCommand(([st.b] + rest)[k])
        {
          if k > 0 {
            assert ([st.b] + rest)[k] == rest[k - 1];
          }
        }
      }
    }
  }

  /** A page without "bypass registers nothing. */
  lemma NoBypassText(html: string)
    requires !Contains(html, BYPASS_OPEN)
    ensures ScanBypasses(html) == Scan([], false)
  {
    if html != [] {
      assert IndexOf(html, BYPASS_OPEN, 0) == -1;
    }
  }

  /** The scan of a page that is a single "bypass ... " up to its only
      other quote, at the end. */
  lemma OneQuoted(html: string, from: nat)
    requires |html| >= 10 && html[..8] == BYPASS_OPEN
    requires html[|html| - 1] == '"' && forall j :: 1 <= j < |html| - 1 ==> html[j] != '"'
    requires from == (if html[8..10] == "-h" then 11 else 8) && from <= |html| - 1
    ensures ScanBypasses(html) == Scan([CommandAt(html, from, |html| - 1)], false)
  {
    LocateOnly(html, from);
    assert ScanStep(html, 0) == Found(CommandAt(html, from, |html| - 1), |html|);
    assert ScanFrom(html, |html|) == Scan([], false);
  }

  /** The only bypass of that page is found at 0 and closed at its end. */
  lemma LocateOnly(html: string, from: nat)
    requires |html| >= 10 && html[..8] == BYPASS_OPEN
    requires html[|html| - 1] == '"' && forall j :: 1 <= j < |html| - 1 ==> html[j] != '"'
    requires from == (if html[8..10] == "-h" then 11 else 8) && from <= |html| - 1
    ensures Locate(html, 0) == Site(0, from, |html| - 1)
  {
    assert StartsAt(html, BYPASS_OPEN, 0);
    assert IndexOf(html, BYPASS_OPEN, 0) == 0;
    IndexOfCharIs(html, '"', 1, |html| - 1);
  }

  /** Without a '$' before the quote the command is exact. */
  lemma CommandNoDollar(html: string, from: nat, finish: nat)
    requires from <= finish < |html| && html[finish] != '$'
    requires forall j :: from <= j < finish ==> html[j] != '$'
    ensures CommandAt(html, from, finish) == Exact(Trim(html[from..finish]))
  {
    var dollar := IndexOfChar(html, '$', from);
    assert !(dollar < finish && dollar > 0);
  }

  /** With a '$' before the quote the command is the prefix up to it. */
  lemma CommandDollar(html: string, from: nat, d: nat, finish: nat)
    requires 0 < from <= d < finish <= |html| && html[d] == '$'
    requires forall j :: from <= j < d ==> html[j] != '$'
    ensures CommandAt(html, from, finish) == Prefixed(Trim(html[from..d]))
  {
    IndexOfCharIs(html, '$', from, d);
  }

  /** A piece of the page that is a copy of `t` has no character `t` lacks. */
  lemma CopyLacks(html: string, lo: nat, t: string, c: char)
    requires lo + |t| <= |html| && html[lo..lo + |t|] == t && c !in t
    ensures forall j :: lo <= j < lo + |t| ==> html[j] != c
  {
    assert forall j :: lo <= j < lo + |t| ==> html[j] == t[j - lo];
  }

  /** "bypass CMD" registers the trimmed command. */
  lemma OneBypass(cmd: string)
    requires '"' !in cmd && '$' !in cmd && |cmd| >= 2 && !StartsWith(cmd, "-h")
    ensures ScanBypasses(BYPASS_OPEN + cmd + "\"") == Scan([Exact(Trim(cmd))], false)
  {
    var html := BYPASS_OPEN + cmd + "\"";
    var q := |html| - 1;
    assert html[..8] == BYPASS_OPEN;
    assert html[8..q] == cmd;
    assert html[8..10] == cmd[..2];
    CopyLacks(html, 1, BYPASS_OPEN[1..], '"') by { assert html[1..8] == BYPASS_OPEN[1..]; }
    CopyLacks(html, 8, cmd, '"');
    CopyLacks(html, 8, cmd, '$');
    OneQuoted(html, 8);
    CommandNoDollar(html, 8, q);
  }

  /** "bypass -h CMD" registers the command without the "-h ". */
  lemma OneHiddenBypass(cmd: string)
    requires '"' !in cmd && '$' !in cmd
    ensures ScanBypasses(BYPASS_OPEN + "-h " + cmd + "\"") == Scan([Exact(Trim(cmd))], false)
  {
    var html := BYPASS_OPEN + "-h " + cmd + "\"";
    var q := |html| - 1;
    assert html[..8] == BYPASS_OPEN;
    assert html[8..10] == "-h";
    assert html[11..q] == cmd;
    CopyLacks(html, 1, "bypass -h ", '"') by { assert html[1..11] == "bypass -h "; }
    CopyLacks(html, 11, cmd, '"');
    CopyLacks(html, 11, cmd, '$');
    OneQuoted(html, 11);
    CommandNoDollar(html, 11, q);
  }

  /** "bypass PRE$REST" registers only the prefix before the '$'. */
  lemma DollarBypass(pre: string, post: string)
    requires '"' !in pre && '"' !in post && '$' !in pre && |pre| >= 2 && !StartsWith(pre, "-h")
    ensures ScanBypasses(BYPASS_OPEN + pre + "$" + post + "\"") == Scan([Prefixed(Trim(pre))], false)
  {
    var html := BYPASS_OPEN + pre + "$" + post + "\"";
    var d := 8 + |pre|;
    var q := |html| - 1;
    assert html[..8] == BYPASS_OPEN;
    assert html[8..d] == pre;
    assert html[d] == '$';
    assert html[d + 1..q] == post;
    assert html[8..10] == pre[..2];
    CopyLacks(html, 1, BYPASS_OPEN[1..], '"') by { assert html[1..8] == BYPASS_OPEN[1..]; }
    CopyLacks(html, 8, pre, '"');
    CopyLacks(html, d + 1, post, '"');
    CopyLacks(html, 8, pre, '$');
    OneQuoted(html, 8);
    CommandDollar(html, 8, d, q);
  }

  /** A page that ends right after "bypass throws in the "-h" test. */
  lemma TrailingBypassThrows()
    ensures ScanBypasses(BYPASS_OPEN + "\"").crashed
  {
    var html := BYPASS_OPEN + "\"";
    assert StartsAt(html, BYPASS_OPEN, 0);
    assert IndexOf(html, BYPASS_OPEN, 0) == 0;
    assert html[8] == '"';
    assert Locate(html, 0) == Broken;
  }

  /** "bypass -h" with nothing after it throws: the command would start
      after its own closing quote. */
  lemma EmptyHiddenBypassThrows()
    ensures ScanBypasses(BYPASS_OPEN + "-h\"").crashed
  {
    var html := BYPASS_OPEN + "-h\"";
    assert StartsAt(html, BYPASS_OPEN, 0);
    assert IndexOf(html, BYPASS_OPEN, 0) == 0;
    assert html[8..10] == "-h";
    assert html[10] == '"';
    CopyLacks(html, 1, "bypass -h", '"') by { assert html[1..10] == "bypass -h"; }
    IndexOfCharIs(html, '"', 1, 10);
    assert Locate(html, 0) == Broken;
  }

  /** The statements of a round up to the "-h" test. */
  method LocateBypass(html: string, i: nat) returns (site: Site)
    ensures site == Locate(html, i)
  {
    var start := IndexOf(html, BYPASS_OPEN, i);
    var finish := IndexOfChar(html, '"', start + 1);
    if start < 0 || finish < 0 {
      return NoBypass;
    }
    if start + 10 > |html| {
      return Broken;
    }
    var from := if html[start + 8..start + 10] == "-h" then start + 11 else start + 8;
    if from > finish {
      return Broken;
    }
    site := Site(start, from, finish);
  }

  /** The statements that cut the command out. */
  method ReadCommand(html: string, from: nat, finish: nat) returns (b: Bypass)
    requires from <= finish <= |html|
    ensures b == CommandAt(html, from, finish)
  {
    var dollar := IndexOfChar(html, '$', from);
    if dollar < finish && dollar > 0 {
      b := Prefixed(Trim(html[from..dollar]));
    } else {
      b := Exact(Trim(html[from..finish]));
    }
  }

  /** One round of the loop of runImpl. */
  method NextBypass(html: string, i: nat) returns (step: Step)
    requires i < |html|
    ensures step == ScanStep(html, i)
  {
    var site := LocateBypass(html, i);
    match site
    case NoBypass => step := Stop(false);
    case Broken => step := Stop(true);
    case Site(_, from, finish) =>
      var b := ReadCommand(html, from, finish);
      step := Found(b, finish + 1);
  }

  /** The loop of runImpl, adding to the player's list as it goes. */
  method RegisterBypasses(player: Player, html: string) returns (crashed: bool)
    modifies player`bypasses
    ensures player.bypasses == old(player.bypasses) + ScanBypasses(html).found
    ensures crashed == ScanBypasses(html).crashed
  {
    ghost var initial := player.bypasses;
    ghost var final := ScanBypasses(html);
    var i := 0;
    while i < |html|
      invariant i <= |html|
      invariant player.bypasses + ScanFrom(html, i).found == initial + final.found
      invariant ScanFrom(html, i).crashed == final.crashed
      decreases |html| - i
    {
      var step := NextBypass(html, i);
      if step.Stop? {
        StopStep(html, i);
        assert player.bypasses == initial + final.found;
        return step.crashed;
      }
      ghost var before := player.bypasses;
      ghost var rest := ScanFrom(html, step.next);
      FoundStep(html, i);
      assert ScanFrom(html, i) == Scan([step.b] + rest.found, rest.crashed);
      player.AddBypass(step.b);
      Associative(before, [step.b], rest.found);
      i := step.next;
    }
    return false;
  }

  /** A round that stops ends the scan with its crash flag. */
  lemma StopStep(html: string, i: nat)
    requires i < |html| && ScanStep(html, i).Stop?
    ensures ScanFrom(html, i) == Scan([], ScanStep(html, i).crashed)
  {
  }

  /** A round that registers a bypass puts it in front of the rest of the scan. */
  lemma FoundStep(html: string, i: nat)
    requires i < |html| && ScanStep(html, i).Found?
    ensures ScanFrom(html, i).found == [ScanStep(html, i).b] + ScanFrom(html, ScanStep(html, i).next).found
    ensures ScanFrom(html, i).crashed == ScanFrom(html, ScanStep(html, i).next).crashed
  {
  }

  // ----- setFile: which page is used -----

  /** loadIgnoredHtmlFiles: the comma-separated NpcIgnore list, each entry
      trimmed. */
  method LoadIgnoredFiles(npcIgnore: string) returns (ignored: set<string>)
    ensures ignored == ImageSet(JavaSplit(npcIgnore, ','), Trim)
  {
    var paths := JavaSplit(npcIgnore, ',');
    ignored := {};
    var k := 0;
    while k < |paths|
      invariant k <= |paths|
      invariant ignored == ImageSet(paths[..k], Trim)
    {
      ImageSetNext(paths, Trim, k);
      ignored := ignored + {Trim(paths[k])};
      k := k + 1;
    }
    assert paths[..k] == paths;
  }

  /** isIgnoredHtmlFile holds exactly for the trimmed entries of the list. */
  lemma IgnoredFiles(npcIgnore: string, path: string)
    ensures path in ImageSet(JavaSplit(npcIgnore, ','), Trim) <==>
      exists k :: 0 <= k < |JavaSplit(npcIgnore, ',')| && path == Trim(JavaSplit(npcIgnore, ',')[k])
  {
    ImageSetMembers(JavaSplit(npcIgnore, ','), Trim, path);
  }

  /** Where setFile takes its page from. */
  datatype PageSource =
    | Missing
    | Verbatim(path: string, page: string)
    | Processed(path: string, page: string)

  /** An ignored file, or a player with translation off, gets the file as
      it is; otherwise an existing translated file is used as it is; only
      then is the original page processed. */
  function ChoosePage(filename: string, ignored: set<string>, translationOff: bool, locale: string,
                      disk: set<string>, pages: map<string, string>): (r: PageSource)
    ensures r.Processed? ==> (r.path == filename && filename !in ignored && !translationOff
                              && TranslatedFileName(filename, locale) !in disk)
    ensures r.Verbatim? ==> r.path in pages && r.page == pages[r.path]
    ensures r.Verbatim? && r.path != filename ==> r.path == TranslatedFileName(filename, locale) && r.path in disk
    ensures r.Missing? <==>
      (if filename in ignored || translationOff || TranslatedFileName(filename, locale) !in disk then filename !in pages
       else TranslatedFileName(filename, locale) !in pages)
  {
    if filename in ignored || translationOff then
      if filename in pages then Verbatim(filename, pages[filename]) else Missing
    else
      var translated := TranslatedFileName(filename, locale);
      if translated in disk then
        if translated in pages then Verbatim(translated, pages[translated]) else Missing
      else if filename in pages then Processed(filename, pages[filename]) else Missing
  }

  /** An existing translated file wins over the original whenever the page
      is not ignored and the player wants translations. */
  lemma TranslatedFileFirst(filename: string, ignored: set<string>, locale: string,
                           disk: set<string>, pages: map<string, string>)
    requires filename !in ignored
    requires TranslatedFileName(filename, locale) in disk && TranslatedFileName(filename, locale) in pages
    ensures ChoosePage(filename, ignored, false, locale, disk, pages)
      == Verbatim(TranslatedFileName(filename, locale), pages[TranslatedFileName(filename, locale)])
  {
    TranslatedNameDiffers(filename, locale);
  }

  // ----- setHtml -----

  const MAX_HTML_LENGTH := 8192
  const TOO_LONG_PAGE := "<html><body>Html was too long.</body></html>"
  const MISSING_PAGE := "<html><body>My HTML is missing.</body></html>"

  /** setHtml as a function of its inputs: the new page, the new cache and
      the translated page saved, if any. */
  function SetHtmlSpec(text: string, translationOff: bool, cache: map<string, string>, j: JsoupPasses,
                       objectId: int, locale: string, setup: ButtonSetup, table: map<string, string>,
                       file: Option<string>): (r: (string, map<string, string>, Option<(string, string)>))
    requires ValidSetup(setup)
    ensures |text| > MAX_HTML_LENGTH ==> r == (TOO_LONG_PAGE, cache, None)
    ensures |text| <= MAX_HTML_LENGTH && translationOff ==> r == (text, cache, None)
    ensures r.2.Some? ==> r.2.value.1 == r.0 && file.Some?
  {
    if |text| > MAX_HTML_LENGTH then (TOO_LONG_PAGE, cache, None)
    else if translationOff then (text, cache, None)
    else
      var (p, c) := PrepareSpec(cache, j, objectId, locale, Configured(setup), NpcFrame);
      var html := ProcessHtmlTagsSpec(p.html, table);
      (html, c, SaveRequest(file, html, locale, p.hasTranslation))
  }

  /** Sending the same page twice: the second time the page comes from the
      cache, is the same page, and is then saved as a translation (the
      cached copy is reported as having no new keys). */
  lemma SetHtmlReplay(text: string, cache: map<string, string>, j: JsoupPasses, objectId: int, locale: string,
                      setup: ButtonSetup, table: map<string, string>, file: Option<string>)
    requires ValidSetup(setup)
    ensures var (h1, c1, s1) := SetHtmlSpec(text, false, cache, j, objectId, locale, setup, table, file);
      var (h2, c2, s2) := SetHtmlSpec(text, false, c1, j, objectId, locale, setup, table, file);
      |text| <= MAX_HTML_LENGTH && !j.hasTranslation ==> h2 == h1 && c2 == c1 && s2 == s1
  {
    PrepareReplay(cache, j, objectId, locale, Configured(setup), NpcFrame);
  }

  class NpcHtmlMessage {
    const objectId: int
    var html: Option<string>
    var file: Option<string>
    var itemId: int
    var validate: bool

    /** A packet starts with no page (Java's null), no file, item 0 and
        validation on. */
    constructor (objectId: int)
      ensures this.objectId == objectId && html == None && file == None && itemId == 0 && validate
    {
      this.objectId := objectId;
      html := None;
      file := None;
      itemId := 0;
      validate := true;
    }

    method DisableValidation()
      modifies this`validate
      ensures !validate
    {
      validate := false;
    }

    method SetItemId(id: int)
      modifies this`itemId
      ensures itemId == id
    {
      itemId := id;
    }

    /** set_file */
    method SetFileName(name: Option<string>)
      modifies this`file
      ensures file == name
    {
      file := name;
    }

    /** runImpl: nothing without validation or a player; otherwise a GM is
        told the file name when SHOW_FILE is on, the bypass list is cleared,
        and the page's bypasses are registered.  A packet sent before any
        page was set crashes on the null page right after the clear. */
    method RunImpl(player: Player?, showFile: bool) returns (crashed: bool)
      modifies (if player == null then {} else {player})`bypasses, (if player == null then {} else {player})`sent
      ensures !validate || player == null ==> !crashed
      ensures !validate && player != null ==>
        player.bypasses == old(player.bypasses) && player.sent == old(player.sent)
      ensures validate && player != null ==>
        (player.sent == old(player.sent) + (if showFile && player.gm && file.Some? then [Say("HTML", file.value)] else [])
         && (html.None? ==> player.bypasses == [] && crashed)
         && (html.Some? ==> player.bypasses == ScanBypasses(html.value).found
                            && crashed == ScanBypasses(html.value).crashed))
    {
      if !validate || player == null {
        return false;
      }
      if showFile && player.gm && file.Some? {
        player.Send(Say("HTML", file.value));
      }
      player.ClearBypass();
      if html.None? {
        return true;
      }
      crashed := RegisterBypasses(player, html.value);
    }

    /** setHtml: a page over 8192 characters is replaced by a fixed page, a
        player with translation off gets the page as it is, and every other
        page goes through the Jsoup stage and processHtmltags. */
    method SetHtml(text: string, player: Player?, cache: HtmlCache, i18n: Translator, j: JsoupPasses,
                   setup: ButtonSetup)
      returns (save: Option<(string, string)>)
      requires ValidSetup(setup)
      modifies this`html, cache
      ensures html.Some? && (html.value, cache.entries, save) == SetHtmlSpec(text, player != null && !player.translationEnabled,
        old(cache.entries), j, objectId, i18n.CurrentLocale(), setup, i18n.translations, file)
    {
      if |text| > MAX_HTML_LENGTH {
        html := Some(TOO_LONG_PAGE);
        return None;
      }
      if player != null && !player.translationEnabled {
        html := Some(text);
        return None;
      }
      var result := Prepare(cache, j, objectId, i18n.CurrentLocale(), Configured(setup), NpcFrame);
      var page;
      page, save := ProcessHtmlTags(result.html, i18n.translations, file, result.hasTranslation, i18n.CurrentLocale());
      html := Some(page);
    }

    /** setFile: the page named by ChoosePage, and setHtml for a page that is
        to be processed. */
    method SetFile(filename: string, player: Player?, ignored: set<string>, disk: set<string>,
                   pages: map<string, string>, cache: HtmlCache, i18n: Translator, j: JsoupPasses,
                   setup: ButtonSetup)
      returns (save: Option<(string, string)>)
      requires ValidSetup(setup)
      modifies this`html, this`file, cache
      ensures var off := player != null && !player.translationEnabled;
        var src := ChoosePage(filename, ignored, off, i18n.CurrentLocale(), disk, pages);
        (src.Missing? ==> (html == Some(MISSING_PAGE) && file == old(file) && cache.entries == old(cache.entries)
                           && save.None?))
        && (src.Verbatim? ==> (html == Some(src.page) && file == Some(src.path) && cache.entries == old(cache.entries)
                            && save.None?))
        && (src.Processed? ==> (file == Some(filename)
            && html.Some? && (html.value, cache.entries, save) == SetHtmlSpec(src.page, off, old(cache.entries), j, objectId,
                 i18n.CurrentLocale(), setup, i18n.translations, Some(filename))))
    {
      var off := player != null && !player.translationEnabled;
      var src := ChoosePage(filename, ignored, off, i18n.CurrentLocale(), disk, pages);
      match src
      case Missing =>
        html := Some(MISSING_PAGE);
        save := None;
      case Verbatim(path, page) =>
        file := Some(path);
        html := Some(page);
        save := None;
      case Processed(path, page) =>
        file := Some(filename);
        save := SetHtml(page, player, cache, i18n, j, setup);
    }
  }
}
