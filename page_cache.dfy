/** The Jsoup stage shared by NpcHtmlMessage.processHtmlWithJsoup and
    TutorialShowHtml.processHtmltutorial, and the static HTML_CACHE each
    packet class keeps for it.  The Jsoup passes themselves (standardising
    the page, replacing link and body texts by %key% tags) are a parser
    outside the model: their results are the fields of JsoupPasses, and
    hasTranslation is the answer of TranslationsFile.SaveTranslationsToFile
    on the keys they extracted. */
module PageCache {
  import opened Text
  import opened LinkButtons

  /** The static HTML_CACHE: pages after the Jsoup stage, by cache key. */
  class HtmlCache {
    var entries: map<string, string>

    constructor ()
      ensures entries == map[]
    {
      entries := map[];
    }

    /** clearHtmlCache */
    method Clear()
      modifies this
      ensures entries == map[]
    {
      entries := map[];
    }

    method Put(key: string, page: string)
      modifies this
      ensures entries == old(entries)[key := page]
    {
      entries := entries[key := page];
    }
  }

  /** What the Jsoup passes yield for one page: the standardised page (the
      cache key is built from it), the page after the link and body-text
      passes, and whether saveTranslationsToFile reported new keys. */
  datatype JsoupPasses = JsoupPasses(standardized: string, translated: string, hasTranslation: bool)

  /** HtmlProcessResult */
  datatype Prepared = Prepared(html: string, hasTranslation: bool)

  /** The page frame of each packet. */
  datatype Framing = NpcFrame | TutorialFrame

  /** html + "#" + objectId + "#" + lang */
  function CacheKey(page: string, objectId: int, locale: string): string {
    page + "#" + IntToString(objectId) + "#" + locale
  }

  /** Different locales, objects or pages never share a cache entry, as long
      as the locale itself has no '#'. */
  lemma CacheKeyInjective(p1: string, o1: int, l1: string, p2: string, o2: int, l2: string)
    requires '#' !in l1 && '#' !in l2 && IsInt32(o1) && IsInt32(o2)
    requires CacheKey(p1, o1, l1) == CacheKey(p2, o2, l2)
    ensures p1 == p2 && o1 == o2 && l1 == l2
  {
    IntToStringHasNo(o1, '#');
    IntToStringHasNo(o2, '#');
    var n1, n2 := IntToString(o1), IntToString(o2);
    var k := CacheKey(p1, o1, l1);
    assert k == (p1 + "#" + n1 + "#") + l1;
    assert k == (p2 + "#" + n2 + "#") + l2;
    SuffixAfterLastHash(p1 + "#" + n1, l1, p2 + "#" + n2, l2);
    assert p1 + "#" + n1 == p2 + "#" + n2;
    SuffixAfterLastHash(p1, n1, p2, n2);
    ParseIntToString(o1);
    ParseIntToString(o2);
  }

  /** a + "#" + b == c + "#" + d with no '#' in b and d splits at the same place. */
  lemma SuffixAfterLastHash(a: string, b: string, c: string, d: string)
    requires '#' !in b && '#' !in d
    requires a + "#" + b == c + "#" + d
    ensures a == c && b == d
  {
    var s := a + "#" + b;
    LastHashAt(a, b);
    LastHashAt(c, d);
    assert |a| == |c|;
    assert s[..|a|] == a && s[..|c|] == c;
    assert s[|a| + 1..] == b && (c + "#" + d)[|c| + 1..] == d;
  }

  /** The last '#' of a + "#" + b is the one after a when b has none. */
  lemma LastHashAt(a: string, b: string)
    requires '#' !in b
    ensures var s := a + "#" + b; LastIndexOfChar(s, '#', |s| - 1) == |a|
  {
    var s := a + "#" + b;
    assert s[|a|] == '#';
    assert forall j :: |a| < j < |s| ==> s[j] == b[j - |a| - 1];
    assert forall j :: |a| < j < |s| ==> s[j] != '#' by {
      assert forall k :: 0 <= k < |b| ==> b[k] in b;
    }
  }

  /** The six structural tags the stage removes before framing the page. */
  function StripFrameTags(h: string): string {
    var a := Replace(h, "<html>", "");
    var b := Replace(a, "</html>", "");
    var c := Replace(b, "<body>", "");
    var d := Replace(c, "</body>", "");
    var e := Replace(d, "<center>", "");
    Replace(e, "</center>", "")
  }

  const NPC_FRAME_HEAD := "<html>\n<body>\n<center>\n<title>%title%</title>\n"
  const NPC_FRAME_TAIL := "\n<img src=\"L2UI.SquareWhite\" width=\"300\" height=\"1\">\n<!-- L2jBrasil By Dhousefe -->\n</center>\n</body>\n</html>"
  const TUTORIAL_FRAME_HEAD := "<html><body><center>"
  const TUTORIAL_FRAME_TAIL := "<br><img src=\"L2UI.SquareWhite\" width=\"300\" height=\"1\"><!-- L2jBrasil By Dhousefe --></center></body></html>"

  /** The String.format call that wraps the page. */
  function Frame(framing: Framing, h: string): string {
    match framing
    case NpcFrame => NPC_FRAME_HEAD + h + NPC_FRAME_TAIL
    case TutorialFrame => TUTORIAL_FRAME_HEAD + h + TUTORIAL_FRAME_TAIL
  }

  /** The page the stage builds when the cache has no entry for it. */
  function BuildPage(j: JsoupPasses, style: LinkStyle, framing: Framing): string
    requires ValidStyle(style)
  {
    Frame(framing, StripFrameTags(FormatLinksSpec(j.translated, style)))
  }

  /** The whole stage: a cached page is reused and reported as needing no
      translation; otherwise the page is built and stored in the cache only
      when no new translation keys were produced. */
  function PrepareSpec(cache: map<string, string>, j: JsoupPasses, objectId: int, locale: string,
                       style: LinkStyle, framing: Framing): (r: (Prepared, map<string, string>))
    requires ValidStyle(style)
    ensures var key := CacheKey(j.standardized, objectId, locale);
      key in cache ==> r.0 == Prepared(cache[key], false) && r.1 == cache
    ensures var key := CacheKey(j.standardized, objectId, locale);
      key !in cache ==> r.0 == Prepared(BuildPage(j, style, framing), j.hasTranslation)
    ensures var key := CacheKey(j.standardized, objectId, locale);
      r.1 == (if key !in cache && !j.hasTranslation then cache[key := r.0.html] else cache)
  {
    var key := CacheKey(j.standardized, objectId, locale);
    if key in cache then (Prepared(cache[key], false), cache)
    else
      var page := BuildPage(j, style, framing);
      (Prepared(page, j.hasTranslation), if j.hasTranslation then cache else cache[key := page])
  }

  /** Running the stage again on what it left behind gives the same page,
      now from the cache, unless the first run produced new keys. */
  lemma PrepareReplay(cache: map<string, string>, j: JsoupPasses, objectId: int, locale: string,
                      style: LinkStyle, framing: Framing)
    requires ValidStyle(style)
    ensures var (p, c) := PrepareSpec(cache, j, objectId, locale, style, framing);
      !p.hasTranslation ==> PrepareSpec(c, j, objectId, locale, style, framing) == (p, c)
  {
  }

  /** The stage only ever adds the one entry of its own key: every other
      entry stays, with its page. */
  lemma PrepareKeepsOtherEntries(cache: map<string, string>, j: JsoupPasses, objectId: int, locale: string,
                                 style: LinkStyle, framing: Framing, other: string)
    requires ValidStyle(style)
    requires other != CacheKey(j.standardized, objectId, locale) && other in cache
    ensures var c := PrepareSpec(cache, j, objectId, locale, style, framing).1;
      other in c && c[other] == cache[other]
  {
  }

  /** Pages that produce new keys are never served from the cache: a page
      with new keys is rebuilt on every request. */
  lemma TranslatedPagesNotCached(cache: map<string, string>, j: JsoupPasses, objectId: int, locale: string,
                                 style: LinkStyle, framing: Framing)
    requires ValidStyle(style) && j.hasTranslation
    requires CacheKey(j.standardized, objectId, locale) !in cache
    ensures var (p, c) := PrepareSpec(cache, j, objectId, locale, style, framing);
      c == cache && p.hasTranslation
      && PrepareSpec(c, j, objectId, locale, style, framing) == (p, c)
  {
  }

  /** processHtmlWithJsoup / processHtmltutorial after the Jsoup passes. */
  method Prepare(cache: HtmlCache, j: JsoupPasses, objectId: int, locale: string, style: LinkStyle, framing: Framing)
    returns (r: Prepared)
    requires ValidStyle(style)
    modifies cache
    ensures (r, cache.entries) == PrepareSpec(old(cache.entries), j, objectId, locale, style, framing)
  {
    var key := j.standardized + "#" + IntToString(objectId) + "#" + locale;
    if key in cache.entries {
      return Prepared(cache.entries[key], false);
    }
    var html := FormatLinks(j.translated, style);
    html := Replace(html, "<html>", "");
    html := Replace(html, "</html>", "");
    html := Replace(html, "<body>", "");
    html := Replace(html, "</body>", "");
    html := Replace(html, "<center>", "");
    html := Replace(html, "</center>", "");
    html := Frame(framing, html);
    if !j.hasTranslation {
      cache.Put(key, html);
    }
    r := Prepared(html, j.hasTranslation);
  }
}
