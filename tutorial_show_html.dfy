/** TutorialShowHtml: the tutorial window packet.  Its page goes through the
    same Jsoup stage as an NPC page, with the tutorial's fixed button sizes,
    the tutorial frame and a cache of its own, and then through the same
    processHtmltags.  The packet has no object (id 0) and no file name, so
    nothing is ever saved to disk. */
module TutorialHtml {
  import opened Text
  import opened LinkButtons
  import opened PageCache
  import opened HtmlTags
  import opened I18n

  /** _objectId: always 0. */
  const TUTORIAL_OBJECT_ID := 0

  /** The page of a tutorial packet and the tutorial cache after it. */
  function TutorialPageSpec(cache: map<string, string>, j: JsoupPasses, locale: string, table: map<string, string>)
    : (r: (string, map<string, string>))
    ensures var key := CacheKey(j.standardized, TUTORIAL_OBJECT_ID, locale);
      key in cache ==> r == (ProcessHtmlTagsSpec(cache[key], table), cache)
    ensures var key := CacheKey(j.standardized, TUTORIAL_OBJECT_ID, locale);
      key !in cache ==> r.0 == ProcessHtmlTagsSpec(BuildPage(j, Fixed, TutorialFrame), table)
    ensures var key := CacheKey(j.standardized, TUTORIAL_OBJECT_ID, locale);
      key !in cache ==> r.1 == (if j.hasTranslation then cache else cache[key := BuildPage(j, Fixed, TutorialFrame)])
  {
    var (p, c) := PrepareSpec(cache, j, TUTORIAL_OBJECT_ID, locale, Fixed, TutorialFrame);
    (ProcessHtmlTagsSpec(p.html, table), c)
  }

  /** A second tutorial packet for the same page and locale shows the same
      page and leaves the cache as the first left it, unless the first
      produced new translation keys. */
  lemma TutorialReplay(cache: map<string, string>, j: JsoupPasses, locale: string, table: map<string, string>)
    requires !j.hasTranslation
    ensures var (h1, c1) := TutorialPageSpec(cache, j, locale, table);
      TutorialPageSpec(c1, j, locale, table) == (h1, c1)
  {
    var key := CacheKey(j.standardized, TUTORIAL_OBJECT_ID, locale);
    var (h1, c1) := TutorialPageSpec(cache, j, locale, table);
    assert key in c1;
    assert key !in cache ==> c1[key] == BuildPage(j, Fixed, TutorialFrame);
  }

  class TutorialShowHtml {
    /** The text handed to the constructor. */
    const text: string
    /** _html: the page the packet carries. */
    const html: string
    const objectId: int
    /** _file: always null. */
    const file: Option<string>

    /** The constructor: processHtmltutorial, then processHtmltags with no
        file, whose save step therefore writes nothing. */
    constructor (text: string, cache: HtmlCache, i18n: Translator, j: JsoupPasses)
      modifies cache
      ensures this.text == text && objectId == TUTORIAL_OBJECT_ID && file == None
      ensures (html, cache.entries) == TutorialPageSpec(old(cache.entries), j, i18n.CurrentLocale(), i18n.translations)
    {
      var locale := i18n.CurrentLocale();
      var result := Prepare(cache, j, TUTORIAL_OBJECT_ID, locale, Fixed, TutorialFrame);
      var page, save := ProcessHtmlTags(result.html, i18n.translations, None, result.hasTranslation, locale);
      NoFileNoSave(page, locale, result.hasTranslation);
      assert save.None?;
      this.text := text;
      objectId := TUTORIAL_OBJECT_ID;
      file := None;
      html := page;
    }
  }
}
