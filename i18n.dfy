/** The global translation table: the current locale and the properties
    loaded from config/traducao/messages_<locale>.properties.  The file system
    is a map from locale names to the properties a readable file of that name
    holds; a name missing from the map is a file that does not exist. */
module I18n {
  import opened Text

  /** I18n.get: the stored translation, or "!key!". */
  function Lookup(translations: map<string, string>, key: string): (r: string)
    ensures key in translations ==> r == translations[key]
    ensures key !in translations ==> r == "!" + key + "!"
  {
    if key in translations then translations[key] else "!" + key + "!"
  }

  /** The placeholder comes back exactly for missing keys, unless a stored
      translation is itself the placeholder. */
  lemma LookupPlaceholder(translations: map<string, string>, key: string)
    ensures Lookup(translations, key) == "!" + key + "!" <==>
      key !in translations || translations[key] == "!" + key + "!"
  {
  }

  /** With nothing loaded every lookup is a placeholder. */
  lemma EmptyTableLookup(key: string)
    ensures Lookup(map[], key) == "!" + key + "!"
  {
  }

  /** new Locale(language, country).toString(): the language in lower case
      and the country in upper case, joined by "_". */
  function LocaleName(language: string, country: string): (r: string)
    ensures |r| == |language| + 1 + |country| && r[|language|] == '_'
  {
    LowerStr(language) + "_" + UpperStr(country)
  }

  /** The default country setLocale picks for a language, if it has one. */
  function DefaultCountry(language: string): (r: Option<string>)
    ensures r.Some? ==> |r.value| == 2
  {
    var l := LowerStr(language);
    if l == "pt" then Some("BR")
    else if l == "en" then Some("US")
    else if l == "de" then Some("DE")
    else if l == "fr" then Some("FR")
    else if l == "it" then Some("IT")
    else if l == "es" then Some("ES")
    else if l == "ja" then Some("JP")
    else if l == "ko" then Some("KR")
    else if l == "ru" then Some("RU")
    else if l == "pl" then Some("PL")
    else if l == "zh_tw" then Some("TW")
    else None
  }

  /** The default country ignores the case of the language. */
  lemma DefaultCountryIgnoresCase(a: string, b: string)
    requires EqualsIgnoreCase(a, b)
    ensures DefaultCountry(a) == DefaultCountry(b)
  {
    EqualsIgnoreCaseLower(a, b);
  }

  /** The country setLocalel picks: only pt and en are supported. */
  function ShortCountry(language: string): Option<string>
  {
    var l := LowerStr(language);
    if l == "pt" then Some("BR") else if l == "en" then Some("US") else None
  }

  /** setLocalel supports a subset of what setLocale supports. */
  lemma ShortCountryAgrees(language: string)
    ensures ShortCountry(language).Some? ==> DefaultCountry(language) == ShortCountry(language)
  {
  }

  /** loadTranslations: the file's properties, or an empty table when it
      cannot be read. */
  function Load(files: map<string, map<string, string>>, name: string): map<string, string>
  {
    if name in files then files[name] else map[]
  }

  /** The country setLocale(language, country) settles on: the given one,
      else the table's default; none for an empty language or a language
      outside the table. */
  function ChosenCountry(lang: string, ctry: string): (r: Option<string>)
    ensures lang == [] ==> r.None?
    ensures lang != [] && ctry != [] ==> r == Some(ctry)
    ensures r.Some? ==> r.value != []
  {
    if lang == [] then None
    else if ctry != [] then Some(ctry)
    else DefaultCountry(lang)
  }

  /** Why setLocalel failed. */
  datatype LocaleError = UnsupportedLanguage | TranslationFileMissing

  class Translator {
    var language: string
    var country: string
    var translations: map<string, string>

    /** The static initialiser: pt_BR, and its file loaded. */
    constructor (files: map<string, map<string, string>>)
      ensures language == "pt" && country == "BR"
      ensures translations == Load(files, "pt_BR")
    {
      language := "pt";
      country := "BR";
      assert LocaleName("pt", "BR") == "pt_BR";
      translations := Load(files, "pt_BR");
    }

    /** getCurrentLocale. */
    function CurrentLocale(): string
      reads this
    {
      LocaleName(language, country)
    }

    /** I18n.get */
    function Get(key: string): (r: string)
      reads this
      ensures key !in translations ==> r == "!" + key + "!"
      ensures key in translations ==> r == translations[key]
    {
      Lookup(translations, key)
    }

    /** I18n.containsKey */
    function ContainsKey(key: string): bool
      reads this
    {
      key in translations
    }

    /** setLocale(language, country).  An empty language, or an empty country
        with a language outside the table, changes nothing (the exception is
        swallowed).  Otherwise the locale is set first; the translations are
        reloaded only if the new locale's file exists. */
    method SetLocale(lang: string, ctry: string, files: map<string, map<string, string>>)
      modifies this
      ensures ChosenCountry(lang, ctry).None? ==>
        language == old(language) && country == old(country) && translations == old(translations)
      ensures ChosenCountry(lang, ctry).Some? ==>
        language == LowerStr(lang) && country == UpperStr(ChosenCountry(lang, ctry).value)
      ensures ChosenCountry(lang, ctry).Some? ==>
        var name := LocaleName(lang, ChosenCountry(lang, ctry).value);
        translations == (if name in files then files[name] else old(translations))
    {
      var c := ChosenCountry(lang, ctry);
      if c.None? {
        return;
      }
      language := LowerStr(lang);
      country := UpperStr(c.value);
      var name := LocaleName(lang, c.value);
      if name in files {
        translations := files[name];
      }
    }

    /** setLocalel(language): only pt and en; failures are rethrown, and a
        missing file is reported after the locale has already changed. */
    method SetLocaleShort(lang: string, files: map<string, map<string, string>>) returns (r: Result)
      modifies this
      ensures ShortCountry(lang).None? ==>
        r == Failed(UnsupportedLanguage) && language == old(language) && country == old(country)
        && translations == old(translations)
      ensures ShortCountry(lang).Some? ==>
        var c := ShortCountry(lang).value;
        language == LowerStr(lang) && country == c
        && (LocaleName(lang, c) in files ==> r == Done && translations == files[LocaleName(lang, c)])
        && (LocaleName(lang, c) !in files ==> r == Failed(TranslationFileMissing) && translations == old(translations))
    {
      var d := ShortCountry(lang);
      if d.None? {
        return Failed(UnsupportedLanguage);
      }
      language := LowerStr(lang);
      country := UpperStr(d.value);
      assert UpperStr(d.value) == d.value;
      var name := LocaleName(lang, d.value);
      if name !in files {
        return Failed(TranslationFileMissing);
      }
      translations := Load(files, name);
      return Done;
    }
  }

  datatype Result = Done | Failed(error: LocaleError)
}
