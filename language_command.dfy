/** LanguageCommand: the voiced commands setlang, langon and langoff. */
module LanguageCommands {
  import opened Text
  import opened Players
  import opened PageCache
  import opened I18n

  const USAGE := "Usage: .setlang <language> <country>"
  const CHANGED_PREFIX := "Language changed to: "
  const ENABLED_TEXT := "Tradução de HTML habilitada para você."
  const DISABLED_TEXT := "Tradução de HTML desabilitada para você. Agora será exibido apenas o HTML original."

  /** What the command does. */
  datatype Action =
    | Usage
    | ChangeLocale(language: string, country: string)
    | SetTranslation(enabled: bool)
    | NotHandled

  /** The branch useVoicedCommand takes: setlang is matched as a prefix and
      needs two space-separated parameters, which are trimmed; langon and
      langoff are matched ignoring case. */
  function Decide(command: string, target: string): (r: Action)
    ensures StartsWith(command, "setlang") ==> r.Usage? || r.ChangeLocale?
    ensures !StartsWith(command, "setlang") ==>
      (r == SetTranslation(true) <==> EqualsIgnoreCase(command, "langon"))
      && (r == SetTranslation(false) <==> !EqualsIgnoreCase(command, "langon") && EqualsIgnoreCase(command, "langoff"))
      && (r.NotHandled? <==> !EqualsIgnoreCase(command, "langon") && !EqualsIgnoreCase(command, "langoff"))
  {
    if StartsWith(command, "setlang") then
      var params := JavaSplit(target, ' ');
      if |params| < 2 then Usage else ChangeLocale(Trim(params[0]), Trim(params[1]))
    else if EqualsIgnoreCase(command, "langon") then SetTranslation(true)
    else if EqualsIgnoreCase(command, "langoff") then SetTranslation(false)
    else NotHandled
  }

  /** The result of useVoicedCommand: false exactly for the usage message and
      for a command that is not one of the three. */
  function Handled(a: Action): bool {
    !(a.Usage? || a.NotHandled?)
  }

  /** setlang with a language and a country hands both on, untouched. */
  lemma SetLangParameters(command: string, lang: string, ctry: string)
    requires StartsWith(command, "setlang")
    requires lang != [] && ctry != [] && ' ' !in lang && ' ' !in ctry
    requires !IsTrimmable(lang[0]) && !IsTrimmable(lang[|lang| - 1])
    requires !IsTrimmable(ctry[0]) && !IsTrimmable(ctry[|ctry| - 1])
    ensures Decide(command, lang + " " + ctry) == ChangeLocale(lang, ctry)
  {
    SplitTwo(lang, ctry);
    TrimNoop(lang);
    TrimNoop(ctry);
  }

  /** "a b".split(" ") is [a, b]. */
  lemma SplitTwo(a: string, b: string)
    requires a != [] && b != [] && ' ' !in a && ' ' !in b
    ensures JavaSplit(a + " " + b, ' ') == [a, b]
  {
    var t := a + " " + b;
    assert t == a + [' '] + b;
    IndexOfCharAfterPrefix(a, ' ', b);
    SplitAllStep(t, ' ', |a|);
    assert t[..|a|] == a && t[|a| + 1..] == b;
    NoCharIndex(b, ' ');
    assert SplitAll(b, ' ') == [b];
    assert t[|a|] == ' ';
  }

  /** setlang without a second parameter only shows the usage. */
  lemma SetLangNeedsCountry(command: string, lang: string)
    requires StartsWith(command, "setlang") && ' ' !in lang
    ensures Decide(command, lang) == Usage && !Handled(Usage)
  {
  }

  /** langon is recognised in any case, whatever follows. */
  lemma LangOnIgnoresCase(command: string, target: string)
    requires EqualsIgnoreCase(command, "langon")
    ensures Decide(command, target) == SetTranslation(true) && Handled(Decide(command, target))
  {
    LowerStrIs("langon", "langon");
    assert |command| == 6;
  }

  /** So is langoff. */
  lemma LangOffIgnoresCase(command: string, target: string)
    requires EqualsIgnoreCase(command, "langoff")
    ensures Decide(command, target) == SetTranslation(false) && Handled(Decide(command, target))
  {
    assert |command| == 7 && "langoff"[0] == 'l';
    NotSetLang(command);
  }

  /** A command whose first letter is an 'l' in either case is not setlang. */
  lemma NotSetLang(command: string)
    requires command != [] && Lower(command[0]) == 'l'
    ensures !StartsWith(command, "setlang")
  {
    assert |command| >= 7 ==> command[..7][0] == command[0];
  }

  /** useVoicedCommand.  setLocale swallows its own exceptions, so neither
      catch block is reached: a setlang with two parameters always reports
      the current locale and clears the NPC page cache. */
  method UseVoicedCommand(command: string, player: Player, target: string, i18n: Translator,
                          files: map<string, map<string, string>>, cache: HtmlCache)
    returns (handled: bool)
    modifies player`sent, player`translationEnabled, i18n, cache
    ensures handled == Handled(Decide(command, target))
    ensures match Decide(command, target)
      case Usage =>
        player.sent == old(player.sent) + [Message(USAGE)]
        && unchanged(i18n) && unchanged(cache) && player.translationEnabled == old(player.translationEnabled)
      case NotHandled =>
        player.sent == old(player.sent) && unchanged(i18n) && unchanged(cache)
        && player.translationEnabled == old(player.translationEnabled)
      case ChangeLocale(lang, ctry) =>
        player.sent == old(player.sent) + [Message(CHANGED_PREFIX + i18n.CurrentLocale())]
        && cache.entries == map[] && player.translationEnabled == old(player.translationEnabled)
        && (ChosenCountry(lang, ctry).None? ==>
              i18n.language == old(i18n.language) && i18n.country == old(i18n.country)
              && i18n.translations == old(i18n.translations))
        && (ChosenCountry(lang, ctry).Some? ==>
              i18n.language == LowerStr(lang) && i18n.country == UpperStr(ChosenCountry(lang, ctry).value)
              && var name := LocaleName(lang, ChosenCountry(lang, ctry).value);
                 i18n.translations == (if name in files then files[name] else old(i18n.translations)))
      case SetTranslation(enabled) =>
        player.translationEnabled == enabled && cache.entries == map[] && unchanged(i18n)
        && player.sent == old(player.sent) + [Message(if enabled then ENABLED_TEXT else DISABLED_TEXT)]
  {
    if StartsWith(command, "setlang") {
      var params := JavaSplit(target, ' ');
      if |params| < 2 {
        player.Send(Message(USAGE));
        return false;
      }
      var language := Trim(params[0]);
      var country := Trim(params[1]);
      i18n.SetLocale(language, country, files);
      player.Send(Message(CHANGED_PREFIX + i18n.CurrentLocale()));
      cache.Clear();
      return true;
    }
    if EqualsIgnoreCase(command, "langon") {
      player.SetTranslationEnabled(true);
      cache.Clear();
      player.Send(Message(ENABLED_TEXT));
      return true;
    }
    if EqualsIgnoreCase(command, "langoff") {
      player.SetTranslationEnabled(false);
      cache.Clear();
      player.Send(Message(DISABLED_TEXT));
      return true;
    }
    return false;
  }
}
