/** generateTranslationKey (identical in NpcHtmlMessage and TutorialShowHtml)
    and the derivation of a translated page's file name used by setFile and
    saveTranslatedHtmlToFile. */
module TranslationKey {
  import opened Text

  /** The characters a key may contain once the dots are gone. */
  predicate IsKeyChar(c: char) {
    IsAsciiLower(c) || IsDigit(c) || c == '_'
  }

  /** replaceAll("(\\d),(\\d)", "$1$2"): a comma between two digits is
      dropped; matches are found left to right and do not overlap, so in
      "1,2,3" only the first comma goes. */
  function DropDigitCommas(s: string): (r: string)
    ensures |r| <= |s|
    ensures ',' !in s ==> r == s
    decreases |s|
  {
    if |s| >= 3 && IsDigit(s[0]) && s[1] == ',' && IsDigit(s[2]) then [s[0], s[2]] + DropDigitCommas(s[3..])
    else if s == [] then []
    else [s[0]] + DropDigitCommas(s[1..])
  }

  /** String.replace of a one-character string by "": every `c` removed. */
  function Without(s: string, c: char): (r: string)
    ensures c !in r
    ensures forall x :: x != c ==> (x in r <==> x in s)
    ensures c !in s ==> r == s
    decreases |s|
  {
    if s == [] then []
    else if s[0] == c then Without(s[1..], c)
    else [s[0]] + Without(s[1..], c)
  }

  /** replaceAll("[^a-z0-9\\.]", "_") for one character. */
  function KeyChar(c: char): (r: char)
    ensures IsKeyChar(r) || r == '.'
    ensures (IsKeyChar(c) && c != '_') || c == '.' ==> r == c
  {
    if IsAsciiLower(c) || IsDigit(c) || c == '.' then c else '_'
  }

  /** Every character is a key character or a dot. */
  predicate KeyOrDot(s: string) {
    forall x :: x in s ==> IsKeyChar(x) || x == '.'
  }

  function KeyChars(s: string): (r: string)
    ensures |r| == |s|
    ensures forall i :: 0 <= i < |s| ==> r[i] == KeyChar(s[i])
    ensures KeyOrDot(r)
  {
    seq(|s|, i requires 0 <= i < |s| => KeyChar(s[i]))
  }

  /** replaceAll("_+", "_"): every run of underscores becomes one. */
  function Collapse(s: string): (r: string)
    ensures forall i :: 0 <= i < |r| - 1 ==> !(r[i] == '_' && r[i + 1] == '_')
    ensures forall x :: x in r <==> x in s
    ensures |r| <= |s|
    ensures r != [] && s != [] ==> r[0] == s[0]
    ensures '_' !in s ==> r == s
    decreases |s|
  {
    if s == [] then []
    else if s[0] == '_' && |s| >= 2 && s[1] == '_' then Collapse(s[1..])
    else
      var t := Collapse(s[1..]);
      assert ([s[0]] + t)[1..] == t;
      [s[0]] + t
  }

  /** The two startsWith/endsWith("_") checks: at most one underscore off
      each end. */
  function StripUnderscores(s: string): (r: string)
    ensures forall x :: x in r ==> x in s
    ensures '_' !in s ==> r == s
  {
    var t := if |s| > 0 && s[0] == '_' then s[1..] else s;
    if |t| > 0 && t[|t| - 1] == '_' then t[..|t| - 1] else t
  }

  /** replaceAll("\\._", "_"): a dot directly before an underscore goes. */
  function DropDotBeforeUnderscore(s: string): (r: string)
    ensures forall x :: x in r ==> x in s
    ensures '.' !in s ==> r == s
    decreases |s|
  {
    if s == [] then []
    else if |s| >= 2 && s[0] == '.' && s[1] == '_' then "_" + DropDotBeforeUnderscore(s[2..])
    else [s[0]] + DropDotBeforeUnderscore(s[1..])
  }

  /** String.replace("<br1>", "<br>"). */
  function Br1ToBr(s: string): string {
    Replace(s, "<br1>", "<br>")
  }

  /** Replacing a target that starts with a character `s` never contains
      leaves `s` as it is. */
  lemma {:induction false} ReplaceAbsent(s: string, target: string, repl: string)
    requires target != [] && target[0] !in s
    ensures Replace(s, target, repl) == s
    decreases |s|
  {
    if |s| >= |target| {
      assert s[..|target|][0] == s[0];
      ReplaceAbsent(s[1..], target, repl);
    }
  }

  /** generateTranslationKey: the text normalised to a key over a-z, 0-9 and `_`. */
  function GenerateKey(text: string): (r: string)
    ensures forall i :: 0 <= i < |r| ==> IsKeyChar(r[i])
  {
    var a := Without(Without(DropDigitCommas(text), '\''), '-');
    var b := KeyChars(LowerStr(Br1ToBr(a)));
    var c := DropDotBeforeUnderscore(StripUnderscores(Collapse(b)));
    assert KeyOrDot(c);
    var r := Without(c, '.');
    assert forall i :: 0 <= i < |r| ==> r[i] in r;
    r
  }

  /** A text made only of lower-case letters and digits is its own key. */
  lemma KeyOfPlainText(text: string)
    requires forall i :: 0 <= i < |text| ==> IsAsciiLower(text[i]) || IsDigit(text[i])
    ensures GenerateKey(text) == text
  {
    assert ',' !in text && '\'' !in text && '-' !in text && '<' !in text;
    ReplaceAbsent(text, "<br1>", "<br>");
    assert LowerStr(text) == text;
    assert KeyChars(text) == text;
    assert '_' !in text && '.' !in text;
  }

  /** The comma of one digit-comma-digit group goes, when no other comma is
      around. */
  lemma {:induction false} DropOneDigitComma(p: string, d1: char, d2: char, q: string)
    requires IsDigit(d1) && IsDigit(d2) && ',' !in p && ',' !in q
    ensures DropDigitCommas(p + [d1, ',', d2] + q) == p + [d1, d2] + q
    decreases |p|
  {
    var s := p + [d1, ',', d2] + q;
    if p == [] {
      assert s == [d1, ',', d2] + q;
      assert s[3..] == q;
    } else {
      var g, t := [d1, ',', d2], [d1, d2];
      ConsParts(p, g, q);
      ConsParts(p, t, q);
      DropOneDigitComma(p[1..], d1, d2, q);
      DropNoMatchHead(s);
    }
  }

  /** p + m + q, with p not empty, is its first character and the rest. */
  lemma ConsParts(p: string, m: string, q: string)
    requires p != []
    ensures (p + m + q)[0] == p[0] && (p + m + q)[1..] == p[1..] + m + q
    ensures p + m + q == [p[0]] + (p[1..] + m + q)
  {
    assert (p + m + q)[1..] == p[1..] + m + q;
  }

  /** No digit-comma-digit group starts where the second character is not a
      comma: the first character is kept. */
  lemma DropNoMatchHead(s: string)
    requires |s| >= 2 && s[1] != ','
    ensures DropDigitCommas(s) == [s[0]] + DropDigitCommas(s[1..])
  {
  }

  /** Thousands separators do not change the key: "50,000" and "50000" give
      the same key, and in general a digit-comma-digit group keys like the
      two digits alone. */
  lemma DigitCommaSameKey(p: string, d1: char, d2: char, q: string, grouped: string, plain: string)
    requires IsDigit(d1) && IsDigit(d2) && ',' !in p && ',' !in q
    requires grouped == p + [d1, ',', d2] + q && plain == p + [d1, d2] + q
    ensures GenerateKey(grouped) == GenerateKey(plain)
  {
    DropOneDigitComma(p, d1, d2, q);
    assert ',' !in plain;
  }

  /** A digit string with a thousands separator, such as "50,000", keys as
      the digits alone, "50000". */
  lemma ThousandsSeparatorDropped(p: string, q: string)
    requires p != [] && |q| == 3
    requires forall i :: 0 <= i < |p| ==> IsDigit(p[i])
    requires forall i :: 0 <= i < |q| ==> IsDigit(q[i])
    ensures GenerateKey(p + "," + q) == GenerateKey(p + q) == p + q
  {
    var n := |p| - 1;
    GroupParts(p, q);
    DigitCommaSameKey(p[..n], p[n], q[0], q[1..], p + "," + q, p + q);
    DigitsConcat(p, q);
    KeyOfPlainText(p + q);
  }

  /** p + "," + q around its comma, none in p or q. */
  lemma GroupParts(p: string, q: string)
    requires p != [] && q != []
    requires forall i :: 0 <= i < |p| ==> IsDigit(p[i])
    requires forall i :: 0 <= i < |q| ==> IsDigit(q[i])
    ensures var n := |p| - 1;
      p + "," + q == p[..n] + [p[n], ',', q[0]] + q[1..] && p + q == p[..n] + [p[n], q[0]] + q[1..]
      && ',' !in p[..n] && ',' !in q[1..]
  {
    var n := |p| - 1;
    var a, b := p[..n], q[1..];
    assert p == a + [p[n]] && q == [q[0]] + b;
    assert forall i :: 0 <= i < |a| ==> a[i] == p[i];
    assert forall i :: 0 <= i < |b| ==> b[i] == q[i + 1];
  }

  /** Digits followed by digits are digits. */
  lemma DigitsConcat(p: string, q: string)
    requires forall i :: 0 <= i < |p| ==> IsDigit(p[i])
    requires forall i :: 0 <= i < |q| ==> IsDigit(q[i])
    ensures var u := p + q; forall i :: 0 <= i < |u| ==> IsAsciiLower(u[i]) || IsDigit(u[i])
  {
    var u := p + q;
    assert forall i :: 0 <= i < |p| ==> u[i] == p[i];
    assert forall i :: |p| <= i < |u| ==> u[i] == q[i - |p|];
  }

  /** String.replace("-", "_") for one character. */
  function DashToUnderscore(c: char): char {
    if c == '-' then '_' else c
  }

  /** "_" + lang.toLowerCase().replace("-", "_"). */
  function LangSuffix(lang: string): (r: string)
    ensures |r| == |lang| + 1 && r[0] == '_'
    ensures forall i :: 0 <= i < |r| ==> r[i] != '-' && !IsAsciiUpper(r[i])
  {
    var l := LowerStr(lang);
    "_" + seq(|l|, i requires 0 <= i < |l| => DashToUnderscore(l[i]))
  }

  /** filename.lastIndexOf("."), or -1. */
  function ExtIndex(filename: string): (r: int)
    ensures -1 <= r < |filename|
    ensures r >= 0 ==> filename[r] == '.' && '.' !in filename[r + 1..]
    ensures r == -1 ==> '.' !in filename
  {
    var r := LastIndexOfChar(filename, '.', |filename|);
    assert r >= 0 ==> forall j :: r < j < |filename| ==> filename[j] != '.';
    r
  }

  /** The translated page's name: the language suffix goes before the last
      dot; with no dot, or a dot only at index 0, suffix and ".htm" are
      appended. */
  function TranslatedFileName(filename: string, lang: string): (r: string)
  {
    var e := ExtIndex(filename);
    if e > 0 then filename[..e] + LangSuffix(lang) + filename[e..]
    else filename + LangSuffix(lang) + ".htm"
  }

  /** With an extension, the suffix sits just before the last dot and taking
      it out gives back the original name; the extension is kept. */
  lemma TranslatedNameWithExtension(filename: string, lang: string)
    requires ExtIndex(filename) > 0
    ensures var e, r, sfx := ExtIndex(filename), TranslatedFileName(filename, lang), LangSuffix(lang);
      r[..e] + r[e + |sfx|..] == filename && r[e..e + |sfx|] == sfx
      && r[e + |sfx|..] == filename[e..] && r[e + |sfx|] == '.'
  {
    var e, r, sfx := ExtIndex(filename), TranslatedFileName(filename, lang), LangSuffix(lang);
    assert r == filename[..e] + sfx + filename[e..];
    InsertedPiece(filename, e, sfx, r);
  }

  /** A piece inserted before the '.' at e can be cut out again. */
  lemma InsertedPiece(s: string, e: nat, p: string, r: string)
    requires e < |s| && s[e] == '.' && r == s[..e] + p + s[e..]
    ensures r[..e] + r[e + |p|..] == s && r[e..e + |p|] == p
      && r[e + |p|..] == s[e..] && r[e + |p|] == '.'
  {
    assert r[..e] == s[..e];
    assert r[e + |p|..] == s[e..];
    assert r[e..e + |p|] == p;
    assert s[..e] + s[e..] == s;
    assert s[e..][0] == s[e];
  }

  /** Without an extension past index 0 the name gets suffix + ".htm". */
  lemma TranslatedNameWithoutExtension(filename: string, lang: string)
    requires '.' !in filename || (filename != [] && filename[0] == '.' && '.' !in filename[1..])
    ensures TranslatedFileName(filename, lang) == filename + LangSuffix(lang) + ".htm"
  {
  }

  /** The translated name is never the original name: saving a translation
      cannot overwrite the page it came from. */
  lemma TranslatedNameDiffers(filename: string, lang: string)
    ensures |TranslatedFileName(filename, lang)| > |filename|
    ensures TranslatedFileName(filename, lang) != filename
  {
    var e := ExtIndex(filename);
    if e > 0 {
      assert |filename[..e] + LangSuffix(lang) + filename[e..]| == |filename| + |LangSuffix(lang)|;
    }
  }
}
