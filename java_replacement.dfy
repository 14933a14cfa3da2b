/** How java.util.regex.Matcher reads a replacement string in
    appendReplacement and replaceAll, for a pattern with one capturing group,
    and Matcher.quoteReplacement, which makes a string read literally. */
module JavaReplacement {
  import opened Text

  function Prepend(p: string, o: Option<string>): (r: Option<string>)
    ensures r.Some? <==> o.Some?
    ensures r.Some? ==> r.value == p + o.value
  {
    if o.Some? then Some(p + o.value) else None
  }

  /** The digits after "$d" that still name an existing group (the pattern
      has groups 0 and 1): returns the group and how many digits were used. */
  function GroupRef(rest: string, d: nat): (r: (nat, nat))
    requires d <= 1
    ensures r.0 <= 1 && r.1 <= |rest|
    decreases |rest|
  {
    if rest != [] && IsDigit(rest[0]) && d * 10 + DigitValue(rest[0]) <= 1 then
      var g := GroupRef(rest[1..], d * 10 + DigitValue(rest[0]));
      (g.0, g.1 + 1)
    else (d, 0)
  }

  /** The text a replacement string stands for, given the whole match `g0`
      and group 1 `g1`; None where Java throws: a trailing backslash, a `$`
      at the end or before a non-digit (named groups included, as the
      pattern has none), or a reference to a group above 1. */
  function Expand(rep: string, g0: string, g1: string): (r: Option<string>)
    decreases |rep|
  {
    if rep == [] then Some([])
    else if rep[0] == '\\' then
      if |rep| == 1 then None else Prepend([rep[1]], Expand(rep[2..], g0, g1))
    else if rep[0] == '$' then
      if |rep| == 1 || !IsDigit(rep[1]) || DigitValue(rep[1]) > 1 then None
      else
        var gr := GroupRef(rep[2..], DigitValue(rep[1]));
        Prepend(if gr.0 == 0 then g0 else g1, Expand(rep[2 + gr.1..], g0, g1))
    else Prepend([rep[0]], Expand(rep[1..], g0, g1))
  }

  /** Matcher.quoteReplacement: a backslash before every `\` and `$`. */
  function QuoteReplacement(s: string): (r: string)
    ensures |r| >= |s|
    ensures ('\\' in s || '$' in s) ==> |r| > |s|
    ensures '\\' !in s && '$' !in s ==> r == s
    decreases |s|
  {
    if s == [] then []
    else if s[0] == '\\' || s[0] == '$' then ['\\', s[0]] + QuoteReplacement(s[1..])
    else [s[0]] + QuoteReplacement(s[1..])
  }

  /** A replacement with neither `\` nor `$` stands for itself. */
  lemma {:induction false} ExpandPlain(rep: string, g0: string, g1: string)
    requires '\\' !in rep && '$' !in rep
    ensures Expand(rep, g0, g1) == Some(rep)
    decreases |rep|
  {
    if rep != [] {
      ExpandPlain(rep[1..], g0, g1);
      assert [rep[0]] + rep[1..] == rep;
    }
  }

  /** quoteReplacement is undone by the reading of the replacement: the
      quoted string always stands for the original text. */
  lemma {:induction false} ExpandQuoted(s: string, g0: string, g1: string)
    ensures Expand(QuoteReplacement(s), g0, g1) == Some(s)
    decreases |s|
  {
    if s != [] {
      var q := QuoteReplacement(s);
      ExpandQuoted(s[1..], g0, g1);
      if s[0] == '\\' || s[0] == '$' {
        assert q[0] == '\\' && q[1] == s[0] && q[2..] == QuoteReplacement(s[1..]);
      } else {
        assert q[0] == s[0] && q[1..] == QuoteReplacement(s[1..]);
      }
      assert [s[0]] + s[1..] == s;
    }
  }

  /** A `$` that is not followed by a digit makes the whole replacement
      throw, whatever comes before it. */
  lemma {:induction false} ExpandDollarThrows(pre: string, c: char, post: string, g0: string, g1: string)
    requires '\\' !in pre && '$' !in pre && !IsDigit(c)
    ensures Expand(pre + ['$', c] + post, g0, g1).None?
    decreases |pre|
  {
    var rep := pre + ['$', c] + post;
    if pre == [] {
      assert rep[0] == '$' && rep[1] == c;
    } else {
      assert rep[0] == pre[0] && rep[1..] == pre[1..] + ['$', c] + post;
      ExpandDollarThrows(pre[1..], c, post, g0, g1);
    }
  }

  /** "$1" stands for group 1 and "$0" for the whole match. */
  lemma GroupReferences(g0: string, g1: string)
    ensures Expand(['$', '1'], g0, g1) == Some(g1)
    ensures Expand(['$', '0'], g0, g1) == Some(g0)
  {
    assert ['$', '1'][2..] == [] && ['$', '0'][2..] == [];
    assert GroupRef([], 1) == (1, 0) && GroupRef([], 0) == (0, 0);
    assert g1 + [] == g1 && g0 + [] == g0;
  }
}
