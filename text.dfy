/** Shared value types and the small part of the Java string library the
    game-server code relies on: indexOf, replace, trim, split, StringTokenizer,
    equalsIgnoreCase and Integer.parseInt / Integer.toString.  Characters are
    compared as Unicode scalar values; case mapping is ASCII only. */
module Text {

  datatype Option<T> = None | Some(value: T)

  /** The 32-bit range of a Java int. */
  const INT_MIN: int := -0x8000_0000
  const INT_MAX: int := 0x7fff_ffff

  predicate IsInt32(n: int) { INT_MIN <= n <= INT_MAX }

  predicate IsDigit(c: char) { '0' <= c <= '9' }

  predicate IsAsciiUpper(c: char) { 'A' <= c <= 'Z' }

  predicate IsAsciiLower(c: char) { 'a' <= c <= 'z' }

  /** Character.toLowerCase restricted to ASCII letters. */
  function Lower(c: char): (r: char)
    ensures !IsAsciiUpper(r)
    ensures IsAsciiUpper(c) ==> IsAsciiLower(r)
    ensures !IsAsciiUpper(c) ==> r == c
  {
    if IsAsciiUpper(c) then (c as int + 32) as char else c
  }

  /** String.toLowerCase, ASCII only. */
  function LowerStr(s: string): (r: string)
    ensures |r| == |s|
    ensures forall i :: 0 <= i < |s| ==> r[i] == Lower(s[i])
  {
    if s == [] then [] else [Lower(s[0])] + LowerStr(s[1..])
  }

  /** Character.toUpperCase restricted to ASCII letters. */
  function Upper(c: char): (r: char)
    ensures !IsAsciiLower(r)
    ensures !IsAsciiLower(c) ==> r == c
  {
    if IsAsciiLower(c) then (c as int - 32) as char else c
  }

  /** String.toUpperCase, ASCII only. */
  function UpperStr(s: string): (r: string)
    ensures |r| == |s|
    ensures forall i :: 0 <= i < |s| ==> r[i] == Upper(s[i])
  {
    if s == [] then [] else [Upper(s[0])] + UpperStr(s[1..])
  }

  /** t is s in lower case when it agrees with it character by character. */
  lemma LowerStrIs(s: string, t: string)
    requires |s| == |t| && forall i :: 0 <= i < |s| ==> Lower(s[i]) == t[i]
    ensures LowerStr(s) == t
  {
    var r := LowerStr(s);
    assert forall i :: 0 <= i < |s| ==> r[i] == t[i];
  }

  /** String.equalsIgnoreCase, ASCII only: same length, and the characters
      agree pairwise once lower-cased. */
  predicate EqualsIgnoreCase(a: string, b: string) {
    |a| == |b| && forall i :: 0 <= i < |a| ==> Lower(a[i]) == Lower(b[i])
  }

  /** Equal ignoring case is equal once both are lower-cased. */
  lemma EqualsIgnoreCaseLower(a: string, b: string)
    ensures EqualsIgnoreCase(a, b) <==> LowerStr(a) == LowerStr(b)
  {
    if LowerStr(a) == LowerStr(b) {
      assert forall i :: 0 <= i < |a| ==> LowerStr(a)[i] == LowerStr(b)[i];
    }
  }

  /** `pat` occurs in `s` at index `i`. */
  predicate StartsAt(s: string, pat: string, i: int) {
    0 <= i && i + |pat| <= |s| && s[i..i + |pat|] == pat
  }

  predicate StartsWith(s: string, pat: string) { StartsAt(s, pat, 0) }

  predicate EndsWith(s: string, pat: string) { StartsAt(s, pat, |s| - |pat|) }

  predicate Contains(s: string, pat: string) {
    exists i :: 0 <= i <= |s| && StartsAt(s, pat, i)
  }

  /** String.indexOf(pat, from): the first index >= from (negative from counts
      as 0) where `pat` starts, or -1. */
  function IndexOf(s: string, pat: string, from: int): (r: int)
    decreases |s| - from
    ensures r == -1 || (from <= r && 0 <= r <= |s| && StartsAt(s, pat, r))
    ensures r == -1 ==> forall j :: from <= j <= |s| ==> !StartsAt(s, pat, j)
    ensures r != -1 ==> forall j :: from <= j < r ==> !StartsAt(s, pat, j)
  {
    if from < 0 then IndexOf(s, pat, 0)
    else if from + |pat| > |s| then -1
    else if s[from..from + |pat|] == pat then from
    else IndexOf(s, pat, from + 1)
  }

  /** String.indexOf(char, from). */
  function IndexOfChar(s: string, c: char, from: int): (r: int)
    decreases |s| - from
    ensures r == -1 || (from <= r < |s| && 0 <= r && s[r] == c)
    ensures r == -1 ==> forall j :: from <= j < |s| && 0 <= j ==> s[j] != c
    ensures r != -1 ==> forall j :: from <= j < r && 0 <= j ==> s[j] != c
  {
    if from < 0 then IndexOfChar(s, c, 0)
    else if from >= |s| then -1
    else if s[from] == c then from
    else IndexOfChar(s, c, from + 1)
  }

  /** String.lastIndexOf(char, from): the last index <= from where `c` occurs,
      or -1; a `from` past the end counts as the last index. */
  function LastIndexOfChar(s: string, c: char, from: int): (r: int)
    decreases if from < 0 then 0 else from + 1
    ensures r == -1 || (0 <= r <= from && r < |s| && s[r] == c)
    ensures r == -1 ==> forall j :: 0 <= j <= from && j < |s| ==> s[j] != c
    ensures r != -1 ==> forall j :: r < j <= from && j < |s| ==> s[j] != c
  {
    if from < 0 then -1
    else if from >= |s| then LastIndexOfChar(s, c, |s| - 1)
    else if s[from] == c then from
    else LastIndexOfChar(s, c, from - 1)
  }

  /** String.replace(target, replacement) for a non-empty literal target:
      every occurrence, left to right, without overlap. */
  function Replace(s: string, target: string, repl: string): (r: string)
    requires target != []
    decreases |s|
  {
    if |s| < |target| then s
    else if s[..|target|] == target then repl + Replace(s[|target|..], target, repl)
    else [s[0]] + Replace(s[1..], target, repl)
  }

  /** The test String.trim uses: a code point <= ' '. */
  predicate IsTrimmable(c: char) { c <= ' ' }

  function TrimLeft(s: string): (r: string)
    ensures |r| <= |s| && r == s[|s| - |r|..]
    ensures r == [] || !IsTrimmable(r[0])
    ensures forall i :: 0 <= i < |s| - |r| ==> IsTrimmable(s[i])
  {
    if s == [] || !IsTrimmable(s[0]) then s else TrimLeft(s[1..])
  }

  function TrimRight(s: string): (r: string)
    ensures |r| <= |s| && r == s[..|r|]
    ensures r == [] || !IsTrimmable(r[|r| - 1])
    ensures forall i :: |r| <= i < |s| ==> IsTrimmable(s[i])
  {
    if s == [] || !IsTrimmable(s[|s| - 1]) then s else TrimRight(s[..|s| - 1])
  }

  /** String.trim: drops leading and trailing characters <= ' '. */
  function Trim(s: string): (r: string)
    ensures |r| <= |s|
    ensures r == [] || (!IsTrimmable(r[0]) && !IsTrimmable(r[|r| - 1]))
  {
    TrimRight(TrimLeft(s))
  }

  /** A string with no trimmable character at either end is its own trim. */
  lemma TrimNoop(s: string)
    requires s == [] || (!IsTrimmable(s[0]) && !IsTrimmable(s[|s| - 1]))
    ensures Trim(s) == s
  {
  }

  /** The pieces of `s` between occurrences of `sep`, before Java drops the
      trailing empty ones. */
  function SplitAll(s: string, sep: char): (r: seq<string>)
    ensures |r| >= 1
    ensures forall k :: 0 <= k < |r| ==> sep !in r[k]
    decreases |s|
  {
    var i := IndexOfChar(s, sep, 0);
    if i == -1 then [s] else [s[..i]] + SplitAll(s[i + 1..], sep)
  }

  function DropTrailingEmpty(xs: seq<string>): (r: seq<string>)
    ensures |r| <= |xs| && r == xs[..|r|]
    ensures r == [] || r[|r| - 1] != []
    ensures forall k :: |r| <= k < |xs| ==> xs[k] == []
  {
    if xs == [] || xs[|xs| - 1] != [] then xs else DropTrailingEmpty(xs[..|xs| - 1])
  }

  /** String.split(regex) for a regex that is one ordinary character: the
      input itself when the separator does not occur, otherwise the pieces with
      trailing empty strings removed. */
  function JavaSplit(s: string, sep: char): (r: seq<string>)
    ensures forall k :: 0 <= k < |r| ==> sep !in r[k]
  {
    if sep !in s then [s] else DropTrailingEmpty(SplitAll(s, sep))
  }

  /** Joining pieces with a separator. */
  function Join(xs: seq<string>, sep: string): (r: string)
    ensures xs == [] ==> r == []
    ensures |xs| == 1 ==> r == xs[0]
  {
    if xs == [] then [] else if |xs| == 1 then xs[0] else xs[0] + sep + Join(xs[1..], sep)
  }

  /** Joining one more piece puts one separator before it. */
  lemma {:induction false} JoinSnoc(xs: seq<string>, x: string, sep: string)
    requires xs != []
    ensures Join(xs + [x], sep) == Join(xs, sep) + sep + x
    decreases |xs|
  {
    if |xs| > 1 {
      assert (xs + [x])[1..] == xs[1..] + [x];
      JoinSnoc(xs[1..], x, sep);
    }
  }

  /** Splitting a join whose pieces do not contain the separator gives back the pieces. */
  lemma {:induction false} SplitAllJoin(xs: seq<string>, sep: char)
    requires |xs| >= 1
    requires forall k :: 0 <= k < |xs| ==> sep !in xs[k]
    ensures SplitAll(Join(xs, [sep]), sep) == xs
    decreases |xs|
  {
    if |xs| == 1 {
      NoCharIndex(xs[0], sep);
    } else {
      var j := Join(xs, [sep]);
      var rest := Join(xs[1..], [sep]);
      assert j == xs[0] + [sep] + rest;
      SplitAllAt(j, sep, xs[0], rest);
      SplitAllJoin(xs[1..], sep);
      assert [xs[0]] + xs[1..] == xs;
    }
  }

  /** A separator-free prefix and the separator split off as the first piece. */
  lemma SplitAllAt(s: string, sep: char, a: string, b: string)
    requires s == a + [sep] + b && sep !in a
    ensures SplitAll(s, sep) == [a] + SplitAll(b, sep)
  {
    NoCharIndex(a, sep);
    IndexOfCharAfterPrefix(a, sep, b);
    assert s[..|a|] == a;
    assert s[|a| + 1..] == b;
  }

  /** String.split on a join of non-empty, separator-free pieces gives the
      pieces back. */
  lemma JavaSplitJoin(xs: seq<string>, sep: char)
    requires |xs| >= 1
    requires forall k :: 0 <= k < |xs| ==> xs[k] != [] && sep !in xs[k]
    ensures JavaSplit(Join(xs, [sep]), sep) == xs
  {
    SplitAllJoin(xs, sep);
    if |xs| > 1 {
      var j := Join(xs, [sep]);
      assert j == xs[0] + [sep] + Join(xs[1..], [sep]);
      assert j[|xs[0]|] == sep;
    }
  }

  lemma NoCharIndex(s: string, c: char)
    requires c !in s
    ensures IndexOfChar(s, c, 0) == -1
  {
  }

  lemma IndexOfCharAfterPrefix(a: string, c: char, b: string)
    requires c !in a
    ensures IndexOfChar(a + [c] + b, c, 0) == |a|
  {
    var s := a + [c] + b;
    assert s[|a|] == c;
    assert forall j :: 0 <= j < |a| ==> s[j] == a[j];
  }

  /** The first occurrence of `c` from `from` is at `i` when `c` is at `i`
      and nowhere between. */
  lemma IndexOfCharIs(s: string, c: char, from: nat, i: nat)
    requires from <= i < |s| && s[i] == c
    requires forall j :: from <= j < i ==> s[j] != c
    ensures IndexOfChar(s, c, from) == i
  {
  }

  /** Searching a prefix finds what the whole string has before the cut. */
  lemma IndexOfCharPrefix(s: string, n: nat, c: char, from: nat)
    requires n <= |s|
    ensures IndexOfChar(s[..n], c, from) != -1 ==> IndexOfChar(s, c, from) == IndexOfChar(s[..n], c, from)
    ensures 0 <= IndexOfChar(s, c, from) < n ==> IndexOfChar(s[..n], c, from) == IndexOfChar(s, c, from)
  {
    var g := s[..n];
    var qg := IndexOfChar(g, c, from);
    var qs := IndexOfChar(s, c, from);
    if qg != -1 {
      assert s[qg] == g[qg];
      assert forall j :: from <= j < qg ==> s[j] == g[j];
      IndexOfCharIs(s, c, from, qg);
    }
    if 0 <= qs < n {
      assert g[qs] == s[qs];
      assert forall j :: from <= j < qs ==> s[j] == g[j];
      IndexOfCharIs(g, c, from, qs);
    }
  }

  /** The first occurrence of `pat` from `from` is at `i` when it starts at
      `i` and nowhere between. */
  lemma IndexOfIs(s: string, pat: string, from: nat, i: nat)
    requires from <= i && StartsAt(s, pat, i)
    requires forall j :: from <= j < i ==> !StartsAt(s, pat, j)
    ensures IndexOf(s, pat, from) == i
  {
  }

  /** Appending a separator and a separator-free piece adds exactly that piece. */
  lemma {:induction false} SplitAllAppend(s: string, sep: char, t: string)
    requires sep !in t
    ensures SplitAll(s + [sep] + t, sep) == SplitAll(s, sep) + [t]
    decreases |s|
  {
    var i := IndexOfChar(s, sep, 0);
    if i == -1 {
      SplitAllAppendLast(s, sep, t);
    } else {
      var u := s + [sep] + t;
      var w := s[i + 1..];
      Associative(s, [sep], t);
      AppendSlices(s, [sep] + t, i);
      Associative(w, [sep], t);
      assert forall j :: 0 <= j < i ==> u[j] == s[j];
      assert u[i] == sep;
      IndexOfCharIs(u, sep, 0, i);
      SplitAllStep(u, sep, i);
      SplitAllStep(s, sep, i);
      SplitAllAppend(w, sep, t);
      Associative([s[..i]], SplitAll(w, sep), [t]);
    }
  }

  /** SplitAll cuts at the first separator. */
  lemma SplitAllStep(u: string, sep: char, i: nat)
    requires IndexOfChar(u, sep, 0) == i
    ensures SplitAll(u, sep) == [u[..i]] + SplitAll(u[i + 1..], sep)
  {
  }

  /** Cutting a + b before or after an index inside a. */
  lemma AppendSlices<T>(a: seq<T>, b: seq<T>, i: nat)
    requires i < |a|
    ensures (a + b)[..i] == a[..i] && (a + b)[i + 1..] == a[i + 1..] + b
  {
  }

  /** The base case of SplitAllAppend: `s` has no separator. */
  lemma SplitAllAppendLast(s: string, sep: char, t: string)
    requires sep !in t && IndexOfChar(s, sep, 0) == -1
    ensures SplitAll(s + [sep] + t, sep) == [s, t]
  {
    var u := s + [sep] + t;
    assert sep !in s by {
      assert forall j :: 0 <= j < |s| ==> s[j] != sep;
    }
    IndexOfCharAfterPrefix(s, sep, t);
    assert u[..|s|] == s;
    assert u[|s| + 1..] == t;
    NoCharIndex(t, sep);
    assert SplitAll(t, sep) == [t];
  }

  /** StringTokenizer(s, " "): the maximal runs of characters other than ' '. */
  function Tokens(s: string): (r: seq<string>)
    ensures forall k :: 0 <= k < |r| ==> r[k] != [] && ' ' !in r[k]
    decreases |s|
  {
    if s == [] then []
    else if s[0] == ' ' then Tokens(s[1..])
    else
      var i := IndexOfChar(s, ' ', 0);
      if i == -1 then [s] else [s[..i]] + Tokens(s[i + 1..])
  }

  /** A StringTokenizer over " " has a token exactly when some character is not a space. */
  lemma {:induction false} TokensEmptyIff(s: string)
    ensures Tokens(s) == [] <==> forall i :: 0 <= i < |s| ==> s[i] == ' '
    decreases |s|
  {
    if s != [] {
      if s[0] == ' ' {
        TokensEmptyIff(s[1..]);
        assert forall i :: 1 <= i < |s| ==> s[i] == s[1..][i - 1];
      }
    }
  }

  // ----- decimal numbers -----

  function DigitChar(d: int): (c: char)
    requires 0 <= d <= 9
    ensures IsDigit(c)
  {
    ('0' as int + d) as char
  }

  function DigitValue(c: char): (d: int)
    requires IsDigit(c)
    ensures 0 <= d <= 9
  {
    c as int - '0' as int
  }

  /** The decimal digits of a natural number, most significant first, no leading zeros. */
  function NatToString(n: nat): (r: string)
    ensures r != []
    ensures forall i :: 0 <= i < |r| ==> IsDigit(r[i])
    ensures n > 0 ==> r[0] != '0'
    ensures n == 0 ==> r == "0"
    decreases n
  {
    if n < 10 then [DigitChar(n)] else NatToString(n / 10) + [DigitChar(n % 10)]
  }

  /** Integer.toString / String.valueOf(int). */
  function IntToString(n: int): (r: string)
    ensures r != []
    ensures n >= 0 ==> forall i :: 0 <= i < |r| ==> IsDigit(r[i])
    ensures n < 0 ==> r[0] == '-' && forall i :: 1 <= i < |r| ==> IsDigit(r[i])
  {
    if n < 0 then "-" + NatToString(-n) else NatToString(n)
  }

  /** The value of a non-empty run of decimal digits. */
  function DigitsValue(s: string): (n: nat)
    requires forall i :: 0 <= i < |s| ==> IsDigit(s[i])
    decreases |s|
  {
    if s == [] then 0 else DigitsValue(s[..|s| - 1]) * 10 + DigitValue(s[|s| - 1])
  }

  predicate AllDigits(s: string) { s != [] && forall i :: 0 <= i < |s| ==> IsDigit(s[i]) }

  /** Integer.parseInt(s): an optional sign and one or more digits, within the
      32-bit range; None where Java throws NumberFormatException. */
  function ParseJavaInt(s: string): (r: Option<int>)
    ensures r.Some? ==> IsInt32(r.value)
    ensures r.Some? ==> |s| >= 1
  {
    if s == [] then None
    else
      var neg := s[0] == '-';
      var body := if s[0] == '-' || s[0] == '+' then s[1..] else s;
      if !AllDigits(body) then None
      else
        var mag: int := DigitsValue(body);
        var v: int := if neg then 0 - mag else mag;
        if IsInt32(v) then Some(v) else None
  }

  lemma {:induction false} DigitsValueOfNat(n: nat)
    ensures DigitsValue(NatToString(n)) == n
    decreases n
  {
    var s := NatToString(n);
    if n >= 10 {
      DigitsValueOfNat(n / 10);
      assert s[..|s| - 1] == NatToString(n / 10);
    }
  }

  /** Integer.parseInt(Integer.toString(n)) == n for every Java int. */
  lemma ParseIntToString(n: int)
    requires IsInt32(n)
    ensures ParseJavaInt(IntToString(n)) == Some(n)
  {
    if n < 0 {
      DigitsValueOfNat(-n);
      ParseNegative(NatToString(-n), -n);
    } else {
      DigitsValueOfNat(n);
      ParseNonNegative(NatToString(n), n);
    }
  }

  lemma ParseNonNegative(d: string, m: nat)
    requires AllDigits(d) && DigitsValue(d) == m && IsInt32(m)
    ensures ParseJavaInt(d) == Some(m)
  {
    assert IsDigit(d[0]);
  }

  lemma ParseNegative(d: string, m: nat)
    requires AllDigits(d) && DigitsValue(d) == m && IsInt32(0 - m)
    ensures ParseJavaInt("-" + d) == Some(0 - m)
  {
    var s := "-" + d;
    assert s[0] == '-' && s[1..] == d;
  }

  /** A rendered number never contains a separator such as ',' or ' '. */
  lemma IntToStringHasNo(n: int, c: char)
    requires !IsDigit(c) && c != '-'
    ensures c !in IntToString(n)
  {
    var s := IntToString(n);
    if c in s {
      var i :| 0 <= i < |s| && s[i] == c;
      if n < 0 && i == 0 { } else { }
    }
  }

  /** Each number rendered with Integer.toString. */
  function Decimals(xs: seq<int>): (r: seq<string>)
    ensures |r| == |xs| && forall k :: 0 <= k < |xs| ==> r[k] == IntToString(xs[k])
  {
    seq(|xs|, k requires 0 <= k < |xs| => IntToString(xs[k]))
  }

  /** Numbers joined by a separator that is neither a digit nor '-' split
      back into their renderings. */
  lemma SplitDecimals(xs: seq<int>, sep: char)
    requires |xs| >= 1 && !IsDigit(sep) && sep != '-'
    ensures JavaSplit(Join(Decimals(xs), [sep]), sep) == Decimals(xs)
  {
    var ds := Decimals(xs);
    forall k | 0 <= k < |ds| ensures ds[k] != [] && sep !in ds[k] {
      IntToStringHasNo(xs[k], sep);
    }
    JavaSplitJoin(ds, sep);
  }

  /** The set of the images of the elements of a sequence. */
  function ImageSet(xs: seq<string>, f: string -> string): set<string>
  {
    if xs == [] then {}
    else ImageSet(xs[..|xs| - 1], f) + {f(xs[|xs| - 1])}
  }

  lemma ImageSetNext(xs: seq<string>, f: string -> string, k: nat)
    requires k < |xs|
    ensures ImageSet(xs[..k + 1], f) == ImageSet(xs[..k], f) + {f(xs[k])}
  {
    assert xs[..k + 1][..k] == xs[..k];
  }

  lemma {:induction false} ImageSetMembers(xs: seq<string>, f: string -> string, p: string)
    ensures p in ImageSet(xs, f) <==> exists k :: 0 <= k < |xs| && p == f(xs[k])
  {
    if xs != [] {
      var init := xs[..|xs| - 1];
      ImageSetMembers(init, f, p);
      if p in ImageSet(init, f) {
        var k :| 0 <= k < |init| && p == f(init[k]);
        assert init[k] == xs[k];
      }
      if exists k :: 0 <= k < |xs| && p == f(xs[k]) {
        var k :| 0 <= k < |xs| && p == f(xs[k]);
        if k < |init| {
          assert init[k] == xs[k];
        }
      }
    }
  }

  lemma Associative<T>(a: seq<T>, b: seq<T>, c: seq<T>)
    ensures a + (b + c) == (a + b) + c
  {
  }

  /** A string built as p + y + q starts with p, ends with q and has y in
      between. */
  lemma Wrapped(p: string, y: string, q: string)
    ensures StartsWith(p + y + q, p) && EndsWith(p + y + q, q)
    ensures (p + y + q)[|p|..|p| + |y|] == y
  {
    var s := p + y + q;
    assert s[..|p|] == p;
    assert s[|s| - |q|..] == q;
  }
}
