/** The line-wrapping stage of processHtmltags: every text of 50 or more
    characters between a '>' and the next '<' is cut into pieces of at most
    49 characters, preferably at a space, joined by "<br1> ". */
module TextWrap {
  import opened Text
  import opened JavaReplacement

  const MAX_PIECE: nat := 49
  const MIN_RUN: nat := 50
  const LINE_BREAK: string := "<br1> "

  /** Where the piece starting at `idx` ends: min(idx + 49, length), moved
      back to the last space within reach when that space lies past `idx`. */
  function BreakEnd(msg: string, idx: nat): (r: nat)
    requires idx < |msg|
    ensures idx < r <= |msg| && r <= idx + MAX_PIECE
    ensures r < |msg| ==>
      (msg[r] == ' ' && forall k :: r < k <= idx + MAX_PIECE && k < |msg| ==> msg[k] != ' ')
      || (r == idx + MAX_PIECE && forall k :: idx < k <= r ==> msg[k] != ' ')
  {
    var end := if idx + MAX_PIECE < |msg| then idx + MAX_PIECE else |msg|;
    if end < |msg| then
      var ls := LastIndexOfChar(msg, ' ', end);
      if ls > idx then ls else end
    else end
  }

  /** The index past the spaces starting at `j`. */
  function SkipSpaces(msg: string, j: nat): (r: nat)
    requires j <= |msg|
    ensures j <= r <= |msg|
    ensures forall k :: j <= k < r ==> msg[k] == ' '
    ensures r < |msg| ==> msg[r] != ' '
    decreases |msg| - j
  {
    if j < |msg| && msg[j] == ' ' then SkipSpaces(msg, j + 1) else j
  }

  /** The pieces of `msg` from `idx` on, as index ranges. */
  function Pieces(msg: string, idx: nat): (ps: seq<(nat, nat)>)
    requires idx <= |msg|
    ensures forall k :: 0 <= k < |ps| ==> idx <= ps[k].0 < ps[k].1 <= |msg|
    decreases |msg| - idx
  {
    if idx == |msg| then []
    else
      var e := BreakEnd(msg, idx);
      [(idx, e)] + Pieces(msg, SkipSpaces(msg, e))
  }

  /** The pieces written out, each but the last followed by "<br1> ". */
  function Render(msg: string, ps: seq<(nat, nat)>): string
    requires forall k :: 0 <= k < |ps| ==> ps[k].0 <= ps[k].1 <= |msg|
  {
    if ps == [] then []
    else msg[ps[0].0..ps[0].1] + (if ps[0].1 < |msg| then LINE_BREAK else []) + Render(msg, ps[1..])
  }

  /** The rewritten message. */
  function WrapText(msg: string): string {
    Render(msg, Pieces(msg, 0))
  }

  /** One piece, then the pieces after the spaces that follow it. */
  lemma PiecesUnfold(msg: string, idx: nat)
    requires idx < |msg|
    ensures var e := BreakEnd(msg, idx);
      Pieces(msg, idx) == [(idx, e)] + Pieces(msg, SkipSpaces(msg, e))
      && Render(msg, Pieces(msg, idx)) ==
         msg[idx..e] + (if e < |msg| then LINE_BREAK else []) + Render(msg, Pieces(msg, SkipSpaces(msg, e)))
  {
    var e := BreakEnd(msg, idx);
    var ps := Pieces(msg, idx);
    assert ps[0] == (idx, e) && ps[1..] == Pieces(msg, SkipSpaces(msg, e));
  }

  /** There are pieces exactly when there is text, and the first starts at
      `idx`. */
  lemma PiecesStart(msg: string, idx: nat)
    requires idx <= |msg|
    ensures var ps := Pieces(msg, idx);
      (ps == [] <==> idx == |msg|) && (ps != [] ==> ps[0].0 == idx)
  {
  }

  /** Every piece has 1 to 49 characters, and one shorter than 49 that is
      not the last ends at a space. */
  lemma {:induction false} PiecesLengths(msg: string, idx: nat)
    requires idx <= |msg|
    ensures var ps := Pieces(msg, idx);
      (forall k :: 0 <= k < |ps| ==> 0 < ps[k].1 - ps[k].0 <= MAX_PIECE)
      && (forall k :: 0 <= k < |ps| && ps[k].1 < |msg| && ps[k].1 - ps[k].0 < MAX_PIECE ==> msg[ps[k].1] == ' ')
    decreases |msg| - idx
  {
    if idx < |msg| {
      var e := BreakEnd(msg, idx);
      PiecesLengths(msg, SkipSpaces(msg, e));
      PiecesUnfold(msg, idx);
    }
  }

  /** The pieces come in order, and every piece after the first starts
      with a non-space. */
  lemma {:induction false} PiecesOrdered(msg: string, idx: nat)
    requires idx <= |msg|
    ensures var ps := Pieces(msg, idx);
      forall k :: 0 < k < |ps| ==> ps[k - 1].1 <= ps[k].0 && msg[ps[k].0] != ' '
    decreases |msg| - idx
  {
    if idx < |msg| {
      var e := BreakEnd(msg, idx);
      var j := SkipSpaces(msg, e);
      PiecesOrdered(msg, j);
      PiecesStart(msg, j);
      OrderedCons(msg, (idx, e), Pieces(msg, j));
    }
  }

  /** A piece ending before the next piece's start, ahead of pieces in
      order that each start with a non-space, keeps them in order. */
  lemma OrderedCons(msg: string, p: (nat, nat), rest: seq<(nat, nat)>)
    requires forall k :: 0 <= k < |rest| ==> rest[k].0 < |msg|
    requires forall k :: 0 < k < |rest| ==> rest[k - 1].1 <= rest[k].0 && msg[rest[k].0] != ' '
    requires rest != [] ==> p.1 <= rest[0].0 && msg[rest[0].0] != ' '
    ensures var ps := [p] + rest;
      forall k :: 0 < k < |ps| ==> ps[k].0 < |msg| && ps[k - 1].1 <= ps[k].0 && msg[ps[k].0] != ' '
  {
    var ps := [p] + rest;
    forall k | 0 < k < |ps|
      ensures ps[k].0 < |msg| && ps[k - 1].1 <= ps[k].0 && msg[ps[k].0] != ' '
    {
      assert ps[k] == rest[k - 1];
      if k > 1 {
        assert ps[k - 1] == rest[k - 2];
      }
    }
  }

  /** Between two pieces there are only spaces. */
  lemma {:induction false} PiecesGaps(msg: string, idx: nat)
    requires idx <= |msg|
    ensures var ps := Pieces(msg, idx);
      forall k, m :: 0 < k < |ps| && ps[k - 1].1 <= m < ps[k].0 ==> msg[m] == ' '
    decreases |msg| - idx
  {
    if idx < |msg| {
      var e := BreakEnd(msg, idx);
      var j := SkipSpaces(msg, e);
      PiecesGaps(msg, j);
      PiecesStart(msg, j);
      PiecesUnfold(msg, idx);
      var ps := Pieces(msg, idx);
      var rest := Pieces(msg, j);
      assert |ps| > 1 ==> ps[0].1 == e && ps[1].0 == j;
      assert forall k :: 0 < k < |ps| ==> ps[k] == rest[k - 1];
    }
  }

  /** After the last piece there are only spaces. */
  lemma {:induction false} PiecesTail(msg: string, idx: nat)
    requires idx < |msg|
    ensures var ps := Pieces(msg, idx);
      ps != [] && forall m :: ps[|ps| - 1].1 <= m < |msg| ==> msg[m] == ' '
    decreases |msg| - idx
  {
    var e := BreakEnd(msg, idx);
    var j := SkipSpaces(msg, e);
    PiecesUnfold(msg, idx);
    if j < |msg| {
      PiecesTail(msg, j);
    } else {
      assert Pieces(msg, j) == [];
    }
  }

  /** A message of at most 49 characters stays as it is. */
  lemma ShortMessageKept(msg: string)
    requires 0 < |msg| <= MAX_PIECE
    ensures WrapText(msg) == msg
  {
    assert BreakEnd(msg, 0) == |msg|;
    PiecesUnfold(msg, 0);
    assert SkipSpaces(msg, |msg|) == |msg|;
    assert Pieces(msg, |msg|) == [];
    assert msg[0..|msg|] == msg;
  }

  /** The rendering brings in no character besides the message's own and
      those of "<br1> ". */
  lemma {:induction false} RenderChars(msg: string, ps: seq<(nat, nat)>, c: char)
    requires forall k :: 0 <= k < |ps| ==> ps[k].0 <= ps[k].1 <= |msg|
    requires c !in msg && c !in LINE_BREAK
    ensures c !in Render(msg, ps)
  {
    if ps != [] {
      RenderChars(msg, ps[1..], c);
      var piece := msg[ps[0].0..ps[0].1];
      assert forall k :: 0 <= k < |piece| ==> piece[k] == msg[ps[0].0 + k];
    }
  }

  /** The inner loop of the stage: the message is rebuilt piece by piece. */
  method WrapMessage(msg: string) returns (newMsg: string)
    ensures newMsg == WrapText(msg)
  {
    newMsg := "";
    var idx: nat := 0;
    while idx < |msg|
      invariant idx <= |msg|
      invariant newMsg + Render(msg, Pieces(msg, idx)) == WrapText(msg)
      decreases |msg| - idx
    {
      var piece, next := WrapPiece(msg, idx);
      PiecesUnfold(msg, idx);
      ghost var rest := Render(msg, Pieces(msg, next));
      assert Render(msg, Pieces(msg, idx)) == piece + rest;
      Associative(newMsg, piece, rest);
      newMsg := newMsg + piece;
      idx := next;
    }
  }

  /** One turn of that loop: the piece from idx, cut at the last space
      within 49 characters, with a line break when text follows, and the
      index after the spaces that follow it. */
  method WrapPiece(msg: string, idx: nat) returns (piece: string, next: nat)
    requires idx < |msg|
    ensures var e := BreakEnd(msg, idx);
      piece == msg[idx..e] + (if e < |msg| then LINE_BREAK else []) && next == SkipSpaces(msg, e)
  {
    var end := if idx + MAX_PIECE < |msg| then idx + MAX_PIECE else |msg|;
    if end < |msg| {
      var lastSpace := LastIndexOfChar(msg, ' ', end);
      if lastSpace > idx {
        end := lastSpace;
      }
    }
    assert end == BreakEnd(msg, idx);
    piece := msg[idx..end];
    if end < |msg| {
      piece := piece + LINE_BREAK;
    } else {
      assert piece + [] == piece;
    }
    next := end;
    while next < |msg| && msg[next] == ' '
      invariant end <= next <= |msg|
      invariant SkipSpaces(msg, next) == SkipSpaces(msg, end)
      decreases |msg| - next
    {
      next := next + 1;
    }
  }

  /** ">([^<]{50,})<" at index i: a '>' followed by 50 or more characters
      other than '<' and then a '<'; returns the index of that '<'. */
  function RunAt(s: string, i: nat): (r: Option<nat>)
    requires i < |s|
    ensures r.Some? ==> i + MIN_RUN < r.value < |s| && s[i] == '>' && s[r.value] == '<'
    ensures r.Some? ==> forall k :: i < k < r.value ==> s[k] != '<'
  {
    if s[i] == '>' then
      var e := IndexOfChar(s, '<', i + 1);
      if e != -1 && e - (i + 1) >= MIN_RUN then Some(e) else None
    else None
  }

  /** One step of the matcher loop: a wrapped run, or one character copied. */
  function WrapStep(s: string, i: nat): (r: (string, nat))
    requires i < |s|
    ensures i < r.1 <= |s|
  {
    var m := RunAt(s, i);
    if m.Some? then (">" + WrapText(s[i + 1..m.value]) + "<", m.value + 1)
    else ([s[i]], i + 1)
  }

  function WrapRunsFrom(s: string, i: nat): string
    requires i <= |s|
    decreases |s| - i
  {
    if i == |s| then []
    else
      var st := WrapStep(s, i);
      st.0 + WrapRunsFrom(s, st.1)
  }

  /** The stage with every run's new text inserted literally. */
  function WrapRuns(s: string): string {
    WrapRunsFrom(s, 0)
  }

  /** The stage as written: each run's new text is handed to
      appendReplacement unquoted, so `\` and `$` in it are read as escapes
      and group references; None is the exception that follows. */
  function WrapRunsAsWrittenFrom(s: string, i: nat): Option<string>
    requires i <= |s|
    decreases |s| - i
  {
    if i == |s| then Some([])
    else
      var m := RunAt(s, i);
      if m.Some? then
        var rep := ">" + WrapText(s[i + 1..m.value]) + "<";
        var e := Expand(rep, s[i..m.value + 1], s[i + 1..m.value]);
        if e.Some? then Prepend(e.value, WrapRunsAsWrittenFrom(s, m.value + 1)) else None
      else Prepend([s[i]], WrapRunsAsWrittenFrom(s, i + 1))
  }

  function WrapRunsAsWritten(s: string): Option<string> {
    WrapRunsAsWrittenFrom(s, 0)
  }

  /** The outer matcher loop, with appendReplacement and appendTail. */
  method WrapLongTexts(html: string) returns (out: string)
    ensures out == WrapRuns(html)
  {
    out := "";
    var i: nat := 0;
    while i < |html|
      invariant i <= |html|
      invariant out + WrapRunsFrom(html, i) == WrapRuns(html)
      decreases |html| - i
    {
      var piece, next := WrapAt(html, i);
      ghost var rest := WrapRunsFrom(html, next);
      assert WrapRunsFrom(html, i) == piece + rest;
      Associative(out, piece, rest);
      out := out + piece;
      i := next;
    }
  }

  /** One turn of the matcher loop: a run at i is replaced by its wrapped
      text between the '>' and the '<', any other character is copied. */
  method WrapAt(html: string, i: nat) returns (piece: string, next: nat)
    requires i < |html|
    ensures (piece, next) == WrapStep(html, i)
  {
    var m := RunAt(html, i);
    if m.Some? {
      var newMsg := WrapMessage(html[i + 1..m.value]);
      piece, next := ">" + newMsg + "<", m.value + 1;
    } else {
      piece, next := [html[i]], i + 1;
    }
  }

  /** Without a '>' nothing is wrapped. */
  lemma {:induction false} WrapNoOpen(s: string, i: nat)
    requires i <= |s|
    requires forall j :: i <= j < |s| ==> s[j] != '>'
    ensures WrapRunsFrom(s, i) == s[i..]
    decreases |s| - i
  {
    if i < |s| {
      WrapNoOpen(s, i + 1);
      assert s[i..] == [s[i]] + s[i + 1..];
    }
  }

  /** A run of 50 or more characters between '>' and '<' is replaced by its
      wrapped text. */
  lemma WrapSingleRun(msg: string)
    requires |msg| >= MIN_RUN && '<' !in msg
    ensures WrapRuns(">" + msg + "<") == ">" + WrapText(msg) + "<"
  {
    var s := ">" + msg + "<";
    var e := |msg| + 1;
    SingleRunAt(msg);
    LiteralRunUnfold(s, 0, e);
    assert WrapRunsFrom(s, e + 1) == [];
  }

  /** The one run of ">" + msg + "<" spans the whole string. */
  lemma SingleRunAt(msg: string)
    requires |msg| >= MIN_RUN && '<' !in msg
    ensures var s := ">" + msg + "<";
      RunAt(s, 0) == Some(|msg| + 1) && s[1..|msg| + 1] == msg && s[0..|msg| + 2] == s
  {
    var s := ">" + msg + "<";
    var e := |msg| + 1;
    assert s[e] == '<';
    assert forall k :: 1 <= k < e ==> s[k] == msg[k - 1];
    IndexOfCharIs(s, '<', 1, e);
    assert s[1..e] == msg;
  }

  /** A shorter run is left alone. */
  lemma ShortRunKept(msg: string)
    requires |msg| < MIN_RUN && '<' !in msg && '>' !in msg
    ensures WrapRuns(">" + msg + "<") == ">" + msg + "<"
  {
    var s := ">" + msg + "<";
    assert forall k :: 1 <= k <= |msg| ==> s[k] == msg[k - 1];
    assert forall k :: 1 <= k < |s| ==> s[k] != '>';
    WrapNoOpen(s, 1);
    assert s[|msg| + 1] == '<';
    assert s[1..] == msg + "<";
  }

  /** Without `\` and `$` in the page the stage as written gives the same
      result as the literal one. */
  lemma {:induction false} AsWrittenAgrees(s: string, i: nat)
    requires i <= |s| && '\\' !in s && '$' !in s
    ensures WrapRunsAsWrittenFrom(s, i) == Some(WrapRunsFrom(s, i))
    decreases |s| - i
  {
    if i < |s| {
      var m := RunAt(s, i);
      var next := if m.Some? then m.value + 1 else i + 1;
      AsWrittenAgrees(s, next);
      AsWrittenStep(s, i, m, next);
    }
  }

  /** One step of both loops: they agree from `i` when they agree after the
      step. */
  lemma AsWrittenStep(s: string, i: nat, m: Option<nat>, next: nat)
    requires i < |s| && '\\' !in s && '$' !in s
    requires m == RunAt(s, i) && next == (if m.Some? then m.value + 1 else i + 1)
    requires WrapRunsAsWrittenFrom(s, next) == Some(WrapRunsFrom(s, next))
    ensures WrapRunsAsWrittenFrom(s, i) == Some(WrapRunsFrom(s, i))
  {
    if m.Some? {
      AsWrittenRunStep(s, i, m.value);
    } else {
      AsWrittenCopyStep(s, i);
    }
  }

  /** The step over a character that starts no run: both loops copy it. */
  lemma AsWrittenCopyStep(s: string, i: nat)
    requires i < |s| && RunAt(s, i).None?
    requires WrapRunsAsWrittenFrom(s, i + 1) == Some(WrapRunsFrom(s, i + 1))
    ensures WrapRunsAsWrittenFrom(s, i) == Some(WrapRunsFrom(s, i))
  {
    assert WrapStep(s, i) == ([s[i]], i + 1);
  }

  /** The step over a run: its text, read as a replacement, is itself. */
  lemma AsWrittenRunStep(s: string, i: nat, e: nat)
    requires i < |s| && '\\' !in s && '$' !in s
    requires RunAt(s, i) == Some(e)
    requires WrapRunsAsWrittenFrom(s, e + 1) == Some(WrapRunsFrom(s, e + 1))
    ensures WrapRunsAsWrittenFrom(s, i) == Some(WrapRunsFrom(s, i))
  {
    RunAgrees(s, i, e);
    AsWrittenRunUnfold(s, i, e);
    var rep := ">" + WrapText(s[i + 1..e]) + "<";
    ChainStep(WrapRunsAsWrittenFrom(s, i), WrapRunsFrom(s, i), rep, WrapRunsAsWrittenFrom(s, e + 1), WrapRunsFrom(s, e + 1));
  }

  /** Prepending the same text to agreeing tails keeps them agreeing. */
  lemma ChainStep(x: Option<string>, lit: string, rep: string, nextX: Option<string>, nextLit: string)
    requires nextX == Some(nextLit) && x == Prepend(rep, nextX) && lit == rep + nextLit
    ensures x == Some(lit)
  {
  }

  /** Both loops at a run, one level down. */
  lemma AsWrittenRunUnfold(s: string, i: nat, e: nat)
    requires i < |s| && RunAt(s, i) == Some(e)
    ensures var rep := ">" + WrapText(s[i + 1..e]) + "<";
      WrapRunsFrom(s, i) == rep + WrapRunsFrom(s, e + 1)
      && (Expand(rep, s[i..e + 1], s[i + 1..e]) == Some(rep) ==>
          WrapRunsAsWrittenFrom(s, i) == Prepend(rep, WrapRunsAsWrittenFrom(s, e + 1)))
  {
    LiteralRunUnfold(s, i, e);
    var rep := ">" + WrapText(s[i + 1..e]) + "<";
    if Expand(rep, s[i..e + 1], s[i + 1..e]) == Some(rep) {
      ExpandedRunUnfold(s, i, e, rep);
    }
  }

  lemma ExpandedRunUnfold(s: string, i: nat, e: nat, rep: string)
    requires i < |s| && RunAt(s, i) == Some(e)
    requires rep == ">" + WrapText(s[i + 1..e]) + "<" && Expand(rep, s[i..e + 1], s[i + 1..e]) == Some(rep)
    ensures WrapRunsAsWrittenFrom(s, i) == Prepend(rep, WrapRunsAsWrittenFrom(s, e + 1))
  {
  }

  lemma LiteralRunUnfold(s: string, i: nat, e: nat)
    requires i < |s| && RunAt(s, i) == Some(e)
    ensures WrapRunsFrom(s, i) == ">" + WrapText(s[i + 1..e]) + "<" + WrapRunsFrom(s, e + 1)
  {
    RunsFromUnfold(s, i);
    RunStepIs(s, i, e);
  }

  lemma RunsFromUnfold(s: string, i: nat)
    requires i < |s|
    ensures WrapRunsFrom(s, i) == WrapStep(s, i).0 + WrapRunsFrom(s, WrapStep(s, i).1)
  {
  }

  lemma RunStepIs(s: string, i: nat, e: nat)
    requires i < |s| && RunAt(s, i) == Some(e)
    ensures WrapStep(s, i) == (">" + WrapText(s[i + 1..e]) + "<", e + 1)
  {
  }

  /** One run read as a replacement stands for its own text. */
  lemma RunAgrees(s: string, i: nat, e: nat)
    requires i < e < |s| && '\\' !in s && '$' !in s
    ensures var msg := s[i + 1..e];
      Expand(">" + WrapText(msg) + "<", s[i..e + 1], msg) == Some(">" + WrapText(msg) + "<")
  {
    var msg := s[i + 1..e];
    RunTextLacks(s, i, e, '\\');
    RunTextLacks(s, i, e, '$');
    var w := WrapText(msg);
    RenderChars(msg, Pieces(msg, 0), '\\');
    RenderChars(msg, Pieces(msg, 0), '$');
    BracketedLacks(w, '\\');
    BracketedLacks(w, '$');
    ExpandPlain(">" + w + "<", s[i..e + 1], msg);
  }

  lemma RunTextLacks(s: string, i: nat, e: nat, c: char)
    requires i < e <= |s| && c !in s
    ensures c !in s[i + 1..e]
  {
    var msg := s[i + 1..e];
    assert forall k :: 0 <= k < |msg| ==> msg[k] == s[i + 1 + k];
  }

  lemma BracketedLacks(w: string, c: char)
    requires c !in w && c != '>' && c != '<'
    ensures c !in ">" + w + "<"
  {
  }

  /** The wrapped text of a long message starts with the message's first
      character, and its second character is the message's second or the
      '<' of "<br1> ". */
  lemma WrapTextStart(msg: string)
    requires |msg| >= MIN_RUN
    ensures var w := WrapText(msg); |w| >= 2 && w[0] == msg[0] && (w[1] == msg[1] || w[1] == '<')
  {
    var e := BreakEnd(msg, 0);
    assert e < |msg|;
    PiecesUnfold(msg, 0);
    var rest := Render(msg, Pieces(msg, SkipSpaces(msg, e)));
    assert WrapText(msg) == msg[0..e] + LINE_BREAK + rest;
    BrokenPieceStart(msg[0..e], rest);
  }

  /** The first two characters of a piece followed by "<br1> ". */
  lemma BrokenPieceStart(p: string, rest: string)
    requires |p| >= 1
    ensures var w := p + LINE_BREAK + rest;
      |w| >= 2 && w[0] == p[0] && w[1] == (if |p| >= 2 then p[1] else '<')
  {
  }

  /** A long run starting with `$` and a non-digit makes the stage as
      written throw, where the literal stage wraps it. */
  lemma DollarRunThrows(msg: string)
    requires |msg| >= MIN_RUN && '<' !in msg && msg[0] == '$' && !IsDigit(msg[1])
    ensures WrapRunsAsWritten(">" + msg + "<").None?
    ensures WrapRuns(">" + msg + "<") == ">" + WrapText(msg) + "<"
  {
    WrapSingleRun(msg);
    var s := ">" + msg + "<";
    var e := |msg| + 1;
    SingleRunAt(msg);
    DollarTextThrows(msg, s[0..e + 1]);
    AsWrittenRunFails(s, 0, e);
  }

  /** The wrapped text of such a message, as a replacement, throws. */
  lemma DollarTextThrows(msg: string, g0: string)
    requires |msg| >= MIN_RUN && msg[0] == '$' && !IsDigit(msg[1])
    ensures Expand(">" + WrapText(msg) + "<", g0, msg).None?
  {
    var w := WrapText(msg);
    WrapTextStart(msg);
    DollarSplit(w);
    ExpandDollarThrows(">", w[1], w[2..] + "<", g0, msg);
  }

  lemma DollarSplit(w: string)
    requires |w| >= 2 && w[0] == '$'
    ensures ">" + w + "<" == ">" + ['$', w[1]] + (w[2..] + "<")
  {
    assert w == ['$', w[1]] + w[2..];
  }

  /** A run whose text fails as a replacement makes the stage as written
      throw. */
  lemma AsWrittenRunFails(s: string, i: nat, e: nat)
    requires i < |s| && RunAt(s, i) == Some(e)
    requires Expand(">" + WrapText(s[i + 1..e]) + "<", s[i..e + 1], s[i + 1..e]).None?
    ensures WrapRunsAsWrittenFrom(s, i).None?
  {
  }
}
