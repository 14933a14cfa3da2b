/** LogViewerWindow: a console window that follows one server log file.  The
    window keeps a cursor (last_known_position) into the file; the subscribe
    step shows the file so far, and each poll of the monitor loop shows what
    was added since, or reloads the whole file when it shrank.  Text reaches
    the window through callbacks queued with after(0), modelled as a sequence
    of console operations that the GUI applies in order. */
module LogTailer {
  import opened Text
  import opened PyText

  /** What the operating system reports for the log path at one instant.
      Unreadable: the size can be read but opening the file raises. */
  datatype FileState = Absent | Readable(content: string) | Unreadable(size: nat, reason: string)

  /** The two console callbacks: _do_append and _do_clear_and_append. */
  datatype UiOp = Append(text: string) | ClearAndAppend(text: string)

  /** The tailer's cursor together with every console callback queued so far. */
  datatype Tail = Tail(pos: nat, ops: seq<UiOp>)

  /** The console text once the GUI has run the queued callbacks in order. */
  function View(ops: seq<UiOp>): string
    decreases |ops|
  {
    if ops == [] then []
    else
      var op := ops[|ops| - 1];
      if op.Append? then View(ops[..|ops| - 1]) + op.text else op.text
  }

  lemma ViewSnoc(ops: seq<UiOp>, op: UiOp)
    ensures View(ops + [op]) == if op.Append? then View(ops) + op.text else op.text
  {
    assert (ops + [op])[..|ops|] == ops;
  }

  function ResetNotice(name: string): string
  {
    "\n--- [" + name + "] Arquivo de log resetado ou reiniciado. Recarregando... ---\n"
  }

  function MissingNotice(name: string): string
  {
    "[" + name + "] Arquivo de log não encontrado. Aguardando a criação...\n"
  }

  function LoadError(name: string, reason: string): string
  {
    "Erro ao carregar log antigo de " + name + ": " + reason + "\n"
  }

  function MonitorError(name: string, reason: string): string
  {
    "Erro ao monitorar arquivo de log de " + name + ": " + reason + "\n"
  }

  /** The text between the Tk indices "end-2l linestart" and "end-1c": the
      last two lines of the console, or all of it when it has one line. */
  function LastTwoLines(view: string): string
  {
    var ls := SplitAll(view, '\n');
    if |ls| == 1 then view else Join(ls[|ls| - 2..], "\n")
  }

  /** The exception handler of the monitor loop: the message is shown unless
      its stripped text already appears in the last lines of the console. */
  function ReportError(ops: seq<UiOp>, name: string, reason: string): (r: seq<UiOp>)
    ensures r == ops || r == ops + [Append(MonitorError(name, reason))]
    ensures |ops| <= |r| && r[..|ops|] == ops
    ensures r == ops <==> Contains(LastTwoLines(View(ops)), Strip(MonitorError(name, reason)))
  {
    var msg := MonitorError(name, reason);
    if Contains(LastTwoLines(View(ops)), Strip(msg)) then ops else ops + [Append(msg)]
  }

  /** The bytes of one character in UTF-8, the encoding the log is read with. */
  function Utf8Width(ch: char): nat
  {
    if ch as int < 0x80 then 1
    else if ch as int < 0x800 then 2
    else if ch as int < 0x1_0000 then 3
    else 4
  }

  /** The size in bytes of a UTF-8 file holding s: what os.path.getsize reports
      and what f.tell() gives once the whole file has been read. */
  function Utf8Len(s: string): (r: nat)
    ensures |s| <= r
    decreases |s|
  {
    if s == [] then 0 else Utf8Width(s[0]) + Utf8Len(s[1..])
  }

  lemma {:induction false} Utf8LenAppend(a: string, b: string)
    ensures Utf8Len(a + b) == Utf8Len(a) + Utf8Len(b)
    decreases |a|
  {
    if a == [] {
      assert a + b == b;
    } else {
      assert (a + b)[0] == a[0] && (a + b)[1..] == a[1..] + b;
      Utf8LenAppend(a[1..], b);
    }
  }

  /** What f.read() returns after f.seek(pos) on a file holding s: the text
      from the first character boundary at or after byte pos, because the
      continuation bytes of a character the seek cuts are dropped by
      errors='ignore'. */
  function ReadFrom(s: string, pos: nat): string
    decreases |s|
  {
    if pos == 0 || s == [] then s
    else ReadFrom(s[1..], if pos <= Utf8Width(s[0]) then 0 else pos - Utf8Width(s[0]))
  }

  /** Seeking to the byte size of a prefix and reading gives what follows it. */
  lemma {:induction false} ReadAfterPrefix(a: string, b: string)
    ensures ReadFrom(a + b, Utf8Len(a)) == b
    decreases |a|
  {
    if a == [] {
      assert a + b == b;
    } else {
      assert (a + b)[0] == a[0] && (a + b)[1..] == a[1..] + b;
      if a[1..] == [] {
        assert a[1..] + b == b;
      } else {
        ReadAfterPrefix(a[1..], b);
      }
    }
  }

  /** The universal-newline translation of text mode: "\r\n" and a lone "\r"
      are both read as "\n". */
  function Newlines(s: string): string
    decreases |s|
  {
    if s == [] then [] else LineHead(s) + Newlines(LineTail(s))
  }

  /** What the first character (or "\r\n" pair) of s reads as. */
  function LineHead(s: string): (r: string)
    requires s != []
    ensures |r| == 1 && r[0] != '\r'
  {
    if s[0] == '\r' then "\n" else [s[0]]
  }

  /** What is left of s once its first character (or "\r\n" pair) is read. */
  function LineTail(s: string): (r: string)
    requires s != []
    ensures |r| < |s|
  {
    if s[0] == '\r' && |s| > 1 && s[1] == '\n' then s[2..] else s[1..]
  }

  lemma LineStepAppend(a: string, b: string)
    requires a != [] && a[|a| - 1] != '\r'
    ensures LineHead(a + b) == LineHead(a) && LineTail(a + b) == LineTail(a) + b
  {
    assert (a + b)[0] == a[0];
    if |a| > 1 {
      assert (a + b)[1] == a[1];
      assert (a + b)[1..] == a[1..] + b;
      assert (a + b)[2..] == a[2..] + b;
    } else {
      assert (a + b)[1..] == a[1..] + b;
    }
  }

  /** Text that does not end in the middle of a "\r\n" translates piece by piece. */
  lemma {:induction false} NewlinesAppend(a: string, b: string)
    requires a == [] || a[|a| - 1] != '\r'
    ensures Newlines(a + b) == Newlines(a) + Newlines(b)
    decreases |a|
  {
    if a == [] {
      assert a + b == b;
    } else {
      LineStepAppend(a, b);
      var t := LineTail(a);
      assert t == [] || t[|t| - 1] == a[|a| - 1];
      NewlinesAppend(t, b);
      assert Newlines(a + b) == LineHead(a) + (Newlines(t) + Newlines(b));
      assert Newlines(a) == LineHead(a) + Newlines(t);
      Associative(LineHead(a), Newlines(t), Newlines(b));
    }
  }

  /** start_log_monitoring from a fresh window: an existing file is shown in
      full, as text mode reads it, with the cursor at its byte size; a missing
      file leaves one waiting notice and the cursor at 0. */
  function Subscribe(name: string, f: FileState): (r: Tail)
    ensures f.Readable? ==> r.pos == Utf8Len(f.content) && View(r.ops) == Newlines(f.content)
    ensures f.Absent? ==> r.pos == 0 && r.ops == [Append(MissingNotice(name))]
    ensures f.Unreadable? ==> r.pos == 0 && r.ops == [Append(LoadError(name, f.reason))]
  {
    match f
    case Readable(c) =>
      ViewSnoc([], Append(Newlines(c)));
      Tail(Utf8Len(c), [Append(Newlines(c))])
    case Unreadable(_, reason) => Tail(0, [Append(LoadError(name, reason))])
    case Absent => Tail(0, [Append(MissingNotice(name))])
  }

  /** One pass of the _monitor_log_file loop body on snapshot f.  The cursor
      and the size it is compared with are byte counts. */
  function Poll(name: string, s: Tail, f: FileState): (r: Tail)
    ensures f.Absent? ==> r == s
    ensures f.Readable? && Utf8Len(f.content) == s.pos ==> r == s
    ensures f.Readable? && Utf8Len(f.content) > s.pos ==>
      r.pos == Utf8Len(f.content) && View(r.ops) == View(s.ops) + Newlines(ReadFrom(f.content, s.pos))
    ensures f.Readable? && Utf8Len(f.content) > s.pos ==>
      r.ops == s.ops + [Append(Newlines(ReadFrom(f.content, s.pos)))]
    ensures f.Readable? && Utf8Len(f.content) < s.pos ==>
      r.pos == Utf8Len(f.content) && View(r.ops) == Newlines(f.content)
    ensures f.Readable? && Utf8Len(f.content) < s.pos ==>
      r.ops == s.ops + [Append(ResetNotice(name)), ClearAndAppend(""), Append(Newlines(f.content))]
    ensures f.Unreadable? && f.size == s.pos ==> r == s
    ensures f.Unreadable? && f.size > s.pos ==> r.pos == s.pos && r.ops == ReportError(s.ops, name, f.reason)
    ensures f.Unreadable? && f.size < s.pos ==>
      r.pos == 0 && r.ops == ReportError(s.ops + [Append(ResetNotice(name)), ClearAndAppend("")], name, f.reason)
    ensures |r.ops| >= |s.ops| && r.ops[..|s.ops|] == s.ops
  {
    match f
    case Absent => s
    case Readable(c) => PollRead(name, s, c)
    case Unreadable(size, reason) => PollFailed(name, s, size, reason)
  }

  /** The loop body when the file could be read: a shrink in bytes reloads it,
      growth reads on from the cursor. */
  function PollRead(name: string, s: Tail, c: string): (r: Tail)
    ensures Utf8Len(c) == s.pos ==> r == s
    ensures Utf8Len(c) > s.pos ==>
      r.pos == Utf8Len(c) && View(r.ops) == View(s.ops) + Newlines(ReadFrom(c, s.pos))
    ensures Utf8Len(c) > s.pos ==> r.ops == s.ops + [Append(Newlines(ReadFrom(c, s.pos)))]
    ensures Utf8Len(c) < s.pos ==> r.pos == Utf8Len(c) && View(r.ops) == Newlines(c)
    ensures Utf8Len(c) < s.pos ==>
      r.ops == s.ops + [Append(ResetNotice(name)), ClearAndAppend(""), Append(Newlines(c))]
    ensures |r.ops| >= |s.ops| && r.ops[..|s.ops|] == s.ops
  {
    var size := Utf8Len(c);
    if size < s.pos then
      ResetView(s.ops, ResetNotice(name), Newlines(c));
      Tail(size, s.ops + [Append(ResetNotice(name)), ClearAndAppend(""), Append(Newlines(c))])
    else if size > s.pos then
      var added := Newlines(ReadFrom(c, s.pos));
      ViewSnoc(s.ops, Append(added));
      Tail(size, s.ops + [Append(added)])
    else s
  }

  /** The loop body when opening the file raised: a shrink still resets the
      console and the cursor before the error is reported. */
  function PollFailed(name: string, s: Tail, size: nat, reason: string): (r: Tail)
    ensures size == s.pos ==> r == s
    ensures size > s.pos ==> r.pos == s.pos && r.ops == ReportError(s.ops, name, reason)
    ensures size < s.pos ==>
      r.pos == 0 && r.ops == ReportError(s.ops + [Append(ResetNotice(name)), ClearAndAppend("")], name, reason)
    ensures |r.ops| >= |s.ops| && r.ops[..|s.ops|] == s.ops
  {
    if size < s.pos then
      var ops1 := s.ops + [Append(ResetNotice(name)), ClearAndAppend("")];
      ExtendsTwice(s.ops, ops1, ReportError(ops1, name, reason));
      Tail(0, ReportError(ops1, name, reason))
    else if size > s.pos then
      Tail(s.pos, ReportError(s.ops, name, reason))
    else s
  }

  /** After a reset notice, a clear and the reloaded content, the console
      shows only the reloaded content. */
  lemma ResetView(ops: seq<UiOp>, notice: string, c: string)
    ensures View(ops + [Append(notice), ClearAndAppend(""), Append(c)]) == c
  {
    var ops1 := ops + [Append(notice), ClearAndAppend("")];
    assert ops1 == ops + [Append(notice)] + [ClearAndAppend("")];
    ViewSnoc(ops + [Append(notice)], ClearAndAppend(""));
    assert ops + [Append(notice), ClearAndAppend(""), Append(c)] == ops1 + [Append(c)];
    ViewSnoc(ops1, Append(c));
  }

  lemma ExtendsTwice(a: seq<UiOp>, b: seq<UiOp>, c: seq<UiOp>)
    requires |a| <= |b| && b[..|a|] == a
    requires |b| <= |c| && c[..|b|] == b
    ensures |a| <= |c| && c[..|a|] == a
  {
    assert c[..|a|] == c[..|b|][..|a|];
  }

  /** The console shows the whole file, as text mode reads it, and the cursor
      is at its byte size. */
  predicate Mirrors(s: Tail, c: string)
  {
    View(s.ops) == Newlines(c) && s.pos == Utf8Len(c)
  }

  /** Polling a sequence of readable snapshots, in order. */
  function Run(name: string, s: Tail, cs: seq<string>): Tail
    decreases |cs|
  {
    if cs == [] then s else Run(name, Poll(name, s, Readable(cs[0])), cs[1..])
  }

  /** A log that is left as it is, grows by appending after a complete line
      end (not between the "\r" and "\n" of one), or is rewritten with fewer
      bytes than it had. */
  predicate AppendOrShrink(prev: string, next: string)
  {
    next == prev
    || (prev <= next && (prev == [] || prev[|prev| - 1] != '\r'))
    || Utf8Len(next) < Utf8Len(prev)
  }

  /** Every snapshot in cs is an append to, or a shrink of, the one before it. */
  predicate WellBehaved(prev: string, cs: seq<string>)
  {
    (cs != [] ==> AppendOrShrink(prev, cs[0]))
    && forall k :: 0 < k < |cs| ==> AppendOrShrink(cs[k - 1], cs[k])
  }

  lemma PollKeepsMirror(name: string, s: Tail, prev: string, c: string)
    requires Mirrors(s, prev) && AppendOrShrink(prev, c)
    ensures Mirrors(Poll(name, s, Readable(c)), c)
  {
    if Utf8Len(c) >= Utf8Len(prev) && c != prev {
      var rest := c[|prev|..];
      assert c == prev + rest;
      Utf8LenAppend(prev, rest);
      if rest != [] {
        ReadAfterPrefix(prev, rest);
        NewlinesAppend(prev, rest);
      }
    }
  }

  /** The file as the last snapshot of a run leaves it. */
  function Last(prev: string, cs: seq<string>): string
  {
    if cs == [] then prev else cs[|cs| - 1]
  }

  lemma LastCons(prev: string, cs: seq<string>)
    requires cs != []
    ensures Last(prev, cs) == Last(cs[0], cs[1..])
  {
    if |cs| > 1 {
      assert cs[1..][|cs[1..]| - 1] == cs[|cs| - 1];
    }
  }

  /** After any number of polls, the console shows the whole current file and
      the cursor is at its end, provided each change of the file was an
      append or a shrink. */
  lemma {:induction false} RunMirrors(name: string, s: Tail, prev: string, cs: seq<string>)
    requires Mirrors(s, prev)
    requires WellBehaved(prev, cs)
    ensures Mirrors(Run(name, s, cs), Last(prev, cs))
    decreases |cs|
  {
    if cs != [] {
      var s1 := RunStep(name, s, prev, cs);
      RunMirrors(name, s1, cs[0], cs[1..]);
      LastCons(prev, cs);
    }
  }

  /** The first poll of a run keeps the mirror and leaves a well-behaved rest. */
  lemma RunStep(name: string, s: Tail, prev: string, cs: seq<string>) returns (s1: Tail)
    requires cs != [] && Mirrors(s, prev) && WellBehaved(prev, cs)
    ensures Mirrors(s1, cs[0]) && WellBehaved(cs[0], cs[1..])
    ensures Run(name, s, cs) == Run(name, s1, cs[1..])
  {
    PollKeepsMirror(name, s, prev, cs[0]);
    s1 := Poll(name, s, Readable(cs[0]));
    WellBehavedTail(prev, cs);
    RunCons(name, s, cs);
  }

  lemma RunCons(name: string, s: Tail, cs: seq<string>)
    requires cs != []
    ensures Run(name, s, cs) == Run(name, Poll(name, s, Readable(cs[0])), cs[1..])
  {
  }

  lemma WellBehavedTail(prev: string, cs: seq<string>)
    requires cs != [] && WellBehaved(prev, cs)
    ensures WellBehaved(cs[0], cs[1..])
  {
    assert forall k :: 0 < k < |cs[1..]| ==> cs[1..][k - 1] == cs[k] && cs[1..][k] == cs[k + 1];
  }

  /** The whole subscribe-then-poll history on a well-behaved log. */
  lemma SubscribeThenRun(name: string, first: string, cs: seq<string>)
    requires WellBehaved(first, cs)
    ensures var r := Run(name, Subscribe(name, Readable(first)), cs);
      View(r.ops) == Newlines(Last(first, cs)) && r.pos == Utf8Len(Last(first, cs))
  {
    RunMirrors(name, Subscribe(name, Readable(first)), first, cs);
  }

  /** The window and its monitor thread, reduced to the fields the loop uses. */
  class LogViewerWindow {
    const serverName: string
    var lastKnownPosition: nat
    var running: bool
    /** The console callbacks queued with after(0), oldest first. */
    var queued: seq<UiOp>

    constructor (name: string)
      ensures serverName == name && lastKnownPosition == 0 && running && queued == []
    {
      serverName := name;
      lastKnownPosition := 0;
      running := true;
      queued := [];
    }

    function State(): Tail
      reads this
    {
      Tail(lastKnownPosition, queued)
    }

    method AppendToConsole(text: string)
      modifies this`queued
      ensures queued == old(queued) + [Append(text)]
    {
      queued := queued + [Append(text)];
    }

    /** start_log_monitoring, before the monitor thread is started. */
    method StartLogMonitoring(f: FileState)
      requires lastKnownPosition == 0 && queued == []
      modifies this
      ensures State() == Subscribe(serverName, f)
      ensures running == old(running)
    {
      match f {
        case Readable(c) =>
          AppendToConsole(Newlines(c));
          lastKnownPosition := Utf8Len(c);
        case Unreadable(_, reason) =>
          AppendToConsole(LoadError(serverName, reason));
        case Absent =>
          AppendToConsole(MissingNotice(serverName));
      }
    }

    /** One iteration of the monitor loop; false once running is off and the
        loop has ended. */
    method MonitorStep(f: FileState) returns (looped: bool)
      modifies this
      ensures looped == old(running) && running == old(running)
      ensures looped ==> State() == Poll(serverName, old(State()), f)
      ensures !looped ==> State() == old(State())
    {
      if !running {
        return false;
      }
      looped := true;
      match f {
        case Absent =>
        case Readable(c) => PollReadable(c);
        case Unreadable(size, reason) => PollUnreadable(size, reason);
      }
    }

    /** The loop body when the file could be read. */
    method PollReadable(c: string)
      modifies this
      ensures State() == Poll(serverName, old(State()), Readable(c))
      ensures running == old(running)
    {
      ghost var before := State();
      var currentSize := Utf8Len(c);
      if currentSize < lastKnownPosition {
        AppendToConsole(ResetNotice(serverName));
        lastKnownPosition := 0;
        queued := queued + [ClearAndAppend("")];
        AppendToConsole(Newlines(c));
        lastKnownPosition := currentSize;
        assert queued == before.ops + [Append(ResetNotice(serverName)), ClearAndAppend(""), Append(Newlines(c))];
      } else if currentSize > lastKnownPosition {
        AppendToConsole(Newlines(ReadFrom(c, lastKnownPosition)));
        lastKnownPosition := currentSize;
      }
    }

    /** The loop body when the size could be read but the file could not. */
    method PollUnreadable(size: nat, reason: string)
      modifies this
      ensures State() == Poll(serverName, old(State()), Unreadable(size, reason))
      ensures running == old(running)
    {
      ghost var before := State();
      if size < lastKnownPosition {
        AppendToConsole(ResetNotice(serverName));
        lastKnownPosition := 0;
        queued := queued + [ClearAndAppend("")];
        assert queued == before.ops + [Append(ResetNotice(serverName)), ClearAndAppend("")];
        queued := ReportError(queued, serverName, reason);
      } else if size > lastKnownPosition {
        queued := ReportError(queued, serverName, reason);
      }
    }

    /** on_closing: the loop stops at its next test of running. */
    method OnClosing()
      modifies this`running
      ensures !running
    {
      running := false;
    }
  }
}
