/** _check_and_kill_processes_on_ports: after a stop, the panel asks netstat
    which processes still listen on the server ports and kills them.  The
    command output for each port is an input; what is modelled is how a PID
    is read from each line and which ports are reported free or in use. */
module PortReaper {
  import opened Text
  import opened PyText

  /** GameServerManager.ports_to_check. */
  const PORTS: seq<int> := [7777, 9014, 2106]

  /** line.strip().split() */
  function Parts(line: string): seq<string>
  {
    Words(Strip(line))
  }

  /** The PID a line contributes: the last of at least five tokens, when
      int() accepts it. */
  function LinePid(line: string): (r: Option<int>)
    ensures r.Some? ==> |Parts(line)| >= 5 && ParseInt(Parts(line)[|Parts(line)| - 1]) == r
    ensures |Parts(line)| >= 5 && ParseInt(Parts(line)[|Parts(line)| - 1]).Some? ==> r.Some?
  {
    var parts := Parts(line);
    if |parts| >= 5 then ParseInt(parts[|parts| - 1]) else None
  }

  /** A line of five or more tokens whose last token is not an integer: the
      ValueError branch, which reports the line and moves on. */
  predicate Unparsable(line: string)
  {
    var parts := Parts(line);
    |parts| >= 5 && ParseInt(parts[|parts| - 1]).None?
  }

  /** The PID each line contributes, line by line. */
  function LinePids(lines: seq<string>): (r: seq<Option<int>>)
    ensures |r| == |lines|
    ensures forall k :: 0 <= k < |lines| ==> r[k] == LinePid(lines[k])
  {
    seq(|lines|, k requires 0 <= k < |lines| => LinePid(lines[k]))
  }

  /** The set of values present in a sequence of optional PIDs. */
  function Collect(vs: seq<Option<int>>): set<int>
    decreases |vs|
  {
    if vs == [] then {}
    else Collect(vs[..|vs| - 1]) + (if vs[|vs| - 1].Some? then {vs[|vs| - 1].value} else {})
  }

  /** A PID is collected exactly when some entry holds it; repeats collapse. */
  lemma {:induction false} CollectIff(vs: seq<Option<int>>, pid: int)
    ensures pid in Collect(vs) <==> exists k :: 0 <= k < |vs| && vs[k] == Some(pid)
    decreases |vs|
  {
    if vs != [] {
      var init := vs[..|vs| - 1];
      CollectIff(init, pid);
      if pid in Collect(init) {
        var k :| 0 <= k < |init| && init[k] == Some(pid);
        assert vs[k] == init[k];
      }
      if exists k :: 0 <= k < |vs| && vs[k] == Some(pid) {
        var k :| 0 <= k < |vs| && vs[k] == Some(pid);
        if k < |init| {
          assert init[k] == vs[k];
        }
      }
    }
  }

  /** The set of PIDs found in a sequence of lines. */
  function PidsOf(lines: seq<string>): set<int>
  {
    Collect(LinePids(lines))
  }

  /** A PID is found exactly when some line yields it. */
  lemma PidsOfIff(lines: seq<string>, pid: int)
    ensures pid in PidsOf(lines) <==> exists k :: 0 <= k < |lines| && LinePid(lines[k]) == Some(pid)
  {
    CollectIff(LinePids(lines), pid);
  }

  lemma LinePidsSnoc(lines: seq<string>, i: nat)
    requires i < |lines|
    ensures LinePids(lines[..i + 1]) == LinePids(lines[..i]) + [LinePid(lines[i])]
  {
  }

  lemma CollectSnoc(vs: seq<Option<int>>, v: Option<int>)
    ensures Collect(vs + [v]) == Collect(vs) + (if v.Some? then {v.value} else {})
  {
    assert (vs + [v])[..|vs|] == vs;
  }

  /** int() never accepts "LISTENING" in any letter case, so the elif branch
      that would read the PID from the second-to-last token can never run
      once the last token parsed. */
  lemma ListeningIsNoInt(x: string)
    requires ParseInt(x).Some?
    ensures UpperStr(x) != "LISTENING"
  {
    var i :| 0 <= i < |x| && IsDigit(x[i]);
    var u := UpperStr(x);
    assert IsDigit(u[i]);
    DigitIsNoListening(u, i);
  }

  /** A string with a digit is not "LISTENING". */
  lemma DigitIsNoListening(u: string, i: nat)
    requires i < |u| && IsDigit(u[i])
    ensures u != "LISTENING"
  {
    if |u| == 9 {
      assert !IsDigit("LISTENING"[i]);
    }
  }

  /** The body of the line loop: the PID the line yields, and whether it
      takes the ValueError branch. */
  method PidOfLine(line: string) returns (pid: Option<int>, unparsable: bool)
    ensures pid == LinePid(line) && unparsable == Unparsable(line)
  {
    var parts := Parts(line);
    if |parts| < 5 {
      return None, false;
    }
    var parsed := ParseInt(parts[|parts| - 1]);
    if parsed.None? {
      return None, true;
    }
    var p := parsed.value;
    if UpperStr(parts[|parts| - 2]) == "LISTENING" && AllDigits(parts[|parts| - 1]) {
    } else if UpperStr(parts[|parts| - 1]) == "LISTENING" && AllDigits(parts[|parts| - 2]) {
      ListeningIsNoInt(parts[|parts| - 1]);
      assert false;
    }
    return Some(p), false;
  }

  /** The lines the ValueError branch reports, in order. */
  function SkippedOf(lines: seq<string>): seq<string>
  {
    if lines == [] then []
    else SkippedOf(lines[..|lines| - 1]) + (if Unparsable(lines[|lines| - 1]) then [lines[|lines| - 1]] else [])
  }

  /** A line is reported exactly when it is one of the lines and unparsable. */
  lemma {:induction false} SkippedIff(lines: seq<string>, l: string)
    ensures l in SkippedOf(lines) <==> l in lines && Unparsable(l)
  {
    if lines != [] {
      var init := lines[..|lines| - 1];
      SkippedIff(init, l);
      assert lines == init + [lines[|lines| - 1]];
    }
  }

  /** One more line adds its PID, if any, and its report, if unparsable. */
  lemma LinesSnoc(lines: seq<string>, i: nat)
    requires i < |lines|
    ensures PidsOf(lines[..i + 1]) == PidsOf(lines[..i]) + (if LinePid(lines[i]).Some? then {LinePid(lines[i]).value} else {})
    ensures SkippedOf(lines[..i + 1]) == SkippedOf(lines[..i]) + (if Unparsable(lines[i]) then [lines[i]] else [])
  {
    LinePidsSnoc(lines, i);
    CollectSnoc(LinePids(lines[..i]), LinePid(lines[i]));
    assert lines[..i + 1][..i] == lines[..i];
  }

  /** The line loop for one port: the PIDs found and the lines reported as
      unparsable, in order. */
  method PidsOnPort(stdout: string) returns (pids: set<int>, skipped: seq<string>)
    ensures pids == PidsOf(Lines(stdout))
    ensures skipped == SkippedOf(Lines(stdout))
  {
    pids := {};
    skipped := [];
    if stdout == [] {
      return;
    }
    var lines := Lines(stdout);
    var i := 0;
    while i < |lines|
      invariant 0 <= i <= |lines|
      invariant pids == PidsOf(lines[..i])
      invariant skipped == SkippedOf(lines[..i])
    {
      var line := lines[i];
      LinesSnoc(lines, i);
      var pid, bad := PidOfLine(line);
      ghost var pids0, skipped0 := pids, skipped;
      if bad {
        skipped := skipped + [line];
      }
      if pid.Some? {
        pids := pids + {pid.value};
      }
      assert pids == pids0 + (if pid.Some? then {pid.value} else {});
      assert skipped == skipped0 + (if bad then [line] else []);
      i := i + 1;
    }
    assert lines[..i] == lines;
  }

  /** What the loop over ports reports for one port. */
  datatype PortReport = Free(port: int) | InUse(port: int, pids: set<int>)

  /** The report for one port from its netstat output. */
  function ReportFor(port: int, stdout: string): (r: PortReport)
    ensures r.port == port
    ensures r.Free? <==> PidsOf(Lines(stdout)) == {}
    ensures r.InUse? ==> r.pids == PidsOf(Lines(stdout))
  {
    var pids := PidsOf(Lines(stdout));
    if pids == {} then Free(port) else InUse(port, pids)
  }

  /** The whole check: nothing but a notice off Windows; otherwise one report
      per port in PORTS order, and whether some taskkill succeeded.  `killed`
      holds the PIDs whose taskkill returned 0. */
  method CheckAndKillProcessesOnPorts(win32: bool, netstat: seq<string>, killed: set<int>)
    returns (reports: seq<PortReport>, killedAny: bool)
    requires |netstat| == |PORTS|
    ensures !win32 ==> reports == [] && !killedAny
    ensures win32 ==> |reports| == |PORTS|
    ensures win32 ==> forall k :: 0 <= k < |PORTS| ==> reports[k] == ReportFor(PORTS[k], netstat[k])
    ensures killedAny <==> win32 && exists k :: 0 <= k < |PORTS| && PidsOf(Lines(netstat[k])) * killed != {}
  {
    reports := [];
    killedAny := false;
    if !win32 {
      return;
    }
    var k := 0;
    while k < |PORTS|
      invariant 0 <= k <= |PORTS| && |reports| == k
      invariant forall j :: 0 <= j < k ==> reports[j] == ReportFor(PORTS[j], netstat[j])
      invariant killedAny == AnyKilled(netstat, killed, k)
    {
      var report, hit := CheckPort(PORTS[k], netstat[k], killed);
      reports := reports + [report];
      if hit {
        killedAny := true;
      }
      k := k + 1;
    }
    AnyKilledIs(netstat, killed, k);
  }

  /** Whether one of the first n outputs lists a killed PID. */
  function AnyKilled(netstat: seq<string>, killed: set<int>, n: nat): bool
    requires n <= |netstat|
  {
    n > 0 && (AnyKilled(netstat, killed, n - 1) || PidsOf(Lines(netstat[n - 1])) * killed != {})
  }

  lemma {:induction false} AnyKilledIs(netstat: seq<string>, killed: set<int>, n: nat)
    requires n <= |netstat|
    ensures AnyKilled(netstat, killed, n) <==> exists j :: 0 <= j < n && PidsOf(Lines(netstat[j])) * killed != {}
  {
    if n > 0 {
      AnyKilledIs(netstat, killed, n - 1);
      var last := PidsOf(Lines(netstat[n - 1])) * killed != {};
      if !last && exists j :: 0 <= j < n && PidsOf(Lines(netstat[j])) * killed != {} {
        var j :| 0 <= j < n && PidsOf(Lines(netstat[j])) * killed != {};
        assert j < n - 1;
      }
    }
  }

  /** One port of that loop: its report, and whether one of its PIDs was
      killed. */
  method CheckPort(port: int, stdout: string, killed: set<int>) returns (report: PortReport, hit: bool)
    ensures report == ReportFor(port, stdout)
    ensures hit <==> PidsOf(Lines(stdout)) * killed != {}
  {
    var pids, _ := PidsOnPort(stdout);
    hit := false;
    if pids == {} {
      report := Free(port);
    } else {
      report := InUse(port, pids);
      if pids * killed != {} {
        hit := true;
      }
    }
  }
}
