/** GameServerManager's control of the two server processes: the login and
    game slots (login_server_process / game_server_process), the Start and
    Stop buttons, the delayed game-server start, the monitor loop and the
    stop sequence.  Whether a process is still running (poll() is None), what
    a launch returned and how a process reacts to terminate/kill are inputs;
    console text is reduced to the events that matter. */
module Supervisor {
  import opened Text

  datatype Server = Login | Game

  datatype Proc = Proc(pid: int)

  /** How a process answers the stop sequence. */
  datatype StopResponse =
    | ExitsOnTerminate          // ends within the grace period after terminate()
    | ExitsOnKill               // ignores terminate(), ends within 5 s of kill()
    | Unresponsive              // ends after neither
    | Raises(reason: string)    // terminate() itself raises

  datatype Event =
    | StartRefused
    | LoginFailedNoGame
    | LoginLogSkipped
    | GameFailed
    | Exited(server: Server, code: int)
    | AllStopped
    | Terminate(server: Server)
    | Kill(server: Server)
    | StopTimedOut(server: Server)
    | StopFailed(server: Server, reason: string)
    | FinalStatus(server: Server, ended: bool)
    | PortCheckScheduled

  /** The panel state the supervisor methods read and write. */
  datatype Panel = Panel(
    login: Option<Proc>,
    game: Option<Proc>,
    startEnabled: bool,
    stopEnabled: bool,
    gameStartPending: bool,   // after(5000, _start_game_server_and_logs) queued
    gameLogPending: bool,     // after(2000, open the game log) queued
    monitors: nat,            // monitor threads started
    viewers: set<Server>,     // open log viewer windows
    events: seq<Event>)

  /** `slot and slot.poll() is None`. */
  predicate Alive(slot: Option<Proc>, running: bool)
  {
    slot.Some? && running
  }

  predicate IsStopSignal(e: Event, s: Server)
  {
    (e.Terminate? || e.Kill? || e.StopTimedOut? || e.StopFailed? || e.FinalStatus?) && e.server == s
  }

  /** update_buttons_on_stop. */
  function ButtonsOnStop(p: Panel): (r: Panel)
    ensures r.startEnabled && !r.stopEnabled
    ensures r.login == p.login && r.game == p.game && r.events == p.events
  {
    p.(startEnabled := true, stopEnabled := false)
  }

  /** start_all_servers, given liveness of the current slots and what
      _start_server_process returned for the login server. */
  function StartAll(p: Panel, loginRunning: bool, gameRunning: bool, launched: Option<Proc>): (r: Panel)
    ensures Alive(p.login, loginRunning) || Alive(p.game, gameRunning) ==>
      r == p.(events := p.events + [StartRefused])
    ensures !Alive(p.login, loginRunning) && !Alive(p.game, gameRunning) ==>
      r.login == launched && r.game == p.game
      && r.gameStartPending == (p.gameStartPending || launched.Some?)
      && r.startEnabled == launched.None? && r.stopEnabled == launched.Some?
  {
    if Alive(p.login, loginRunning) || Alive(p.game, gameRunning) then
      p.(events := p.events + [StartRefused])
    else
      var q := p.(startEnabled := false, stopEnabled := true, login := launched);
      if launched.Some? then q.(gameStartPending := true)
      else ButtonsOnStop(q.(events := q.events + [LoginFailedNoGame]))
  }

  /** _start_game_server_and_logs, the delayed second half of the start.  The
      login process is polled twice, before the login log opens
      (`loginRunning`) and again after a failed game launch
      (`loginRunningLater`), so a login server that dies in between is seen
      alive by the first poll and dead by the second. */
  function StartGameAndLogs(p: Panel, loginRunning: bool, launched: Option<Proc>, loginRunningLater: bool): (r: Panel)
    ensures r.game == launched && r.login == p.login && !r.gameStartPending
    ensures Login in r.viewers <==> Login in p.viewers || Alive(p.login, loginRunning)
    ensures r.gameLogPending == (p.gameLogPending || launched.Some?)
    ensures r.monitors == if p.login.Some? || launched.Some? then p.monitors + 1 else p.monitors
    ensures p.login.None? && launched.None? ==> r.startEnabled && !r.stopEnabled
    ensures launched.None? && !Alive(p.login, loginRunningLater) ==> r.startEnabled && !r.stopEnabled
    ensures launched.None? && p.login.Some? && Alive(p.login, loginRunningLater) ==>
      r.startEnabled == p.startEnabled && r.stopEnabled == p.stopEnabled
  {
    AfterGameLaunch(LoginLogStage(p, loginRunning, launched), Alive(p.login, loginRunningLater))
  }

  /** The first half: the login log opens, or is reported skipped, and the
      game slot takes the launch result. */
  function LoginLogStage(p: Panel, loginRunning: bool, launched: Option<Proc>): (r: Panel)
    ensures r.game == launched && r.login == p.login && !r.gameStartPending
    ensures Login in r.viewers <==> Login in p.viewers || Alive(p.login, loginRunning)
    ensures r.gameLogPending == p.gameLogPending && r.monitors == p.monitors
  {
    var q := p.(gameStartPending := false);
    var q1 := if Alive(p.login, loginRunning) then q.(viewers := q.viewers + {Login})
              else q.(events := q.events + [LoginLogSkipped]);
    q1.(game := launched)
  }

  /** The second half: the game log is scheduled or the failure reported,
      then the monitor starts, or the buttons are reset when nothing runs. */
  function AfterGameLaunch(q2: Panel, loginAlive: bool): (r: Panel)
    ensures r.game == q2.game && r.login == q2.login && r.gameStartPending == q2.gameStartPending
    ensures r.viewers == q2.viewers
    ensures r.gameLogPending == (q2.gameLogPending || q2.game.Some?)
    ensures r.monitors == if q2.login.Some? || q2.game.Some? then q2.monitors + 1 else q2.monitors
    ensures q2.login.None? && q2.game.None? ==> r.startEnabled && !r.stopEnabled
  {
    var q3 := if q2.game.Some? then q2.(gameLogPending := true)
              else
                var f := q2.(events := q2.events + [GameFailed]);
                if !loginAlive then ButtonsOnStop(f) else f;
    if q3.login.Some? || q3.game.Some? then q3.(monitors := q3.monitors + 1) else ButtonsOnStop(q3)
  }

  /** The delayed game-log window opening. */
  function OpenGameLog(p: Panel): (r: Panel)
    ensures Game in r.viewers && !r.gameLogPending && r.login == p.login && r.game == p.game
  {
    p.(viewers := p.viewers + {Game}, gameLogPending := false)
  }

  /** The exit reports of one monitor pass: the login server's first. */
  function ExitReports(p: Panel, loginExit: Option<int>, gameExit: Option<int>): (es: seq<Event>)
    ensures forall k :: 0 <= k < |es| ==> es[k].Exited?
    ensures forall c :: Exited(Login, c) in es <==> p.login.Some? && loginExit == Some(c)
    ensures forall c :: Exited(Game, c) in es <==> p.game.Some? && gameExit == Some(c)
    ensures p.login.Some? && loginExit.Some? ==> es[0] == Exited(Login, loginExit.value)
    ensures |es| <= 2
  {
    (if p.login.Some? && loginExit.Some? then [Exited(Login, loginExit.value)] else [])
    + (if p.game.Some? && gameExit.Some? then [Exited(Game, gameExit.value)] else [])
  }

  /** One pass of _monitor_server_status.  An exit code is Some when poll()
      returned one.  The result's flag says the loop ended. */
  function MonitorTick(p: Panel, loginExit: Option<int>, gameExit: Option<int>): (r: (Panel, bool))
    ensures r.0.login == (if p.login.Some? && loginExit.Some? then None else p.login)
    ensures r.0.game == (if p.game.Some? && gameExit.Some? then None else p.game)
    ensures r.1 <==> r.0.login.None? && r.0.game.None?
    ensures r.0.events == p.events + ExitReports(p, loginExit, gameExit) + (if r.1 then [AllStopped] else [])
    ensures r.1 ==> r.0.startEnabled && !r.0.stopEnabled
    ensures !r.1 ==> r.0.startEnabled == p.startEnabled && r.0.stopEnabled == p.stopEnabled
  {
    var login := if p.login.Some? && loginExit.Some? then None else p.login;
    var game := if p.game.Some? && gameExit.Some? then None else p.game;
    var q := p.(login := login, game := game, events := p.events + ExitReports(p, loginExit, gameExit));
    if login.None? && game.None? then
      (ButtonsOnStop(q.(events := q.events + [AllStopped])), true)
    else (q, false)
  }

  /** The stop sequence for one running server, corrected: terminate, wait,
      and kill when the grace period runs out. */
  function StopEvents(s: Server, resp: StopResponse): (es: seq<Event>)
    ensures es != [] && es[0] == Terminate(s)
    ensures forall k :: 0 <= k < |es| ==> IsStopSignal(es[k], s)
    ensures es[|es| - 1] == FinalStatus(s, resp == ExitsOnTerminate || resp == ExitsOnKill)
    ensures Kill(s) in es <==> resp == ExitsOnKill || resp == Unresponsive
  {
    match resp
    case ExitsOnTerminate => [Terminate(s), FinalStatus(s, true)]
    case ExitsOnKill => [Terminate(s), Kill(s), FinalStatus(s, true)]
    case Unresponsive => [Terminate(s), Kill(s), StopTimedOut(s), FinalStatus(s, false)]
    case Raises(reason) => [Terminate(s), StopFailed(s, reason), FinalStatus(s, false)]
  }

  /** The stop sequence for one server as stop_all_servers writes it:
      Popen.wait(timeout) raises TimeoutExpired when the process outlives the
      timeout, so the kill below it is reached only by a process that has
      already ended. */
  function StopEventsAsWritten(s: Server, resp: StopResponse): (es: seq<Event>)
    ensures es != [] && es[0] == Terminate(s)
  {
    match resp
    case ExitsOnTerminate => [Terminate(s), FinalStatus(s, true)]
    case ExitsOnKill => [Terminate(s), StopTimedOut(s), FinalStatus(s, false)]
    case Unresponsive => [Terminate(s), StopTimedOut(s), FinalStatus(s, false)]
    case Raises(reason) => [Terminate(s), StopFailed(s, reason), FinalStatus(s, false)]
  }

  /** As written, no stop ever sends kill, so a server that only yields to
      kill is reported still running and its slot is dropped. */
  lemma AsWrittenNeverKills(s: Server, resp: StopResponse)
    ensures Kill(s) !in StopEventsAsWritten(s, resp)
    ensures StopEventsAsWritten(s, ExitsOnKill)[|StopEventsAsWritten(s, ExitsOnKill)| - 1] == FinalStatus(s, false)
  {
  }

  /** The events stop_all_servers adds: the game server's stop sequence when
      it is running, then the login server's, then the port check. */
  function StopSequence(p: Panel, gameRunning: bool, gameResp: StopResponse,
                        loginRunning: bool, loginResp: StopResponse): (es: seq<Event>)
    ensures es != [] && es[|es| - 1] == PortCheckScheduled
  {
    (if Alive(p.game, gameRunning) then StopEvents(Game, gameResp) else [])
    + (if Alive(p.login, loginRunning) then StopEvents(Login, loginResp) else [])
    + [PortCheckScheduled]
  }

  /** One server's block of stop_all_servers: its stop sequence when it is
      running, and the slot it leaves behind. */
  method StopSlot(s: Server, slot: Option<Proc>, running: bool, resp: StopResponse)
    returns (es: seq<Event>, rest: Option<Proc>)
    ensures es == if Alive(slot, running) then StopEvents(s, resp) else []
    ensures rest == if Alive(slot, running) then None else slot
  {
    es, rest := [], slot;
    if Alive(slot, running) {
      es := StopEvents(s, resp);
      rest := None;
    }
  }

  /** The panel after the stop, from the two servers' stop sequences. */
  lemma StopAllParts(p: Panel, gameRunning: bool, gameResp: StopResponse,
                     loginRunning: bool, loginResp: StopResponse, ge: seq<Event>, le: seq<Event>)
    requires ge == if Alive(p.game, gameRunning) then StopEvents(Game, gameResp) else []
    requires le == if Alive(p.login, loginRunning) then StopEvents(Login, loginResp) else []
    ensures StopAll(p, gameRunning, gameResp, loginRunning, loginResp)
      == p.(viewers := {},
            game := if Alive(p.game, gameRunning) then None else p.game,
            login := if Alive(p.login, loginRunning) then None else p.login,
            events := p.events + (ge + le + [PortCheckScheduled]),
            startEnabled := true, stopEnabled := false)
  {
  }

  /** stop_all_servers: close the viewers, stop the game server when it is
      running, then the login server, schedule the port check. */
  function StopAll(p: Panel, gameRunning: bool, gameResp: StopResponse,
                   loginRunning: bool, loginResp: StopResponse): (r: Panel)
    ensures r.game == (if Alive(p.game, gameRunning) then None else p.game)
    ensures r.login == (if Alive(p.login, loginRunning) then None else p.login)
    ensures r.viewers == {} && r.startEnabled && !r.stopEnabled
    ensures r.events == p.events + StopSequence(p, gameRunning, gameResp, loginRunning, loginResp)
  {
    ButtonsOnStop(p.(viewers := {},
                     game := if Alive(p.game, gameRunning) then None else p.game,
                     login := if Alive(p.login, loginRunning) then None else p.login,
                     events := p.events + StopSequence(p, gameRunning, gameResp, loginRunning, loginResp)))
  }

  /** Stop ends the game server before it touches the login server: in the
      events stop_all_servers adds, no game stop signal follows a login one. */
  lemma StopGameFirst(p: Panel, gameRunning: bool, gameResp: StopResponse,
                      loginRunning: bool, loginResp: StopResponse, i: nat, j: nat)
    requires i < j < |StopSequence(p, gameRunning, gameResp, loginRunning, loginResp)|
    requires IsStopSignal(StopSequence(p, gameRunning, gameResp, loginRunning, loginResp)[i], Login)
    ensures !IsStopSignal(StopSequence(p, gameRunning, gameResp, loginRunning, loginResp)[j], Game)
  {
    var ge := if Alive(p.game, gameRunning) then StopEvents(Game, gameResp) else [];
    var le := if Alive(p.login, loginRunning) then StopEvents(Login, loginResp) else [];
    var es := StopSequence(p, gameRunning, gameResp, loginRunning, loginResp);
    assert es == ge + le + [PortCheckScheduled];
    BlocksOrdered(ge, le, es, i, j);
  }

  /** A game block, then a login block, then one more event: a login stop
      signal is never followed by a game one. */
  lemma BlocksOrdered(ge: seq<Event>, le: seq<Event>, es: seq<Event>, i: nat, j: nat)
    requires es == ge + le + [PortCheckScheduled]
    requires forall k :: 0 <= k < |ge| ==> IsStopSignal(ge[k], Game)
    requires forall k :: 0 <= k < |le| ==> IsStopSignal(le[k], Login)
    requires i < j < |es| && IsStopSignal(es[i], Login)
    ensures !IsStopSignal(es[j], Game)
  {
    forall k | 0 <= k < |ge|
      ensures IsStopSignal(es[k], Game)
    {
      assert es[k] == ge[k];
    }
    if j < |ge| + |le| {
      assert es[j] == le[j - |ge|];
    }
  }

  /** A running server is always sent terminate, and reported on, under stop. */
  lemma StopSignalsRunning(p: Panel, gameRunning: bool, gameResp: StopResponse,
                           loginRunning: bool, loginResp: StopResponse)
    ensures Alive(p.game, gameRunning) ==> StopSequence(p, gameRunning, gameResp, loginRunning, loginResp)[0] == Terminate(Game)
    ensures Alive(p.login, loginRunning) ==>
      Terminate(Login) in StopSequence(p, gameRunning, gameResp, loginRunning, loginResp)
    ensures !Alive(p.game, gameRunning) && !Alive(p.login, loginRunning) ==>
      StopSequence(p, gameRunning, gameResp, loginRunning, loginResp) == [PortCheckScheduled]
  {
    var ge := if Alive(p.game, gameRunning) then StopEvents(Game, gameResp) else [];
    var le := if Alive(p.login, loginRunning) then StopEvents(Login, loginResp) else [];
    var es := StopSequence(p, gameRunning, gameResp, loginRunning, loginResp);
    assert es == ge + le + [PortCheckScheduled];
    if Alive(p.login, loginRunning) {
      assert es[|ge|] == le[0];
    }
  }

  /** Monitor ticks never refill a slot, whatever the processes report. */
  function RunMonitor(p: Panel, obs: seq<(Option<int>, Option<int>)>): Panel
    decreases |obs|
  {
    if obs == [] then p
    else
      var t := MonitorTick(p, obs[0].0, obs[0].1);
      if t.1 then t.0 else RunMonitor(t.0, obs[1..])
  }

  lemma {:induction false} RunMonitorNeverRefills(p: Panel, obs: seq<(Option<int>, Option<int>)>)
    ensures p.login.None? ==> RunMonitor(p, obs).login.None?
    ensures p.game.None? ==> RunMonitor(p, obs).game.None?
    ensures RunMonitor(p, obs).login.Some? ==> RunMonitor(p, obs).login == p.login
    ensures RunMonitor(p, obs).game.Some? ==> RunMonitor(p, obs).game == p.game
    decreases |obs|
  {
    if obs != [] {
      var t := MonitorTick(p, obs[0].0, obs[0].1);
      if !t.1 {
        RunMonitorNeverRefills(t.0, obs[1..]);
      }
    }
  }

  /** Once every watched process has reported an exit, the loop has ended
      with the buttons reset. */
  lemma {:induction false} RunMonitorEndsWhenAllExit(p: Panel, obs: seq<(Option<int>, Option<int>)>)
    requires p.login.Some? || p.game.Some?
    requires forall k :: 0 <= k < |obs| ==> obs[k].0.Some? && obs[k].1.Some?
    requires obs != []
    ensures RunMonitor(p, obs).login.None? && RunMonitor(p, obs).game.None?
    ensures RunMonitor(p, obs).startEnabled && !RunMonitor(p, obs).stopEnabled
  {
    var t := MonitorTick(p, obs[0].0, obs[0].1);
    assert t.1;
  }

  /** The panel's process bookkeeping as a mutable object. */
  class GameServerManager {
    var login: Option<Proc>
    var game: Option<Proc>
    var startEnabled: bool
    var stopEnabled: bool
    var gameStartPending: bool
    var gameLogPending: bool
    var monitors: nat
    var viewers: set<Server>
    var events: seq<Event>

    constructor ()
      ensures State() == Panel(None, None, true, false, false, false, 0, {}, [])
    {
      login, game := None, None;
      startEnabled, stopEnabled := true, false;
      gameStartPending, gameLogPending := false, false;
      monitors := 0;
      viewers := {};
      events := [];
    }

    function State(): Panel
      reads this
    {
      Panel(login, game, startEnabled, stopEnabled, gameStartPending, gameLogPending, monitors, viewers, events)
    }

    method UpdateButtonsOnStop()
      modifies this
      ensures State() == ButtonsOnStop(old(State()))
    {
      startEnabled := true;
      stopEnabled := false;
    }

    method StartAllServers(loginRunning: bool, gameRunning: bool, launched: Option<Proc>)
      modifies this
      ensures State() == StartAll(old(State()), loginRunning, gameRunning, launched)
    {
      if Alive(login, loginRunning) || Alive(game, gameRunning) {
        events := events + [StartRefused];
        return;
      }
      startEnabled := false;
      stopEnabled := true;
      login := launched;
      if login.Some? {
        gameStartPending := true;
      } else {
        events := events + [LoginFailedNoGame];
        UpdateButtonsOnStop();
      }
    }

    method StartGameServerAndLogs(loginRunning: bool, launched: Option<Proc>, loginRunningLater: bool)
      modifies this
      ensures State() == StartGameAndLogs(old(State()), loginRunning, launched, loginRunningLater)
    {
      var loginAlive := Alive(login, loginRunningLater);
      OpenLoginLog(loginRunning, launched);
      FinishGameLaunch(loginAlive);
    }

    /** The first half of _start_game_server_and_logs. */
    method OpenLoginLog(loginRunning: bool, launched: Option<Proc>)
      modifies this
      ensures State() == LoginLogStage(old(State()), loginRunning, launched)
    {
      gameStartPending := false;
      if Alive(login, loginRunning) {
        viewers := viewers + {Login};
      } else {
        events := events + [LoginLogSkipped];
      }
      game := launched;
    }

    /** The second half of _start_game_server_and_logs. */
    method FinishGameLaunch(loginAlive: bool)
      modifies this
      ensures State() == AfterGameLaunch(old(State()), loginAlive)
    {
      if game.Some? {
        gameLogPending := true;
      } else {
        events := events + [GameFailed];
        if !loginAlive {
          UpdateButtonsOnStop();
        }
      }
      if login.Some? || game.Some? {
        monitors := monitors + 1;
      } else {
        UpdateButtonsOnStop();
      }
    }

    /** One iteration of the monitor thread's loop; true when it breaks. */
    method MonitorServerStatus(loginExit: Option<int>, gameExit: Option<int>) returns (done: bool)
      modifies this
      ensures (State(), done) == MonitorTick(old(State()), loginExit, gameExit)
    {
      ghost var before := State();
      ghost var after := MonitorTick(before, loginExit, gameExit);
      var reports := [];
      if login.Some? && loginExit.Some? {
        reports := reports + [Exited(Login, loginExit.value)];
        login := None;
      }
      if game.Some? && gameExit.Some? {
        reports := reports + [Exited(Game, gameExit.value)];
        game := None;
      }
      assert reports == ExitReports(before, loginExit, gameExit);
      events := events + reports;
      done := login.None? && game.None?;
      if done {
        events := events + [AllStopped];
        startEnabled := true;
        stopEnabled := false;
      }
      assert login == after.0.login && game == after.0.game && done == after.1;
      assert events == after.0.events;
    }

    method StopAllServers(gameRunning: bool, gameResp: StopResponse, loginRunning: bool, loginResp: StopResponse)
      modifies this
      ensures State() == StopAll(old(State()), gameRunning, gameResp, loginRunning, loginResp)
    {
      ghost var before := State();
      viewers := {};
      var ge, g := StopSlot(Game, game, gameRunning, gameResp);
      var le, l := StopSlot(Login, login, loginRunning, loginResp);
      game, login := g, l;
      events := events + (ge + le + [PortCheckScheduled]);
      UpdateButtonsOnStop();
      assert State() == before.(viewers := {}, game := g, login := l,
                                events := before.events + (ge + le + [PortCheckScheduled]),
                                startEnabled := true, stopEnabled := false);
      StopAllParts(before, gameRunning, gameResp, loginRunning, loginResp, ge, le);
    }
  }
}
