/**
  The ComfyUI process manager: a PID marker file in /tmp decides whether the
  server runs; `start` refuses while the marker names a live process or
  anything holds port 9000, `stop` asks politely, waits up to five seconds
  and then kills.
*/
module Comfy {
  import opened Wrappers
  import opened Text
  import opened Host

  const PidPath := "/tmp/comfyui.pid"
  const LogPath := "/tmp/comfyui.log"
  const Port := 9000
  const ListenHost := "0.0.0.0"
  /** `str(PORT)`. */
  const PortText := "9000"
  const GraceChecks := 5

  function InstallDir(home: string): string {
    PathJoin(home, "ComfyUI")
  }

  function VenvPython(home: string): string {
    PathJoin(PathJoin(PathJoin(InstallDir(home), "venv"), "bin"), "python")
  }

  /**
    `get_running_pid`: the marker's text read as a Python integer, when the
    process it names exists (`live` is the set of pids psutil reports as
    existing). A missing or unreadable marker gives None. `ParseInt` is
    `int(text.strip())`, so it covers the `strip()` as well.
  */
  function RunningPid(pidFile: Option<string>, live: set<Pid>): (r: Option<Pid>)
    ensures r.Some? <==> pidFile.Some? && ParseInt(pidFile.value).Some? && ParseInt(pidFile.value).value in live
    ensures r.Some? ==> r == ParseInt(pidFile.value)
  {
    if pidFile.None? then None
    else match ParseInt(pidFile.value)
      case None => None
      case Some(pid) => if pid in live then Some(pid) else None
  }

  /** A marker `start` wrote for a pid reads back as that pid, as long as the process exists. */
  lemma MarkerRoundTrip(pid: Pid, live: set<Pid>)
    ensures RunningPid(Some(IntToString(pid)), live) == if pid in live then Some(pid) else None
  {
    ParseIntOfIntToString(pid);
  }

  /** `if pid:` — Python treats a missing pid and pid 0 alike as false. */
  predicate IsTruthy(pid: Option<Pid>) {
    pid.Some? && pid.value != 0
  }

  /** `is_port_busy`: any socket, in any state, bound locally to `port`. */
  function PortBusy(conns: seq<Conn>, port: int): (r: bool)
    ensures r <==> exists i | 0 <= i < |conns| :: conns[i].port == port
  {
    if conns == [] then false
    else if conns[0].port == port then true
    else
      assert forall i | 0 < i < |conns| :: conns[i] == conns[1..][i - 1];
      PortBusy(conns[1..], port)
  }

  /** The interpreter: the install's own venv when it exists, else `python3` from PATH. */
  function Interpreter(home: string, venvExists: bool): string {
    if venvExists then VenvPython(home) else "python3"
  }

  function LaunchArgv(home: string, venvExists: bool): (r: seq<string>)
    ensures |r| == 6 && r[0] == Interpreter(home, venvExists) && r[1] == PathJoin(InstallDir(home), "main.py")
    ensures r[2..] == ["--listen", ListenHost, "--port", PortText]
  {
    [Interpreter(home, venvExists), PathJoin(InstallDir(home), "main.py"), "--listen", ListenHost, "--port", PortText]
  }

  datatype StartOutcome =
    | AlreadyRunning(pid: Pid)
    | PortInUse
    | MissingInstall
    | SpawnFailed
    | Started(pid: Pid)

  /**
    `start --detach`. `pidFile` is the marker (None: absent), `live` the
    existing pids, `conns` the socket table, `installExists` and
    `venvExists` whether ~/ComfyUI and its venv interpreter exist, and
    `spawned` the pid `Popen` gives (None: it raised).
  */
  method Start(home: string, pidFile: Option<string>, live: set<Pid>, conns: seq<Conn>,
               installExists: bool, venvExists: bool, spawned: Option<Pid>)
    returns (outcome: StartOutcome, effects: seq<Effect>)
    ensures IsTruthy(RunningPid(pidFile, live)) ==>
      outcome == AlreadyRunning(RunningPid(pidFile, live).value) && effects == []
    ensures !IsTruthy(RunningPid(pidFile, live)) && PortBusy(conns, Port) ==>
      outcome == PortInUse && effects == []
    ensures !IsTruthy(RunningPid(pidFile, live)) && !PortBusy(conns, Port) && !installExists ==>
      outcome == MissingInstall && effects == []
    ensures !IsTruthy(RunningPid(pidFile, live)) && !PortBusy(conns, Port) && installExists ==>
      && (spawned.None? ==> outcome == SpawnFailed && effects == [WriteFile(LogPath, "")])
      && (spawned.Some? ==>
            && outcome == Started(spawned.value)
            && effects == [WriteFile(LogPath, ""), Spawn(LaunchArgv(home, venvExists), InstallDir(home), LogPath),
                           WriteFile(PidPath, IntToString(spawned.value))])
    ensures outcome.Started? ==> FileAfter(PidPath, pidFile, effects) == Some(IntToString(outcome.pid))
  {
    var pid := RunningPid(pidFile, live);
    if IsTruthy(pid) {
      return AlreadyRunning(pid.value), [];
    }
    if PortBusy(conns, Port) {
      return PortInUse, [];
    }
    if !installExists {
      return MissingInstall, [];
    }
    var argv := LaunchArgv(home, venvExists);
    effects := [WriteFile(LogPath, "")];
    if spawned.None? {
      return SpawnFailed, effects;
    }
    var marker := WriteFile(PidPath, IntToString(spawned.value));
    effects := effects + [Spawn(argv, InstallDir(home), LogPath), marker];
    assert FileAfter(PidPath, pidFile, effects) == ApplyToFile(PidPath, FileAfter(PidPath, pidFile, effects[..2]), marker);
    outcome := Started(spawned.value);
  }

  /**
    Once `start` launched a process whose pid is not 0, a second `start`
    while that process exists reports it as already running and does nothing.
    Whatever the pid file held before, the marker written last decides.
  */
  lemma RestartIsNoop(home: string, pidFile: Option<string>, live: set<Pid>,
                      venvExists: bool, child: Pid, effects: seq<Effect>)
    requires effects == [WriteFile(LogPath, ""), Spawn(LaunchArgv(home, venvExists), InstallDir(home), LogPath),
                         WriteFile(PidPath, IntToString(child))]
    requires child != 0 && child in live
    ensures IsTruthy(RunningPid(FileAfter(PidPath, pidFile, effects), live))
    ensures RunningPid(FileAfter(PidPath, pidFile, effects), live) == Some(child)
  {
    assert effects == effects[..2] + [WriteFile(PidPath, IntToString(child))];
    MarkerRoundTrip(child, live);
  }

  /** The index of the first of the grace checks (0 to 4) that finds the process gone, or 5 if none does. */
  function FirstGone(alive: seq<bool>, from: nat): (k: nat)
    requires |alive| > GraceChecks && from <= GraceChecks
    ensures from <= k <= GraceChecks
    ensures forall j | from <= j < k :: alive[j]
    ensures k < GraceChecks ==> !alive[k]
    decreases GraceChecks - from
  {
    if from == GraceChecks || !alive[from] then from else FirstGone(alive, from + 1)
  }

  /** Which observation the force-kill test reads: the one after the loop's last. */
  function FinalCheck(alive: seq<bool>): nat
    requires |alive| > GraceChecks
  {
    var k := FirstGone(alive, 0);
    if k < GraceChecks then k + 1 else GraceChecks
  }

  /**
    The grace period: up to five checks a second apart, leaving early once
    the process is gone, then one more check deciding the force kill.
  */
  method GracePeriod(alive: seq<bool>) returns (sleeps: nat, forced: bool)
    requires |alive| == GraceChecks + 1
    ensures sleeps == FirstGone(alive, 0)
    ensures forced == alive[FinalCheck(alive)]
    ensures forced ==> sleeps == GraceChecks || alive[sleeps + 1]
    ensures !forced ==> exists j | 0 <= j <= GraceChecks :: !alive[j]
  {
    var check := 0;
    sleeps := 0;
    while check < GraceChecks
      invariant 0 <= check <= GraceChecks
      invariant sleeps == check
      invariant forall j | 0 <= j < check :: alive[j]
    {
      if !alive[check] {
        break;
      }
      sleeps := sleeps + 1;
      check := check + 1;
    }
    var final := if check < GraceChecks then check + 1 else GraceChecks;
    forced := alive[final];
  }

  /**
    What one `os.kill` call does: the signal is delivered, or the call raises
    ProcessLookupError (no such process) or PermissionError (the process
    belongs to another user).
  */
  datatype Delivery = Delivered | NoSuchProcess | Denied

  datatype StopOutcome =
    | NotRunning
    | AlreadyDead(pid: Pid)
    | Stopped(pid: Pid, forced: bool)
      /** `os.kill` raised PermissionError, which `stop` does not catch: the command fails there. */
    | Refused(pid: Pid)

  /** What `stop` reports once the SIGKILL call returned or raised. */
  function KillOutcome(pid: Pid, kill: Delivery): StopOutcome {
    match kill
    case Delivered => Stopped(pid, true)
    case NoSuchProcess => AlreadyDead(pid)
    case Denied => Refused(pid)
  }

  /**
    `stop`. Each call of `psutil.pid_exists` after the first is an
    observation: `alive[j]` is what the j-th one says. `term` and `kill`
    say what the `os.kill` calls for SIGTERM and SIGKILL do.
  */
  method Stop(pidFile: Option<string>, live: set<Pid>, term: Delivery, alive: seq<bool>, kill: Delivery)
    returns (outcome: StopOutcome, effects: seq<Effect>, sleeps: nat)
    requires |alive| == GraceChecks + 1
    ensures !IsTruthy(RunningPid(pidFile, live)) ==>
      outcome == NotRunning && effects == RemoveIfPresent(PidPath, pidFile) && sleeps == 0
    ensures IsTruthy(RunningPid(pidFile, live)) ==>
      var pid := RunningPid(pidFile, live).value;
      var cleanup := if outcome.Refused? then [] else RemoveIfPresent(PidPath, pidFile);
      && (term.NoSuchProcess? ==> outcome == AlreadyDead(pid) && effects == [Send(pid, SigTerm)] + cleanup && sleeps == 0)
      && (term.Denied? ==> outcome == Refused(pid) && effects == [Send(pid, SigTerm)] && sleeps == 0)
      && (term.Delivered? ==>
            && sleeps == FirstGone(alive, 0)
            && (alive[FinalCheck(alive)] ==>
                  effects == [Send(pid, SigTerm), Send(pid, SigKill)] + cleanup && outcome == KillOutcome(pid, kill))
            && (!alive[FinalCheck(alive)] ==>
                  effects == [Send(pid, SigTerm)] + cleanup && outcome == Stopped(pid, false)))
    ensures outcome.Refused? ==> FileAfter(PidPath, pidFile, effects) == pidFile
    ensures !outcome.Refused? ==> FileAfter(PidPath, pidFile, effects) == None
  {
    var running := RunningPid(pidFile, live);
    if !IsTruthy(running) {
      return NotRunning, RemoveIfPresent(PidPath, pidFile), 0;
    }
    var signals;
    outcome, signals, sleeps := Terminate(running.value, term, alive, kill);
    if outcome.Refused? {
      FileAfterUntouched(PidPath, pidFile, signals);
      effects := signals;
    } else {
      SignalsThenRemove(PidPath, pidFile, signals);
      effects := signals + RemoveIfPresent(PidPath, pidFile);
    }
  }

  /** The signals `stop` sends a running server `pid`, and what it reports. */
  method Terminate(pid: Pid, term: Delivery, alive: seq<bool>, kill: Delivery)
    returns (outcome: StopOutcome, signals: seq<Effect>, sleeps: nat)
    requires |alive| == GraceChecks + 1
    ensures forall i | 0 <= i < |signals| :: signals[i].Send? && signals[i].pid == pid
    ensures outcome.Refused? <==> (term.Denied? || (term.Delivered? && alive[FinalCheck(alive)] && kill.Denied?))
    ensures term.NoSuchProcess? ==> outcome == AlreadyDead(pid) && signals == [Send(pid, SigTerm)] && sleeps == 0
    ensures term.Denied? ==> outcome == Refused(pid) && signals == [Send(pid, SigTerm)] && sleeps == 0
    ensures term.Delivered? ==>
      && sleeps == FirstGone(alive, 0)
      && (alive[FinalCheck(alive)] ==>
            signals == [Send(pid, SigTerm), Send(pid, SigKill)] && outcome == KillOutcome(pid, kill))
      && (!alive[FinalCheck(alive)] ==> signals == [Send(pid, SigTerm)] && outcome == Stopped(pid, false))
  {
    signals, sleeps := [Send(pid, SigTerm)], 0;
    if term.NoSuchProcess? {
      return AlreadyDead(pid), signals, 0;
    } else if term.Denied? {
      return Refused(pid), signals, 0;
    }
    var forced;
    sleeps, forced := GracePeriod(alive);
    if forced {
      signals := signals + [Send(pid, SigKill)];
      outcome := KillOutcome(pid, kill);
    } else {
      outcome := Stopped(pid, false);
    }
  }

  datatype ServerStatus = Running(pid: Pid) | Down(portBusy: bool)

  /** `status`: RUNNING with the marker's pid, else STOPPED, flagged when port 9000 is taken. */
  function Status(pidFile: Option<string>, live: set<Pid>, conns: seq<Conn>): (r: ServerStatus)
    ensures r.Running? <==> IsTruthy(RunningPid(pidFile, live))
    ensures r.Running? ==> Some(r.pid) == RunningPid(pidFile, live) && r.pid in live
    ensures r.Down? ==> (r.portBusy <==> exists i | 0 <= i < |conns| :: conns[i].port == Port)
  {
    var pid := RunningPid(pidFile, live);
    if IsTruthy(pid) then Running(pid.value) else Down(PortBusy(conns, Port))
  }
}
