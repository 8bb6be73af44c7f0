/**
  The operating-system state the process managers observe and the effects
  they have on it. psutil, sockets, signals and the file system are replaced
  by snapshots (inputs) and by a log of effects (outputs).
*/
module Host {
  import opened Wrappers
  import opened Text

  type Pid = int

  /** What psutil reports about one process. */
  datatype Proc = Proc(name: string, cmdline: seq<string>, parent: Option<Pid>)

  /** One entry of `psutil.net_connections()`: local port, TCP status, owning pid when known. */
  datatype Conn = Conn(port: int, status: string, pid: Option<Pid>)

  /**
    The host at one instant: the processes that exist, by pid (a pid absent
    from `procs` has vanished), and the system-wide socket table.
  */
  datatype Snapshot = Snapshot(procs: map<Pid, Proc>, conns: seq<Conn>)

  /** `" ".join(p.cmdline())`. */
  function CommandLine(p: Proc): string {
    JoinWith(p.cmdline, " ")
  }

  datatype Signal = SigTerm | SigKill

  /** One thing a tool does to the world, in the order it does it. */
  datatype Effect =
    | WriteFile(path: string, content: string)
    | RemoveFile(path: string)
      /** A detached process started with `argv` in directory `cwd`, its output and errors going to `log`. */
    | Spawn(argv: seq<string>, cwd: string, log: string)
      /** A signal sent (or attempted: a vanished target raises and is ignored). */
    | Send(pid: Pid, sig: Signal)

  predicate Touches(e: Effect, path: string) {
    (e.WriteFile? && e.path == path) || (e.RemoveFile? && e.path == path)
  }

  function ApplyToFile(path: string, before: Option<string>, e: Effect): Option<string> {
    match e
    case WriteFile(p, c) => if p == path then Some(c) else before
    case RemoveFile(p) => if p == path then None else before
    case _ => before
  }

  /** The content of the file at `path` after replaying `effects` (None: no such file). */
  function FileAfter(path: string, before: Option<string>, effects: seq<Effect>): Option<string>
    decreases |effects|
  {
    if effects == [] then before
    else ApplyToFile(path, FileAfter(path, before, effects[..|effects| - 1]), effects[|effects| - 1])
  }

  lemma {:induction false} FileAfterAppend(path: string, before: Option<string>, a: seq<Effect>, b: seq<Effect>)
    ensures FileAfter(path, before, a + b) == FileAfter(path, FileAfter(path, before, a), b)
    decreases |b|
  {
    if b == [] {
      assert a + b == a;
    } else {
      assert (a + b)[..|a + b| - 1] == a + b[..|b| - 1];
      FileAfterAppend(path, before, a, b[..|b| - 1]);
    }
  }

  lemma {:induction false} FileAfterUntouched(path: string, before: Option<string>, effects: seq<Effect>)
    requires forall i | 0 <= i < |effects| :: !Touches(effects[i], path)
    ensures FileAfter(path, before, effects) == before
    decreases |effects|
  {
    if effects != [] {
      FileAfterUntouched(path, before, effects[..|effects| - 1]);
    }
  }

  /** `if path.exists(): path.unlink()`. */
  function RemoveIfPresent(path: string, present: Option<string>): seq<Effect> {
    if present.Some? then [RemoveFile(path)] else []
  }

  /** `p.kill()` for each pid, in order. */
  function KillEach(pids: seq<Pid>): seq<Effect> {
    seq(|pids|, i requires 0 <= i < |pids| => Send(pids[i], SigKill))
  }

  /** Every signal among `effects` is `sig`. */
  predicate SignalsOnly(effects: seq<Effect>, sig: Signal) {
    forall i | 0 <= i < |effects| :: effects[i].Send? ==> effects[i].sig == sig
  }

  /** Killing one list of pids after another is killing the two lists joined. */
  lemma KillEachAppend(a: seq<Pid>, b: seq<Pid>)
    ensures KillEach(a) + KillEach(b) == KillEach(a + b)
  {
    forall i | 0 <= i < |a| + |b| ensures (KillEach(a) + KillEach(b))[i] == KillEach(a + b)[i] {
      if i < |a| {
        assert (a + b)[i] == a[i];
      } else {
        assert (a + b)[i] == b[i - |a|];
      }
    }
  }

  /** Signals followed by the marker's removal leave no marker. */
  lemma SignalsThenRemove(path: string, before: Option<string>, signals: seq<Effect>)
    requires forall i | 0 <= i < |signals| :: signals[i].Send?
    ensures FileAfter(path, before, signals + RemoveIfPresent(path, before)) == None
  {
    FileAfterUntouched(path, before, signals);
    FileAfterAppend(path, before, signals, RemoveIfPresent(path, before));
  }

  /** Kills followed by the marker's removal: no marker is left, and every signal is SIGKILL. */
  lemma KillsThenRemove(path: string, before: Option<string>, pids: seq<Pid>)
    ensures FileAfter(path, before, KillEach(pids) + RemoveIfPresent(path, before)) == None
    ensures SignalsOnly(KillEach(pids) + RemoveIfPresent(path, before), SigKill)
  {
    var kills := KillEach(pids);
    var all := kills + RemoveIfPresent(path, before);
    assert forall i | 0 <= i < |kills| :: kills[i] == Send(pids[i], SigKill);
    SignalsThenRemove(path, before, kills);
    forall i | 0 <= i < |all| && all[i].Send? ensures all[i].sig == SigKill {
      assert i < |kills| && all[i] == kills[i];
    }
  }

  /** Kills alone leave a file as it was, and every signal is SIGKILL. */
  lemma KillsLeaveFile(path: string, before: Option<string>, pids: seq<Pid>)
    ensures FileAfter(path, before, KillEach(pids)) == before
    ensures SignalsOnly(KillEach(pids), SigKill)
  {
    FileAfterUntouched(path, before, KillEach(pids));
  }
}
