/**
  The Ostris AI-Toolkit web UI manager: the probe for the process that owns
  port 9000, `start` (pre-flight check, package.json patch, detached launch
  and readiness poll), `stop` (supervisor walk, kills, worker sweep, PID
  marker removal) and `status`.
*/
module Ostris {
  import opened Wrappers
  import opened Text
  import opened Host

  const Port := 9000
  const MaxRetries := 60
  const PidPath := "/tmp/ostris.pid"
  const LogPath := "/tmp/ostris.log"
  const LaunchArgv := ["npm", "run", "build_and_start"]
  const OldStartScript := "next start --port 8675"
  const NewStartScript := "next start --port 9000"

  function ToolkitDir(home: string): string {
    PathJoin(home, "ai-toolkit")
  }

  function UiDir(home: string): string {
    PathJoin(ToolkitDir(home), "ui")
  }

  function PackageJsonPath(home: string): string {
    PathJoin(UiDir(home), "package.json")
  }

  // ---------------------------------------------------------------------
  // Port probe: get_port_process

  /**
    A connection `get_port_process(port)` accepts: bound locally to `port`,
    in state LISTEN, with a pid that is set (and non-zero: `if conn.pid:` reads it
    as a truth value) and that still exists.
  */
  predicate Listener(s: Snapshot, c: Conn, port: int) {
    c.port == port && c.status == "LISTEN" && c.pid.Some? && c.pid.value != 0 && c.pid.value in s.procs
  }

  function FirstListenerFrom(s: Snapshot, port: int, i: nat): (r: Option<nat>)
    requires i <= |s.conns|
    ensures r.Some? ==> i <= r.value < |s.conns| && Listener(s, s.conns[r.value], port)
    ensures r.Some? ==> forall j | i <= j < r.value :: !Listener(s, s.conns[j], port)
    ensures r.None? ==> forall j | i <= j < |s.conns| :: !Listener(s, s.conns[j], port)
    decreases |s.conns| - i
  {
    if i == |s.conns| then None
    else if Listener(s, s.conns[i], port) then Some(i)
    else FirstListenerFrom(s, port, i + 1)
  }

  /**
    The process of the first accepted connection, in table order; a
    connection whose process vanished is skipped and the search goes on.
  */
  function PortOccupant(s: Snapshot, port: int): (r: Option<Pid>)
    ensures r.Some? ==> r.value in s.procs
    ensures r.None? <==> forall j | 0 <= j < |s.conns| :: !Listener(s, s.conns[j], port)
    ensures r.Some? ==> exists k | 0 <= k < |s.conns| ::
      && Listener(s, s.conns[k], port) && s.conns[k].pid == r
      && forall j | 0 <= j < k :: !Listener(s, s.conns[j], port)
  {
    match FirstListenerFrom(s, port, 0)
    case None => None
    case Some(k) => s.conns[k].pid
  }

  /** `"node" in name or "next" in name`: the web UI's own server. */
  predicate IsUiServer(name: string) {
    Contains(name, "node") || Contains(name, "next")
  }

  datatype PortState = Free | Ours(pid: Pid) | Foreign(pid: Pid, name: string)

  /** `status`: RUNNING (ours), BLOCKED (someone else) or STOPPED (port free). */
  function Status(s: Snapshot): (r: PortState)
    ensures r.Free? <==> forall j | 0 <= j < |s.conns| :: !Listener(s, s.conns[j], Port)
    ensures r.Ours? ==> PortOccupant(s, Port) == Some(r.pid) && IsUiServer(s.procs[r.pid].name)
    ensures r.Foreign? ==> PortOccupant(s, Port) == Some(r.pid) && r.name == s.procs[r.pid].name && !IsUiServer(r.name)
  {
    match PortOccupant(s, Port)
    case None => Free
    case Some(p) => if IsUiServer(s.procs[p].name) then Ours(p) else Foreign(p, s.procs[p].name)
  }

  // ---------------------------------------------------------------------
  // start

  /** The rewritten package.json when it still names the old port; None means no write. */
  function PatchedPackageJson(content: string): (r: Option<string>)
    ensures r.Some? <==> Contains(content, OldStartScript)
    ensures r.Some? ==> r.value == ReplaceAll(content, OldStartScript, NewStartScript)
    ensures r.Some? ==> !Contains(r.value, OldStartScript)
  {
    if Contains(content, OldStartScript) then
      ReplaceAllRemoves(content, OldStartScript, NewStartScript);
      Some(ReplaceAll(content, OldStartScript, NewStartScript))
    else None
  }

  function PatchEffects(home: string, packageJson: Option<string>): seq<Effect> {
    if packageJson.Some? && PatchedPackageJson(packageJson.value).Some? then
      [WriteFile(PackageJsonPath(home), PatchedPackageJson(packageJson.value).value)]
    else []
  }

  /** Everything `start` does once the pre-flight checks pass, up to the spawn: the patch, then the log opened for writing. */
  function PrepareEffects(home: string, packageJson: Option<string>): seq<Effect> {
    PatchEffects(home, packageJson) + [WriteFile(LogPath, "")]
  }

  /** What the readiness poll saw: the UI, a foreign occupant, or nothing in time. */
  datatype Readiness =
    | Ready(attempt: nat, pid: Pid)
    | Hijacked(attempt: nat, pid: Pid, name: string)
    | TimedOut

  /** Probe `k` is the first one that found any occupant. */
  predicate FirstSighting(probes: seq<Snapshot>, k: nat) {
    k < |probes| && !Status(probes[k]).Free? && forall j | 0 <= j < k :: Status(probes[j]).Free?
  }

  /** `r` is what a poll over `probes` must report. */
  predicate Explains(probes: seq<Snapshot>, r: Readiness) {
    match r
    case Ready(k, pid) => FirstSighting(probes, k) && Status(probes[k]) == Ours(pid)
    case Hijacked(k, pid, name) => FirstSighting(probes, k) && Status(probes[k]) == Foreign(pid, name)
    case TimedOut => forall j | 0 <= j < |probes| :: Status(probes[j]).Free?
  }

  /**
    The readiness loop: one probe per attempt, at most MaxRetries of them,
    a one-second sleep after each empty probe; the launched child is killed
    when a foreign process took the port.
  */
  method AwaitReady(probes: seq<Snapshot>, child: Pid) returns (r: Readiness, sleeps: nat, effects: seq<Effect>)
    requires |probes| == MaxRetries
    ensures Explains(probes, r)
    ensures sleeps == if r.TimedOut? then MaxRetries else r.attempt
    ensures effects == if r.Hijacked? then [Send(child, SigKill)] else []
  {
    var i := 0;
    sleeps := 0;
    while i < MaxRetries
      invariant 0 <= i <= MaxRetries
      invariant sleeps == i
      invariant forall j | 0 <= j < i :: Status(probes[j]).Free?
    {
      match Status(probes[i]) {
        case Ours(pid) =>
          r, effects := Ready(i, pid), [];
          return;
        case Foreign(pid, name) =>
          r, effects := Hijacked(i, pid, name), [Send(child, SigKill)];
          return;
        case Free =>
      }
      sleeps := sleeps + 1;
      i := i + 1;
    }
    r, effects := TimedOut, [];
  }

  datatype StartOutcome =
    | AlreadyRunning(pid: Pid)
    | PortBusy(pid: Pid, name: string)
    | MissingUi
    | SpawnFailed
    | Launched(child: Pid, readiness: Readiness)

  /**
    `start --detach`. `s` is the host at the pre-flight probe, `uiExists`
    whether UI_DIR exists, `packageJson` its package.json (None: absent),
    `spawned` the pid `Popen` gives (None: it raised), and `probes` the host
    at each readiness attempt.
  */
  method Start(home: string, s: Snapshot, uiExists: bool, packageJson: Option<string>,
               spawned: Option<Pid>, probes: seq<Snapshot>)
    returns (outcome: StartOutcome, effects: seq<Effect>)
    requires |probes| == MaxRetries
    ensures Status(s).Ours? ==> outcome == AlreadyRunning(Status(s).pid) && effects == []
    ensures Status(s).Foreign? ==> outcome == PortBusy(Status(s).pid, Status(s).name) && effects == []
    ensures Status(s).Free? && !uiExists ==> outcome == MissingUi && effects == []
    ensures Status(s).Free? && uiExists && spawned.None? ==>
      outcome == SpawnFailed && effects == PrepareEffects(home, packageJson)
    ensures Status(s).Free? && uiExists && spawned.Some? ==>
      && outcome.Launched? && outcome.child == spawned.value
      && Explains(probes, outcome.readiness)
      && effects == PrepareEffects(home, packageJson) + [Spawn(LaunchArgv, UiDir(home), LogPath)]
                    + [WriteFile(PidPath, IntToString(spawned.value))]
                    + (if outcome.readiness.Hijacked? then [Send(spawned.value, SigKill)] else [])
    ensures outcome.Launched? ==>
      forall before :: FileAfter(PidPath, before, effects) == Some(IntToString(outcome.child))
  {
    match Status(s) {
      case Ours(pid) =>
        return AlreadyRunning(pid), [];
      case Foreign(pid, name) =>
        return PortBusy(pid, name), [];
      case Free =>
    }
    if !uiExists {
      return MissingUi, [];
    }
    effects := PrepareEffects(home, packageJson);
    if spawned.None? {
      return SpawnFailed, effects;
    }
    var child := spawned.value;
    var marked := effects + [Spawn(LaunchArgv, UiDir(home), LogPath)] + [WriteFile(PidPath, IntToString(child))];
    var readiness, _, killed := AwaitReady(probes, child);
    outcome, effects := Launched(child, readiness), marked + killed;
    forall before ensures FileAfter(PidPath, before, effects) == Some(IntToString(child)) {
      FileAfterAppend(PidPath, before, marked, killed);
      FileAfterUntouched(PidPath, FileAfter(PidPath, before, marked), killed);
    }
  }

  // ---------------------------------------------------------------------
  // stop

  /** `"npm" in name or "concurrently" in cmdline or "sh" in name`. */
  predicate IsSupervisor(p: Proc) {
    Contains(p.name, "npm") || Contains(CommandLine(p), "concurrently") || Contains(p.name, "sh")
  }

  /** The walk goes no higher than `p`: no parent, a vanished parent, or one that is no supervisor. */
  predicate WalkStopsAt(procs: map<Pid, Proc>, p: Pid)
    requires p in procs
  {
    var parent := procs[p].parent;
    parent.None? || parent.value !in procs || !IsSupervisor(procs[parent.value])
  }

  /** `chain` is `target` followed by ancestors, each the parent of the one before and a supervisor. */
  predicate SupervisorChain(procs: map<Pid, Proc>, target: Pid, chain: seq<Pid>) {
    && |chain| > 0 && chain[0] == target
    && (forall i | 0 <= i < |chain| :: chain[i] in procs)
    && (forall i | 0 < i < |chain| :: procs[chain[i - 1]].parent == Some(chain[i]) && IsSupervisor(procs[chain[i]]))
  }

  predicate Distinct(s: seq<Pid>) {
    forall i, j | 0 <= i < j < |s| :: s[i] != s[j]
  }

  /** Everything the walk promises: the chain, and on an acyclic table the walk ran to its natural end. */
  predicate WalkResult(procs: map<Pid, Proc>, target: Pid, chain: seq<Pid>) {
    SupervisorChain(procs, target, chain) && (Distinct(chain) ==> WalkStopsAt(procs, chain[|chain| - 1]))
  }

  /** Distinct pids drawn from `keys` number at most `|keys|`. */
  lemma {:induction false} DistinctBound(s: seq<Pid>, keys: set<Pid>)
    requires Distinct(s) && forall i | 0 <= i < |s| :: s[i] in keys
    ensures |s| <= |keys|
    decreases |s|
  {
    if s != [] {
      forall i | 0 <= i < |s| - 1 ensures s[1..][i] in keys - {s[0]} {
        assert s[1..][i] == s[i + 1] != s[0];
      }
      DistinctBound(s[1..], keys - {s[0]});
    }
  }

  /** Inside a chain the walk does not stop: each link's parent is the next supervisor. */
  lemma StopsOnlyAtEnd(procs: map<Pid, Proc>, target: Pid, chain: seq<Pid>)
    requires SupervisorChain(procs, target, chain)
    ensures forall k | 0 <= k < |chain| && WalkStopsAt(procs, chain[k]) :: k == |chain| - 1
  {
    forall k | 0 <= k < |chain| - 1 ensures !WalkStopsAt(procs, chain[k]) {
      assert procs[chain[k]].parent == Some(chain[k + 1]);
    }
  }

  /** Two walks from the same target that both ran to their natural end are the same walk. */
  lemma {:induction false} WalkIsUnique(procs: map<Pid, Proc>, target: Pid, c1: seq<Pid>, c2: seq<Pid>)
    requires SupervisorChain(procs, target, c1) && WalkStopsAt(procs, c1[|c1| - 1])
    requires SupervisorChain(procs, target, c2) && WalkStopsAt(procs, c2[|c2| - 1])
    ensures c1 == c2
  {
    var n := if |c1| < |c2| then |c1| else |c2|;
    var i := 1;
    while i < n
      invariant 1 <= i <= n
      invariant c1[..i] == c2[..i]
    {
      assert c1[i - 1] == c2[i - 1];
      assert c1[..i + 1] == c1[..i] + [c1[i]] && c2[..i + 1] == c2[..i] + [c2[i]];
      i := i + 1;
    }
    assert c1[n - 1] == c2[n - 1];
    StopsOnlyAtEnd(procs, target, c1);
    StopsOnlyAtEnd(procs, target, c2);
    assert c1 == c1[..n] && c2 == c2[..n];
  }

  /**
    The supervisor walk: `to_kill` starts with the target and climbs the
    parent chain while the parent is a supervisor. The source loops for as
    long as that holds; the model gives the loop |procs| steps, which only a
    cycle of parent links can exhaust.
  */
  method CollectSupervisors(procs: map<Pid, Proc>, target: Pid) returns (chain: seq<Pid>)
    requires target in procs
    ensures WalkResult(procs, target, chain)
    ensures |chain| <= |procs| + 1
  {
    chain := [target];
    var current := target;
    var fuel := |procs|;
    while fuel > 0
      invariant SupervisorChain(procs, target, chain)
      invariant current == chain[|chain| - 1]
      invariant 0 <= fuel && |chain| + fuel == |procs| + 1
    {
      var parent := procs[current].parent;
      if parent.None? || parent.value !in procs || !IsSupervisor(procs[parent.value]) {
        return;
      }
      chain := chain + [parent.value];
      current := parent.value;
      fuel := fuel - 1;
    }
    if Distinct(chain) {
      DistinctBound(chain, procs.Keys);
      assert false;
    }
  }

  /** The sweep's test: a python process running run.py from the toolkit directory. */
  predicate IsWorker(p: Proc, toolkitDir: string) {
    Contains(p.name, "python") && Contains(CommandLine(p), "run.py") && Contains(CommandLine(p), toolkitDir)
  }

  predicate Increasing(s: seq<Pid>) {
    forall i, j | 0 <= i < j < |s| :: s[i] < s[j]
  }

  /** Exactly the workers of `table`, in ascending pid order (the order `process_iter` visits). */
  predicate SweepResult(table: map<Pid, Proc>, toolkitDir: string, swept: seq<Pid>) {
    && Increasing(swept)
    && (forall i | 0 <= i < |swept| :: swept[i] in table && IsWorker(table[swept[i]], toolkitDir))
    && (forall p | p in table && IsWorker(table[p], toolkitDir) :: p in swept)
  }

  predicate IsLeast(s: set<Pid>, p: Pid) {
    p in s && forall q | q in s :: p <= q
  }

  /** A set of pids holding `x` has a least element. */
  lemma {:induction false} HasMinimum(s: set<Pid>, x: Pid)
    requires x in s
    ensures exists m :: IsLeast(s, m)
    decreases |s|
  {
    var rest := s - {x};
    if y :| y in rest {
      HasMinimum(rest, y);
      var m :| IsLeast(rest, m);
      var least := if x < m then x else m;
      forall z | z in s ensures least <= z {
        if z != x {
          assert z in rest;
        }
      }
      assert IsLeast(s, least);
    } else {
      forall z | z in s ensures x <= z {
        assert z !in rest;
      }
      assert IsLeast(s, x);
    }
  }

  /** The pids of `keys` in ascending order: the order in which `process_iter` visits the table. */
  method Ascending(keys: set<Pid>) returns (order: seq<Pid>)
    ensures Increasing(order)
    ensures forall i | 0 <= i < |order| :: order[i] in keys
    ensures forall p | p in keys :: p in order
  {
    var remaining := keys;
    order := [];
    while true
      invariant remaining <= keys
      invariant Increasing(order)
      invariant forall i | 0 <= i < |order| :: order[i] in keys && order[i] !in remaining
      invariant forall p | p in keys && p !in remaining :: p in order
      invariant forall i, q | 0 <= i < |order| && q in remaining :: order[i] < q
      decreases |remaining|
    {
      if p :| p in remaining && IsLeast(remaining, p) {
        order := order + [p];
        remaining := remaining - {p};
      } else {
        break;
      }
    }
    forall p | p in keys ensures p in order {
      if p in remaining {
        HasMinimum(remaining, p);
        assert false;
      }
    }
  }

  /** The worker sweep over the process table `table` as `process_iter` sees it. */
  method SweepWorkers(table: map<Pid, Proc>, toolkitDir: string) returns (swept: seq<Pid>)
    ensures SweepResult(table, toolkitDir, swept)
  {
    var order := Ascending(table.Keys);
    ghost var workers := set p | p in table && IsWorker(table[p], toolkitDir);
    swept := [];
    var i := 0;
    while i < |order|
      invariant 0 <= i <= |order|
      invariant Increasing(swept)
      invariant forall k | 0 <= k < |swept| :: swept[k] in workers
      invariant forall k, j | 0 <= k < |swept| && i <= j < |order| :: swept[k] < order[j]
      invariant forall j | 0 <= j < i && order[j] in workers :: order[j] in swept
    {
      if IsWorker(table[order[i]], toolkitDir) {
        assert order[i] in workers;
        assert forall j | i < j < |order| :: order[i] < order[j];
        swept := swept + [order[i]];
      } else {
        assert order[i] !in workers;
      }
      i := i + 1;
    }
    forall p | p in table && IsWorker(table[p], toolkitDir) ensures p in swept {
      assert p in workers;
      var j :| 0 <= j < |order| && order[j] == p;
    }
  }

  /**
    The index of the first pid in `pids` whose `kill()` psutil refuses with
    AccessDenied (`denied`: the processes of other users), or `|pids|` when
    it refuses none.
  */
  function FirstDenied(pids: seq<Pid>, denied: set<Pid>): (k: nat)
    ensures k <= |pids|
    ensures forall j | 0 <= j < k :: pids[j] !in denied
    ensures k < |pids| ==> pids[k] in denied
    decreases |pids|
  {
    if pids == [] || pids[0] in denied then 0 else 1 + FirstDenied(pids[1..], denied)
  }

  /**
    The kill loop over the collected chain: NoSuchProcess is swallowed, but
    AccessDenied escapes and ends the loop after the refused attempt.
  */
  method KillChain(chain: seq<Pid>, denied: set<Pid>) returns (signals: seq<Effect>, refused: Option<Pid>)
    ensures refused.None? <==> forall j | 0 <= j < |chain| :: chain[j] !in denied
    ensures refused.None? ==> signals == KillEach(chain)
    ensures refused.Some? ==>
      var k := FirstDenied(chain, denied);
      k < |chain| && refused.value == chain[k] && refused.value in denied && signals == KillEach(chain[..k + 1])
  {
    var i := 0;
    while i < |chain|
      invariant 0 <= i <= |chain|
      invariant forall j | 0 <= j < i :: chain[j] !in denied
    {
      if chain[i] in denied {
        assert FirstDenied(chain, denied) == i;
        return KillEach(chain[..i + 1]), Some(chain[i]);
      }
      i := i + 1;
    }
    return KillEach(chain), None;
  }

  datatype StopOutcome =
    | NothingOnPort
    | Stopped(chain: seq<Pid>, workers: seq<Pid>)
      /** `p.kill()` raised AccessDenied on `pid` of `chain`, which `stop` does not catch: the command fails there. */
    | Refused(chain: seq<Pid>, pid: Pid)

  /**
    `stop`. `s` is the host when the port is probed, `sweep` the process
    table when the sweep runs, `pidFile` the PID marker (None: absent),
    `denied` the processes whose `kill()` psutil refuses.
  */
  method Stop(home: string, s: Snapshot, sweep: map<Pid, Proc>, pidFile: Option<string>, denied: set<Pid>)
    returns (outcome: StopOutcome, effects: seq<Effect>)
    ensures PortOccupant(s, Port).None? ==>
      outcome == NothingOnPort && effects == RemoveIfPresent(PidPath, pidFile)
    ensures PortOccupant(s, Port).Some? ==>
      && !outcome.NothingOnPort?
      && WalkResult(s.procs, PortOccupant(s, Port).value, outcome.chain)
      && (outcome.Stopped? <==> forall j | 0 <= j < |outcome.chain| :: outcome.chain[j] !in denied)
      && (outcome.Stopped? ==>
            && SweepResult(sweep, ToolkitDir(home), outcome.workers)
            && effects == KillEach(outcome.chain) + KillEach(outcome.workers) + RemoveIfPresent(PidPath, pidFile))
      && (outcome.Refused? ==>
            var k := FirstDenied(outcome.chain, denied);
            && k < |outcome.chain| && outcome.pid == outcome.chain[k] && outcome.pid in denied
            && effects == KillEach(outcome.chain[..k + 1]))
    ensures outcome.Refused? ==> FileAfter(PidPath, pidFile, effects) == pidFile
    ensures !outcome.Refused? ==> FileAfter(PidPath, pidFile, effects) == None
    ensures SignalsOnly(effects, SigKill)
  {
    var target := PortOccupant(s, Port);
    if target.None? {
      return NothingOnPort, RemoveIfPresent(PidPath, pidFile);
    }
    var chain := CollectSupervisors(s.procs, target.value);
    var signals, refused := KillChain(chain, denied);
    if refused.Some? {
      KillsLeaveFile(PidPath, pidFile, chain[..FirstDenied(chain, denied) + 1]);
      return Refused(chain, refused.value), signals;
    }
    var workers := SweepWorkers(sweep, ToolkitDir(home));
    KillEachAppend(chain, workers);
    KillsThenRemove(PidPath, pidFile, chain + workers);
    outcome, effects := Stopped(chain, workers), KillEach(chain) + KillEach(workers) + RemoveIfPresent(PidPath, pidFile);
  }
}
