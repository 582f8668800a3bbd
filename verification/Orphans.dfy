/** The process that a stop and a start leave behind: no service ever knows it again. */
module Orphans {
  import opened Services
  import opened Stopped

  /** A child that has not been waited for and that no service knows. */
  predicate Lost(st: State, pid: int) {
    pid > 0 && pid in st.children && forall k :: 0 <= k < |st.svcs| ==> st.svcs[k].pid != pid
  }

  lemma BeginStartKeepsLost(st: State, i: nat, dynamicArgs: bool, env: Env, pid: int)
    requires Lost(st, pid) && i < |st.svcs|
    ensures Lost(BeginStart(st, i, dynamicArgs, env).0, pid)
  {
    var r := BeginStart(st, i, dynamicArgs, env).0;
    assert r.svcs[i].pid != pid;
  }

  lemma {:induction false} StartKeepsLost(st: State, i: nat, dynamicArgs: bool, env: Env, nested: Ops, pid: int)
    requires Lost(st, pid) && i < |st.svcs|
    ensures Lost(StartService(st, i, dynamicArgs, env, nested), pid)
    decreases nested, 1
  {
    BeginStartKeepsLost(st, i, dynamicArgs, env, pid);
    var (next, announced) := BeginStart(st, i, dynamicArgs, env);
    if announced {
      RunKeepsLost(next, nested, pid);
    }
  }

  lemma {:induction false} ExecKeepsLost(st: State, op: Op, pid: int)
    requires Lost(st, pid)
    ensures Lost(Exec(st, op), pid)
    decreases op, 2
  {
    match op
    case Start(i, dynamicArgs, env, nested) =>
      if i < |st.svcs| {
        StartKeepsLost(st, i, dynamicArgs, env, nested, pid);
      }
    case StartUnlessDisabled(i, env, nested) =>
      if i < |st.svcs| {
        StartKeepsLost(st, i, false, env, nested, pid);
      }
    case Stop(i, nested) =>
      if i < |st.svcs| {
        RunKeepsLost(BeginStop(st, i), nested, pid);
      }
    case Restart(i, stopped, env, nested) =>
      if i < |st.svcs| {
        RunKeepsLost(BeginStop(st, i), stopped, pid);
        StartKeepsLost(Run(BeginStop(st, i), stopped), i, false, env, nested, pid);
      }
    case ForkOther(fork) =>
  }

  lemma {:induction false} RunKeepsLost(st: State, ops: Ops, pid: int)
    requires Lost(st, pid)
    ensures Lost(Run(st, ops), pid)
    decreases ops, 0
  {
    match ops
    case Done =>
    case Then(op, rest) =>
      ExecKeepsLost(st, op, pid);
      RunKeepsLost(Exec(st, op), rest, pid);
  }

  lemma {:induction false} ReapKeepsLost(st: State, exit: int, elapsed: nat, onrestart: Ops, nested: Ops, pid: int)
    requires Lost(st, pid) && exit != pid
    ensures Lost(Reap(st, exit, elapsed, onrestart, nested), pid)
  {
    var i := FindByPid(st.svcs, exit);
    if exit in st.children && exit > 0 && i < |st.svcs| {
      var next := BeginReap(st, exit, i, elapsed);
      assert next.svcs[i].pid == 0;
      RunKeepsLost(next, nested, pid);
      RunKeepsLost(next, onrestart, pid);
      RunKeepsLost(Run(next, onrestart), nested, pid);
    }
  }

  lemma {:induction false} RestartFromKeepsLost(st: State, i: nat, plans: seq<Plan>, pid: int)
    requires Lost(st, pid) && i <= |st.svcs|
    ensures Lost(RestartFrom(st, i, plans), pid)
    decreases |st.svcs| - i
  {
    if i < |st.svcs| {
      if st.svcs[i].restarting {
        RestartKeepsLost(st, i, PlanAt(plans, i), pid);
        RestartFromKeepsLost(RestartIfNeeded(st, i, PlanAt(plans, i)), i + 1, plans, pid);
      } else {
        RestartFromKeepsLost(st, i + 1, plans, pid);
      }
    }
  }

  lemma {:induction false} RestartKeepsLost(st: State, i: nat, p: Plan, pid: int)
    requires Lost(st, pid) && i < |st.svcs|
    ensures Lost(RestartIfNeeded(st, i, p), pid)
  {
    var due := Set(st.(clock := st.clock + p.elapsed), i, st.svcs[i].(restarting := false));
    StartKeepsLost(due, i, false, p.env, p.nested, pid);
  }

  lemma {:induction false} StepKeepsLost(st: State, e: Event, pid: int)
    requires Lost(st, pid) && !(e.Exit? && e.pid == pid)
    ensures Lost(Step(st, e), pid)
  {
    if !st.rebooted {
      match e
      case Commands(ops) => RunKeepsLost(st, ops, pid);
      case Exit(exit, elapsed, onrestart, nested) => ReapKeepsLost(st, exit, elapsed, onrestart, nested, pid);
      case Restarts(plans, elapsed) => RestartFromKeepsLost(st.(needsRestart := 0), 0, plans, pid);
    }
  }

  lemma {:induction false} StepsKeepLost(st: State, events: seq<Event>, pid: int)
    requires Lost(st, pid) && forall k :: 0 <= k < |events| ==> !(events[k].Exit? && events[k].pid == pid)
    ensures Lost(Steps(st, events), pid)
    decreases |events|
  {
    if events != [] {
      StepKeepsLost(st, events[0], pid);
      StepsKeepLost(Step(st, events[0]), events[1..], pid);
    }
  }

  // ---------- a stop and a start before the wait ----------

  /** The service once its stop and the commands this sets off are over. */
  lemma StoppedFirst(st: State, i: nat, stopped: Ops) returns (mid: State)
    requires Inv(st) && i < |st.svcs| && st.svcs[i].running && AllLeave(stopped, i)
    ensures mid == Run(BeginStop(st, i), stopped) && Inv(mid) && |mid.svcs| == |st.svcs|
    ensures Left(st.svcs[i], mid.svcs[i]) && mid.hasConsole == st.hasConsole
    ensures st.svcs[i].pid > 0 && st.svcs[i].pid in mid.children
    ensures forall k :: 0 <= k < |mid.svcs| && k != i ==> mid.svcs[k].pid != st.svcs[i].pid
  {
    assert SvcOk(st.svcs[i], st.clock);
    mid := Run(BeginStop(st, i), stopped);
    BeginStopKeeps(st, i);
    RunKeeps(BeginStop(st, i), stopped);
    RunStaysDown(BeginStop(st, i), stopped, i);
    forall k | 0 <= k < |mid.svcs| && k != i
      ensures mid.svcs[k].pid != st.svcs[i].pid
    {
      OtherPid(mid, i, k);
    }
  }

  /** The start is refused before fork, and the service keeps the pid; or it gets as far as fork, and
      no service has the pid any more. */
  lemma StartedThen(mid: State, i: nat, env: Env, nested: Ops, p: int)
    requires i < |mid.svcs| && Down(mid.svcs[i]) && mid.svcs[i].pid == p > 0 && p in mid.children
    requires forall k :: 0 <= k < |mid.svcs| && k != i ==> mid.svcs[k].pid != p
    ensures var r := StartService(mid, i, false, env, nested);
            if env.executable && (mid.svcs[i].console ==> mid.hasConsole) then Lost(r, p)
            else p in r.children && r.svcs[i].pid == p
  {
    var (next, announced) := BeginStart(mid, i, false, env);
    if env.executable && (mid.svcs[i].console ==> mid.hasConsole) {
      assert next.svcs[i].pid != p && Lost(next, p);
      if announced {
        RunKeepsLost(next, nested, p);
      }
    }
  }

  lemma LostIsNowhere(st: State, pid: int)
    requires Lost(st, pid)
    ensures FindByPid(st.svcs, pid) == |st.svcs|
  {
  }

  /** Stopping and starting a service before its process has been waited for leaves the old process
      running, whatever the stop and the start set off, as long as nothing in between starts the
      service itself. No service knows it any more exactly when the start gets as far as fork; if fork
      succeeds, the new process runs beside the old one. */
  lemma {:induction false} RestartForksBeside(st: State, i: nat, stopped: Ops, env: Env, nested: Ops)
    requires Inv(st) && i < |st.svcs| && st.svcs[i].running && AllLeave(stopped, i)
    ensures var r := Exec(st, Restart(i, stopped, env, nested)); var p := st.svcs[i].pid;
            var mid := Run(BeginStop(st, i), stopped); var next := BeginStart(mid, i, false, env).0;
            var reachesFork := env.executable && (st.svcs[i].console ==> st.hasConsole);
            && p in r.children
            && (FindByPid(r.svcs, p) == |r.svcs| <==> reachesFork)
            && (reachesFork ==> Lost(r, p))
            && (reachesFork && !ForkFails(mid, env.fork) ==>
                  next.svcs[i].running && next.svcs[i].pid == env.fork != p && env.fork in next.children)
            && (reachesFork && ForkFails(mid, env.fork) ==> next.svcs[i].pid == 0)
  {
    var p, r := st.svcs[i].pid, Exec(st, Restart(i, stopped, env, nested));
    var mid := StoppedFirst(st, i, stopped);
    StartedThen(mid, i, env, nested, p);
    if env.executable && (st.svcs[i].console ==> st.hasConsole) {
      LostIsNowhere(r, p);
    } else if FindByPid(r.svcs, p) == |r.svcs| {
      FindNone(r.svcs, p, i);
    }
  }

  /** The process left behind by a stop and a start stays unknown to every service whatever comes,
      until it exits by itself, and its exit then touches no service. */
  lemma {:induction false} LeftBehind(st: State, i: nat, stopped: Ops, env: Env, nested: Ops, events: seq<Event>,
                                      elapsed: nat, onrestart: Ops, after: Ops)
    requires Inv(st) && i < |st.svcs| && st.svcs[i].running && AllLeave(stopped, i)
    requires env.executable && (st.svcs[i].console ==> st.hasConsole)
    requires forall k :: 0 <= k < |events| ==> !(events[k].Exit? && events[k].pid == st.svcs[i].pid)
    ensures var p := st.svcs[i].pid; var r := Steps(Exec(st, Restart(i, stopped, env, nested)), events);
            && Lost(r, p)
            && Reap(r, p, elapsed, onrestart, after) == r.(children := r.children - {p})
  {
    var p, next := st.svcs[i].pid, Exec(st, Restart(i, stopped, env, nested));
    RestartForksBeside(st, i, stopped, env, nested);
    StepsKeepLost(next, events, p);
    LostIsNowhere(Steps(next, events), p);
  }
}
