/** The five seconds between a start and the next restart, and the poll that waits for them. */
module Delays {
  import opened CrashWindow
  import opened Services
  import opened Commands

  /** A waiting service goes on waiting exactly while five seconds have not passed since its last
      start: until then it may only bring the planned time forward, and then it is started. */
  lemma {:induction false} RestartIffDue(st: State, i: nat, p: Plan)
    requires i < |st.svcs| && st.svcs[i].restarting
    ensures var r := RestartIfNeeded(st, i, p); var next := st.svcs[i].started + 5;
            var later := st.(clock := st.clock + p.elapsed);
            && (r.svcs[i].restarting <==> next > later.clock)
            && (if next > later.clock then
                  r == later.(needsRestart := if st.needsRestart == 0 then next else if next < st.needsRestart
                                              then next else st.needsRestart)
                else
                  r == Exec(later.(svcs := st.svcs[i := st.svcs[i].(restarting := false)]),
                            Start(i, false, p.env, p.nested)))
  {
    var s := Set(st.(clock := st.clock + p.elapsed), i, st.svcs[i].(restarting := false));
    StartAffects(s, i, false, p.env, p.nested, i);
  }

  /** Starting a service that runs already forgets when it was started: when it exits, its restart is
      due at once. */
  lemma {:induction false} StartWhileRunning(st: State, i: nat, env: Env, elapsed: nat, p: Plan)
    requires Inv(st) && i < |st.svcs| && st.svcs[i].running && !st.svcs[i].oneshot
    requires !OverThreshold(st.svcs[i], st.clock + elapsed) && st.clock >= RESTART_DELAY
    ensures var exited := Reap(Exec(st, Start(i, false, env, Done)), st.svcs[i].pid, elapsed, Done, Done);
            && i < |exited.svcs| && exited.svcs[i].restarting
            && !RestartIfNeeded(exited, i, p).svcs[i].restarting
  {
    var s := st.svcs[i];
    assert SvcOk(s, st.clock);
    var started := Exec(st, Start(i, false, env, Done));
    assert s.(disabled := false, restarting := false, started := 0) == s.(started := 0);
    assert StartService(st, i, false, env, Done) == BeginStart(st, i, false, env).0;
    assert started == st.(svcs := st.svcs[i := s.(started := 0)]);
    FoundAt(started.svcs, i, st.svcs);
    var t := Crashed(Exited(s.(started := 0)), st.clock + elapsed).(restarting := true);
    assert AfterExit(s.(started := 0), st.clock + elapsed) == (t, NowRestarting);
    var exited := BeginReap(started, s.pid, i, elapsed);
    assert Run(exited, Done) == exited;
    assert Reap(started, s.pid, elapsed, Done, Done) == exited;
    RestartIffDue(exited, i, p);
  }

  // ---------- a restart round ----------

  lemma {:induction false} RestartFromServes(st: State, i: nat, plans: seq<Plan>, k: nat)
    requires i <= |st.svcs| && k < |st.svcs|
    requires st.svcs[k].restarting ==> k >= i && st.svcs[k].started + 5 <= st.clock
    ensures !RestartFrom(st, i, plans).svcs[k].restarting
    decreases |st.svcs| - i
  {
    if i < |st.svcs| {
      if st.svcs[i].restarting {
        var p := PlanAt(plans, i);
        RestartIffDue(st, i, p);
        RestartIfNeededAffects(st, i, p, k);
        RestartFromServes(RestartIfNeeded(st, i, p), i + 1, plans, k);
      } else {
        RestartFromServes(st, i + 1, plans, k);
      }
    }
  }

  /** Where the planned time comes from. */
  lemma {:induction false} PlannedFor(st: State, i: nat, plans: seq<Plan>)
    requires i <= |st.svcs|
    ensures var r := RestartFrom(st, i, plans);
            || r.needsRestart == st.needsRestart
            || exists k :: i <= k < |st.svcs| && st.svcs[k].restarting && r.needsRestart == st.svcs[k].started + 5
    decreases |st.svcs| - i
  {
    if i < |st.svcs| {
      if !st.svcs[i].restarting {
        PlannedFor(st, i + 1, plans);
      } else {
        var p := PlanAt(plans, i);
        var next := RestartIfNeeded(st, i, p);
        RestartIffDue(st, i, p);
        PlannedFor(next, i + 1, plans);
        var r := RestartFrom(next, i + 1, plans);
        if r.needsRestart != next.needsRestart {
          var k :| i + 1 <= k < |next.svcs| && next.svcs[k].restarting
                   && r.needsRestart == next.svcs[k].started + 5;
          RestartIfNeededAffects(st, i, p, k);
        } else if r.needsRestart != st.needsRestart {
          assert r.needsRestart == st.svcs[i].started + 5;
        }
      }
    }
  }

  lemma {:induction false} NothingToRestart(st: State, i: nat, plans: seq<Plan>)
    requires i <= |st.svcs| && forall k :: i <= k < |st.svcs| ==> !st.svcs[k].restarting
    ensures RestartFrom(st, i, plans) == st
    decreases |st.svcs| - i
  {
    if i < |st.svcs| {
      NothingToRestart(st, i + 1, plans);
    }
  }

  /** A restart round: whoever is due at its start no longer waits at its end, and a round without a
      waiting service does nothing. */
  lemma {:induction false} RoundServesAllDue(st: State, plans: seq<Plan>, elapsed: nat, k: nat)
    requires !st.rebooted && k < |st.svcs|
    ensures var r := Step(st, Restarts(plans, elapsed));
            && |r.svcs| == |st.svcs|
            && (st.svcs[k].started + 5 <= st.clock ==> !r.svcs[k].restarting)
            && ((forall j :: 0 <= j < |st.svcs| ==> !st.svcs[j].restarting) ==> r == st.(needsRestart := 0))
  {
    var start := st.(needsRestart := 0);
    assert |RestartFrom(start, 0, plans).svcs| == |st.svcs|;
    if st.svcs[k].started + 5 <= st.clock {
      RestartFromServes(start, 0, plans, k);
    }
    if forall j :: 0 <= j < |st.svcs| ==> !st.svcs[j].restarting {
      NothingToRestart(start, 0, plans);
    }
  }

  /** The poll waits without end when no service waited, and only when none waits any more. Otherwise
      it waits for the time that one of the services that waited is due, not at all when that is past. */
  lemma {:induction false} PollExactly(st: State, plans: seq<Plan>, elapsed: nat)
    requires Inv(st) && !st.rebooted
    ensures var r := Step(st, Restarts(plans, elapsed)); var polls := PollOf(st, Restarts(plans, elapsed));
            && |polls| == 1 && |r.svcs| == |st.svcs| && var t := polls[0];
            && t >= -1
            && ((forall k :: 0 <= k < |st.svcs| ==> !st.svcs[k].restarting) ==> t == -1)
            && (t == -1 ==> forall k :: 0 <= k < |r.svcs| ==> !r.svcs[k].restarting)
            && (t != -1 ==> exists k :: 0 <= k < |st.svcs| && st.svcs[k].restarting
                              && t == if st.svcs[k].started + 5 <= r.clock then 0
                                      else 1000 * (st.svcs[k].started + 5 - r.clock))
  {
    var r := RestartProcesses(st, plans);
    PollAfter(st, plans, r.clock);
    PollAfter(st, plans, r.clock + elapsed);
  }

  lemma {:induction false} PollAfter(st: State, plans: seq<Plan>, now: int)
    requires Inv(st) && now >= RestartProcesses(st, plans).clock
    ensures var r := RestartProcesses(st, plans); var t := PollTimeout(r.needsRestart, now);
            && t >= -1
            && ((forall k :: 0 <= k < |st.svcs| ==> !st.svcs[k].restarting) ==> t == -1)
            && (t == -1 ==> forall k :: 0 <= k < |r.svcs| ==> !r.svcs[k].restarting)
            && (t != -1 ==> exists k :: 0 <= k < |st.svcs| && st.svcs[k].restarting
                              && t == if st.svcs[k].started + 5 <= now then 0
                                      else 1000 * (st.svcs[k].started + 5 - now))
  {
    var r := RestartProcesses(st, plans);
    PlannedFor(st.(needsRestart := 0), 0, plans);
    if r.needsRestart != 0 {
      var k :| 0 <= k < |st.svcs| && st.svcs[k].restarting && r.needsRestart == st.svcs[k].started + 5;
      assert SvcOk(st.svcs[k], st.clock);
    } else {
      forall k | 0 <= k < |r.svcs|
        ensures !r.svcs[k].restarting
      {
        if r.svcs[k].restarting {
          PollNeverOversleeps(st, plans, now, k);
        }
      }
    }
  }

  // ---------- no restart before five seconds have passed ----------

  /** No command in here, however deeply nested, starts service i, not even with its class. */
  predicate Spares(op: Op, i: nat)
    decreases op, 1
  {
    match op
    case Start(j, _, _, nested) => j != i && AllSpare(nested, i)
    case StartUnlessDisabled(j, _, nested) => j != i && AllSpare(nested, i)
    case Stop(_, nested) => AllSpare(nested, i)
    case Restart(j, stopped, _, nested) => j != i && AllSpare(stopped, i) && AllSpare(nested, i)
    case ForkOther(_) => true
  }

  predicate AllSpare(ops: Ops, i: nat)
    decreases ops, 0
  {
    match ops
    case Done => true
    case Then(op, rest) => Spares(op, i) && AllSpare(rest, i)
  }

  predicate EventSpares(e: Event, i: nat) {
    match e
    case Commands(ops) => AllSpare(ops, i)
    case Exit(_, _, onrestart, nested) => AllSpare(onrestart, i) && AllSpare(nested, i)
    case Restarts(plans, _) => forall k :: 0 <= k < |plans| ==> AllSpare(plans[k].nested, i)
  }

  /** All that commands can do to a service they do not start is to stop it. */
  predicate AsItWasOrStopped(s: Svc, t: Svc) {
    t == s || t == s.(running := false, restarting := false, disabled := true)
  }

  lemma {:induction false} StartSpares(st: State, j: nat, dynamicArgs: bool, env: Env, nested: Ops, i: nat)
    requires i < |st.svcs| && j < |st.svcs| && j != i && AllSpare(nested, i)
    ensures AsItWasOrStopped(st.svcs[i], StartService(st, j, dynamicArgs, env, nested).svcs[i])
    decreases nested, 1
  {
    var (next, announced) := BeginStart(st, j, dynamicArgs, env);
    assert next.svcs[i] == st.svcs[i];
    if announced {
      RunSpares(next, nested, i);
    }
  }

  lemma {:induction false} StopSpares(st: State, j: nat, nested: Ops, i: nat)
    requires i < |st.svcs| && j < |st.svcs| && AllSpare(nested, i)
    ensures AsItWasOrStopped(st.svcs[i], Run(BeginStop(st, j), nested).svcs[i])
    decreases nested, 1
  {
    RunSpares(BeginStop(st, j), nested, i);
  }

  lemma {:induction false} ExecSpares(st: State, op: Op, i: nat)
    requires i < |st.svcs| && Spares(op, i)
    ensures AsItWasOrStopped(st.svcs[i], Exec(st, op).svcs[i])
    decreases op, 2
  {
    match op
    case Start(j, dynamicArgs, env, nested) =>
      if j < |st.svcs| {
        StartSpares(st, j, dynamicArgs, env, nested, i);
      }
    case StartUnlessDisabled(j, env, nested) =>
      if j < |st.svcs| && !st.svcs[j].disabled {
        StartSpares(st, j, false, env, nested, i);
      }
    case Stop(j, nested) =>
      if j < |st.svcs| {
        StopSpares(st, j, nested, i);
      }
    case Restart(j, stopped, env, nested) =>
      if j < |st.svcs| {
        StopSpares(st, j, stopped, i);
        StartSpares(Run(BeginStop(st, j), stopped), j, false, env, nested, i);
      }
    case ForkOther(fork) =>
  }

  lemma {:induction false} RunSpares(st: State, ops: Ops, i: nat)
    requires i < |st.svcs| && AllSpare(ops, i)
    ensures AsItWasOrStopped(st.svcs[i], Run(st, ops).svcs[i])
    decreases ops, 0
  {
    match ops
    case Done =>
    case Then(op, rest) =>
      ExecSpares(st, op, i);
      RunSpares(Exec(st, op), rest, i);
  }

  /** It still runs as the process `p` started at `since`, or waits after that start, or neither. */
  predicate Since(s: Svc, p: int, since: int) {
    (s.running ==> s.pid == p) && (s.running || s.restarting ==> s.started == since)
  }

  /** A step that does not start the service again. */
  predicate NotAgain(s: Svc, t: Svc, p: int, since: int) {
    Since(t, p, since) && (!s.running ==> !t.running)
  }

  lemma {:induction false} BeginReapSpares(st: State, pid: int, j: nat, elapsed: nat, i: nat, p: int, since: int)
    requires Inv(st) && i < |st.svcs| && j == FindByPid(st.svcs, pid) < |st.svcs|
    requires pid > 0 && Since(st.svcs[i], p, since)
    ensures var r := BeginReap(st, pid, j, elapsed);
            && |r.svcs| == |st.svcs| && r.clock >= st.clock
            && NotAgain(st.svcs[i], r.svcs[i], p, since) && (pid == p ==> !r.svcs[i].running)
  {
    assert SvcOk(st.svcs[i], st.clock);
    if pid == p && st.svcs[i].running {
      RunningKnown(st, i);
    }
  }

  lemma {:induction false} ReapSpares(st: State, pid: int, elapsed: nat, onrestart: Ops, nested: Ops, i: nat,
                                      p: int, since: int)
    requires Inv(st) && i < |st.svcs| && Since(st.svcs[i], p, since)
    requires AllSpare(onrestart, i) && AllSpare(nested, i)
    ensures var r := Reap(st, pid, elapsed, onrestart, nested);
            && |r.svcs| == |st.svcs| && r.clock >= st.clock
            && NotAgain(st.svcs[i], r.svcs[i], p, since) && (pid == p ==> !r.svcs[i].running)
  {
    hide AfterExit, BeginReap, FindByPid, Inv, Exited, Crashed, OverThreshold;
    var j := FindByPid(st.svcs, pid);
    if pid in st.children && pid > 0 && j < |st.svcs| {
      BeginReapSpares(st, pid, j, elapsed, i, p, since);
      var next := BeginReap(st, pid, j, elapsed);
      RunSpares(next, nested, i);
      RunSpares(next, onrestart, i);
      RunSpares(Run(next, onrestart), nested, i);
    } else if pid == p && st.svcs[i].running {
      RunningKnown(st, i);
    }
  }

  /** A running service is a child and on record. */
  lemma {:induction false} RunningKnown(st: State, i: nat)
    requires Inv(st) && i < |st.svcs| && st.svcs[i].running
    ensures var p := st.svcs[i].pid; p > 0 && p in st.children && FindByPid(st.svcs, p) == i
  {
    assert SvcOk(st.svcs[i], st.clock);
    FoundAt(st.svcs, i, st.svcs);
  }

  lemma {:induction false} RestartFromSpares(st: State, j: nat, plans: seq<Plan>, i: nat, p: int, since: int)
    requires i < |st.svcs| && j <= |st.svcs| && Since(st.svcs[i], p, since)
    requires forall k :: 0 <= k < |plans| ==> AllSpare(plans[k].nested, i)
    ensures var r := RestartFrom(st, j, plans);
            r.clock >= since + 5 || NotAgain(st.svcs[i], r.svcs[i], p, since)
    decreases |st.svcs| - j
  {
    if j < |st.svcs| {
      if st.svcs[j].restarting {
        var plan := PlanAt(plans, j);
        var r := RestartIfNeeded(st, j, plan);
        if j != i {
          var s := Set(st.(clock := st.clock + plan.elapsed), j, st.svcs[j].(restarting := false));
          StartSpares(s, j, false, plan.env, plan.nested, i);
        }
        if r.clock < since + 5 {
          RestartFromSpares(r, j + 1, plans, i, p, since);
        }
      } else {
        RestartFromSpares(st, j + 1, plans, i, p, since);
      }
    }
  }

  lemma {:induction false} StepSpares(st: State, e: Event, i: nat, p: int, since: int)
    requires Inv(st) && i < |st.svcs| && EventSpares(e, i) && Since(st.svcs[i], p, since)
    ensures var r := Step(st, e);
            && |r.svcs| == |st.svcs| && r.clock >= st.clock
            && (r.clock >= since + 5 || NotAgain(st.svcs[i], r.svcs[i], p, since))
            && (!st.rebooted && e.Exit? && e.pid == p ==> !r.svcs[i].running)
  {
    if !st.rebooted {
      match e
      case Commands(ops) => RunSpares(st, ops, i);
      case Exit(pid, elapsed, onrestart, nested) =>
        ReapSpares(st, pid, elapsed, onrestart, nested, i, p, since);
      case Restarts(plans, elapsed) => RestartFromSpares(st.(needsRestart := 0), 0, plans, i, p, since);
    }
  }

  lemma {:induction false} StepsClock(st: State, events: seq<Event>)
    ensures |Steps(st, events).svcs| == |st.svcs| && Steps(st, events).clock >= st.clock
    decreases |events|
  {
    if events != [] {
      StepClock(st, events[0]);
      StepsClock(Step(st, events[0]), events[1..]);
    }
  }

  lemma {:induction false} StepClock(st: State, e: Event)
    ensures |Step(st, e).svcs| == |st.svcs| && Step(st, e).clock >= st.clock
  {
  }

  lemma {:induction false} IdleStays(st: State, events: seq<Event>, i: nat, p: int, since: int)
    requires Inv(st) && i < |st.svcs| && Since(st.svcs[i], p, since) && !st.svcs[i].running
    requires forall k :: 0 <= k < |events| ==> EventSpares(events[k], i)
    ensures var r := Steps(st, events);
            |r.svcs| == |st.svcs| && (r.clock < since + 5 ==> !r.svcs[i].running)
    decreases |events|
  {
    StepsClock(st, events);
    if events != [] {
      StepSpares(st, events[0], i, p, since);
      StepsClock(Step(st, events[0]), events[1..]);
      if Steps(st, events).clock < since + 5 {
        StepKeeps(st, events[0]);
        IdleStays(Step(st, events[0]), events[1..], i, p, since);
      }
    }
  }

  lemma {:induction false} ExitThenIdle(st: State, events: seq<Event>, n: nat, i: nat, p: int, since: int)
    requires Inv(st) && i < |st.svcs| && Since(st.svcs[i], p, since)
    requires forall k :: 0 <= k < |events| ==> EventSpares(events[k], i)
    requires n < |events| && events[n].Exit? && events[n].pid == p && !Steps(st, events[..n]).rebooted
    ensures var r := Steps(st, events);
            |r.svcs| == |st.svcs| && (r.clock < since + 5 ==> !r.svcs[i].running)
    decreases n
  {
    StepsClock(st, events);
    var next := Step(st, events[0]);
    StepSpares(st, events[0], i, p, since);
    StepsClock(next, events[1..]);
    if Steps(st, events).clock < since + 5 {
      StepKeeps(st, events[0]);
      if n == 0 {
        IdleStays(next, events[1..], i, p, since);
      } else {
        assert events[..n][1..] == events[1..][..n - 1];
        ExitThenIdle(next, events[1..], n - 1, i, p, since);
      }
    }
  }

  /** Once the process of a start has exited, whatever else happens before and after, the service does
      not run before five seconds have passed since that start, unless a command starts it. */
  lemma {:induction false} NoForkBeforeDelay(st: State, i: nat, env: Env, events: seq<Event>, n: nat)
    requires Inv(st) && i < |st.svcs| && !st.svcs[i].running
    requires (st.svcs[i].console ==> st.hasConsole) && env.executable && env.fork > 0 && env.fork !in st.children
    requires forall k :: 0 <= k < |events| ==> EventSpares(events[k], i)
    requires n < |events| && events[n].Exit? && events[n].pid == env.fork
    ensures var first := Exec(st, Start(i, false, env, Done)); var r := Steps(first, events);
            |r.svcs| == |st.svcs| &&
            (!Steps(first, events[..n]).rebooted && r.clock < first.clock + 5 ==> !r.svcs[i].running)
  {
    var first := Exec(st, Start(i, false, env, Done));
    StartExactly(st, i, false, env);
    ExecKeeps(st, Start(i, false, env, Done));
    StepsClock(first, events);
    if !Steps(first, events[..n]).rebooted {
      ExitThenIdle(first, events, n, i, env.fork, first.clock);
    }
  }
}
