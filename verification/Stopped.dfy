/** Services that have been stopped or disabled, and the delay before a restart. */
module Stopped {
  import opened Services
  import opened Commands

  predicate Down(s: Svc) {
    s.disabled && !s.running && !s.restarting
  }

  /** It is still down, and what became of its old process has not been noticed. */
  predicate Left(s: Svc, t: Svc) {
    Down(t) && t.pid == s.pid && t.console == s.console
  }

  /** No command in here, however deeply nested, starts service i by name. */
  predicate Leaves(op: Op, i: nat)
    decreases op, 1
  {
    match op
    case Start(j, _, _, nested) => j != i && AllLeave(nested, i)
    case StartUnlessDisabled(_, _, nested) => AllLeave(nested, i)
    case Stop(_, nested) => AllLeave(nested, i)
    case Restart(j, stopped, _, nested) => j != i && AllLeave(stopped, i) && AllLeave(nested, i)
    case ForkOther(_) => true
  }

  predicate AllLeave(ops: Ops, i: nat)
    decreases ops, 0
  {
    match ops
    case Done => true
    case Then(op, rest) => Leaves(op, i) && AllLeave(rest, i)
  }

  predicate EventLeaves(e: Event, i: nat) {
    match e
    case Commands(ops) => AllLeave(ops, i)
    case Exit(_, _, onrestart, nested) => AllLeave(onrestart, i) && AllLeave(nested, i)
    case Restarts(plans, _) => forall k :: 0 <= k < |plans| ==> AllLeave(plans[k].nested, i)
  }

  lemma {:induction false} StartStaysDown(st: State, j: nat, dynamicArgs: bool, env: Env, nested: Ops, i: nat)
    requires i < |st.svcs| && j < |st.svcs| && j != i && Down(st.svcs[i]) && AllLeave(nested, i)
    ensures Left(st.svcs[i], StartService(st, j, dynamicArgs, env, nested).svcs[i])
    decreases nested, 1
  {
    var (next, announced) := BeginStart(st, j, dynamicArgs, env);
    assert next.svcs[i] == st.svcs[i];
    if announced {
      RunStaysDown(next, nested, i);
    }
  }

  lemma {:induction false} StopStaysDown(st: State, j: nat, nested: Ops, i: nat)
    requires i < |st.svcs| && j < |st.svcs| && Down(st.svcs[i]) && AllLeave(nested, i)
    ensures Left(st.svcs[i], Run(BeginStop(st, j), nested).svcs[i])
    decreases nested, 1
  {
    RunStaysDown(BeginStop(st, j), nested, i);
  }

  lemma {:induction false} ExecStaysDown(st: State, op: Op, i: nat)
    requires i < |st.svcs| && Down(st.svcs[i]) && Leaves(op, i)
    ensures Left(st.svcs[i], Exec(st, op).svcs[i])
    decreases op, 2
  {
    match op
    case Start(j, dynamicArgs, env, nested) =>
      if j < |st.svcs| {
        StartStaysDown(st, j, dynamicArgs, env, nested, i);
      }
    case StartUnlessDisabled(j, env, nested) =>
      if j < |st.svcs| && !st.svcs[j].disabled {
        StartStaysDown(st, j, false, env, nested, i);
      }
    case Stop(j, nested) =>
      if j < |st.svcs| {
        StopStaysDown(st, j, nested, i);
      }
    case Restart(j, stopped, env, nested) =>
      if j < |st.svcs| {
        StopStaysDown(st, j, stopped, i);
        StartStaysDown(Run(BeginStop(st, j), stopped), j, false, env, nested, i);
      }
    case ForkOther(fork) =>
  }

  lemma {:induction false} RunStaysDown(st: State, ops: Ops, i: nat)
    requires i < |st.svcs| && Down(st.svcs[i]) && AllLeave(ops, i)
    ensures Left(st.svcs[i], Run(st, ops).svcs[i])
    decreases ops, 0
  {
    match ops
    case Done =>
    case Then(op, rest) =>
      ExecStaysDown(st, op, i);
      RunStaysDown(Exec(st, op), rest, i);
  }

  lemma {:induction false} ReapStaysDown(st: State, pid: int, elapsed: nat, onrestart: Ops, nested: Ops, i: nat)
    requires i < |st.svcs| && Down(st.svcs[i]) && AllLeave(onrestart, i) && AllLeave(nested, i)
    ensures i < |Reap(st, pid, elapsed, onrestart, nested).svcs|
    ensures Down(Reap(st, pid, elapsed, onrestart, nested).svcs[i])
  {
    var j := FindByPid(st.svcs, pid);
    if pid in st.children && pid > 0 && j < |st.svcs| {
      var next := BeginReap(st, pid, j, elapsed);
      assert Down(next.svcs[i]);
      RunStaysDown(next, nested, i);
      RunStaysDown(next, onrestart, i);
      RunStaysDown(Run(next, onrestart), nested, i);
    }
  }

  lemma {:induction false} RestartStaysDown(st: State, j: nat, p: Plan, i: nat)
    requires i < |st.svcs| && j < |st.svcs| && j != i && Down(st.svcs[i]) && AllLeave(p.nested, i)
    ensures Down(RestartIfNeeded(st, j, p).svcs[i])
  {
    var s := Set(st.(clock := st.clock + p.elapsed), j, st.svcs[j].(restarting := false));
    StartStaysDown(s, j, false, p.env, p.nested, i);
  }

  lemma {:induction false} RestartFromStaysDown(st: State, j: nat, plans: seq<Plan>, i: nat)
    requires i < |st.svcs| && j <= |st.svcs| && Down(st.svcs[i])
    requires forall k :: 0 <= k < |plans| ==> AllLeave(plans[k].nested, i)
    ensures Down(RestartFrom(st, j, plans).svcs[i])
    decreases |st.svcs| - j
  {
    if j < |st.svcs| {
      if st.svcs[j].restarting {
        RestartStaysDown(st, j, PlanAt(plans, j), i);
        RestartFromStaysDown(RestartIfNeeded(st, j, PlanAt(plans, j)), j + 1, plans, i);
      } else {
        RestartFromStaysDown(st, j + 1, plans, i);
      }
    }
  }

  lemma {:induction false} StepStaysDown(st: State, e: Event, i: nat)
    requires i < |st.svcs| && Down(st.svcs[i]) && EventLeaves(e, i)
    ensures i < |Step(st, e).svcs| && Down(Step(st, e).svcs[i])
  {
    if !st.rebooted {
      match e
      case Commands(ops) => RunStaysDown(st, ops, i);
      case Exit(pid, elapsed, onrestart, nested) => ReapStaysDown(st, pid, elapsed, onrestart, nested, i);
      case Restarts(plans, _) => RestartFromStaysDown(st.(needsRestart := 0), 0, plans, i);
    }
  }

  lemma {:induction false} DownStays(st: State, events: seq<Event>, i: nat)
    requires i < |st.svcs| && Down(st.svcs[i]) && forall k :: 0 <= k < |events| ==> EventLeaves(events[k], i)
    ensures i < |Steps(st, events).svcs| && Down(Steps(st, events).svcs[i])
    decreases |events|
  {
    if events != [] {
      StepStaysDown(st, events[0], i);
      DownStays(Step(st, events[0]), events[1..], i);
    }
  }

  /** A stop command stops its service, whatever it sets off, and keeps the pid of the process. */
  lemma {:induction false} StopStops(st: State, i: nat, nested: Ops)
    requires i < |st.svcs| && AllLeave(nested, i)
    ensures Left(st.svcs[i], Exec(st, Stop(i, nested)).svcs[i])
  {
    RunStaysDown(BeginStop(st, i), nested, i);
  }

  /** From a stop command on a service is disabled, not running and not waiting for a restart, over
      class starts, exits of its old process and restart rounds, until a command starts it by name. */
  lemma {:induction false} StaysDown(st: State, before: Ops, i: nat, nested: Ops, rest: Ops, events: seq<Event>)
    requires !st.rebooted && i < |st.svcs| && AllLeave(nested, i) && AllLeave(rest, i)
    requires forall k :: 0 <= k < |events| ==> EventLeaves(events[k], i)
    ensures var commands := Event.Commands(Append(before, Then(Stop(i, nested), rest)));
            var r := Steps(Step(st, commands), events);
            i < |r.svcs| && r.svcs[i].disabled && !r.svcs[i].running && !r.svcs[i].restarting
  {
    var stop := Stop(i, nested);
    CommandsInTurn(st, before, stop, rest);
    var mid := Run(st, before);
    StopStops(mid, i, nested);
    RunStaysDown(Exec(mid, stop), rest, i);
    DownStays(Run(Exec(mid, stop), rest), events, i);
  }
}
