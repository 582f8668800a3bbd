/** init's service operations over the service records. `st` is the state the records show. */
module InitCode {
  import opened CrashWindow
  import opened Services
  import opened Delays

  class Service {
    const oneshot: bool
    const console: bool
    const critical: bool
    var disabled: bool
    var running: bool
    var restarting: bool
    var pid: int
    var timeStarted: int
    var timeCrashed: int
    var nrCrashed: nat
    ghost var exits: seq<int>

    constructor (oneshot: bool, console: bool, critical: bool, disabled: bool)
      ensures Value() == Svc(oneshot, console, critical, disabled, false, false, 0, 0, Counter(0, 0), [])
      ensures Fresh(Value())
    {
      this.oneshot, this.console, this.critical, this.disabled := oneshot, console, critical, disabled;
      running, restarting, pid, timeStarted, timeCrashed, nrCrashed, exits := false, false, 0, 0, 0, 0, [];
    }

    ghost function Value(): Svc
      reads this
    {
      Svc(oneshot, console, critical, disabled, running, restarting, pid, timeStarted,
          Counter(timeCrashed, nrCrashed), exits)
    }

    /** service_start up to the announcement; `now` is the time if the clock is read. */
    method TryStart(haveConsole: bool, forkFails: bool, dynamicArgs: bool, env: Env, now: int)
      returns (announce: bool)
      modifies this
      ensures Value() == Started(old(Value()), haveConsole, forkFails, dynamicArgs, env, now).0
      ensures announce == Started(old(Value()), haveConsole, forkFails, dynamicArgs, env, now).1
      ensures announce <==> !old(running) && (console ==> haveConsole) && env.executable
                            && (dynamicArgs ==> oneshot) && !forkFails
      ensures announce ==> running && pid == env.fork && timeStarted == now
    {
      announce := false;
      disabled, restarting := false, false;
      timeStarted := 0;
      if running {
        return;
      }
      if console && !haveConsole {
        disabled := true;
        return;
      }
      if !env.executable {
        disabled := true;
        return;
      }
      if !oneshot && dynamicArgs {
        disabled := true;
        return;
      }
      if forkFails {
        pid := 0;
        return;
      }
      timeStarted := now;
      pid := env.fork;
      running := true;
      announce := true;
    }

    /** The part of wait_for_one_process up to the commands; `now` is the time if the clock is
        read. */
    method ProcessExited(now: int) returns (outcome: Outcome)
      modifies this
      ensures Value() == AfterExit(old(Value()), now).0 && outcome == AfterExit(old(Value()), now).1
    {
      pid := 0;
      running := false;
      if oneshot {
        disabled := true;
      }
      if disabled {
        return NowStopped;
      }
      var over := CountCrash(now);
      if over {
        return NowRebooting;
      }
      restarting := true;
      return NowRestarting;
    }

    /** An exit nobody has asked for; true when the crash counter goes over its threshold. */
    method CountCrash(now: int) returns (over: bool)
      modifies this`timeCrashed, this`nrCrashed, this`exits
      ensures Value() == Crashed(old(Value()), now)
      ensures over == OverThreshold(old(Value()), now)
    {
      exits := exits + [now];
      over := false;
      if critical {
        if timeCrashed + WINDOW >= now {
          nrCrashed := nrCrashed + 1;
          over := nrCrashed > THRESHOLD;
        } else {
          timeCrashed, nrCrashed := now, 1;
        }
      }
    }
  }

  class Init {
    /** The service list, in the order of the definitions. */
    const services: seq<Service>
    const haveConsole: bool
    var children: set<int>
    var clock: int
    var processNeedsRestart: int
    var rebooted: bool

    constructor (list: seq<Service>, hasConsole: bool, now: int)
      requires forall i, j :: 0 <= i < j < |list| ==> list[i] != list[j]
      ensures Valid() && services == list && haveConsole == hasConsole
      ensures children == {} && clock == now && processNeedsRestart == 0 && !rebooted
    {
      services, haveConsole := list, hasConsole;
      children, clock, processNeedsRestart, rebooted := {}, now, 0, false;
    }

    ghost predicate Valid() {
      forall i, j :: 0 <= i < j < |services| ==> services[i] != services[j]
    }

    ghost predicate ShowsAll(svcs: seq<Svc>)
      reads services
    {
      |svcs| == |services| && forall i :: 0 <= i < |services| ==> services[i].Value() == svcs[i]
    }

    ghost predicate Shows(st: State)
      reads this, services
    {
      && ShowsAll(st.svcs)
      && st.hasConsole == haveConsole && st.children == children && st.clock == clock
      && st.needsRestart == processNeedsRestart && st.rebooted == rebooted
    }

    // ---------- service_start and service_stop ----------

    method StartRecord(i: nat, forkFails: bool, dynamicArgs: bool, env: Env, now: int, ghost svcs: seq<Svc>)
      returns (announce: bool, ghost s: Svc)
      requires Valid() && ShowsAll(svcs) && i < |services|
      modifies services[i]
      ensures ShowsAll(svcs[i := s])
      ensures s == Started(svcs[i], haveConsole, forkFails, dynamicArgs, env, now).0
      ensures announce == Started(svcs[i], haveConsole, forkFails, dynamicArgs, env, now).1
    {
      announce := services[i].TryStart(haveConsole, forkFails, dynamicArgs, env, now);
      s := services[i].Value();
    }

    method TryStart(i: nat, dynamicArgs: bool, env: Env, ghost st: State) returns (announce: bool)
      requires Valid() && Shows(st) && i < |services|
      modifies `children, `clock, services[i]
      ensures Shows(BeginStart(st, i, dynamicArgs, env).0)
      ensures announce == BeginStart(st, i, dynamicArgs, env).1
    {
      var forkFails := env.fork <= 0 || env.fork in children;
      ghost var s;
      announce, s := StartRecord(i, forkFails, dynamicArgs, env, clock + env.elapsed, st.svcs);
      ghost var r := BeginStart(st, i, dynamicArgs, env);
      assert r == (st.(svcs := st.svcs[i := s], clock := r.0.clock, children := r.0.children), announce);
      if announce {
        children := children + {env.fork};
        clock := clock + env.elapsed;
      }
      assert children == r.0.children && clock == r.0.clock;
    }

    method MarkStopped(i: nat, ghost st: State)
      requires Valid() && Shows(st) && i < |services|
      modifies services[i]
      ensures Shows(BeginStop(st, i))
    {
      services[i].running, services[i].restarting := false, false;
      services[i].disabled := true;
    }

    method ServiceStart(i: nat, dynamicArgs: bool, env: Env, nested: Ops, ghost st: State)
      requires Valid() && Shows(st) && i < |services|
      modifies this, services
      ensures Shows(StartService(st, i, dynamicArgs, env, nested))
      decreases nested, 1
    {
      var announce := TryStart(i, dynamicArgs, env, st);
      if announce {
        RunCommands(nested, BeginStart(st, i, dynamicArgs, env).0);
      }
    }

    method ServiceStop(i: nat, nested: Ops, ghost st: State)
      requires Valid() && Shows(st) && i < |services|
      modifies this, services
      ensures Shows(Run(BeginStop(st, i), nested))
      decreases nested, 1
    {
      MarkStopped(i, st);
      RunCommands(nested, BeginStop(st, i));
    }

    // ---------- commands ----------

    method RunCommand(op: Op, ghost st: State)
      requires Valid() && Shows(st)
      modifies this, services
      ensures Shows(Exec(st, op))
      decreases op, 2
    {
      match op
      case Start(i, dynamicArgs, env, nested) =>
        if i < |services| {
          ServiceStart(i, dynamicArgs, env, nested, st);
        }
      case StartUnlessDisabled(i, env, nested) =>
        assert i < |services| ==> services[i].Value() == st.svcs[i];
        if i < |services| && !services[i].disabled {
          ServiceStart(i, false, env, nested, st);
        }
      case Stop(i, nested) =>
        if i < |services| {
          ServiceStop(i, nested, st);
        }
      case Restart(i, _, _, _) =>
        if i < |services| {
          ServiceRestart(op, st);
        }
      case ForkOther(fork) => TrackChild(fork, st);
    }

    /** The restart command stops and starts at once. */
    method ServiceRestart(op: Op, ghost st: State)
      requires Valid() && Shows(st) && op.Restart? && op.i < |services|
      modifies this, services
      ensures Shows(Exec(st, op))
      decreases op, 1
    {
      ServiceStop(op.i, op.stopped, st);
      ServiceStart(op.i, false, op.env, op.nested, Run(BeginStop(st, op.i), op.stopped));
    }

    /** A child that is not a service. */
    method TrackChild(fork: int, ghost st: State)
      requires Shows(st)
      modifies `children
      ensures Shows(Exec(st, ForkOther(fork)))
    {
      if fork > 0 && fork !in children {
        children := children + {fork};
      }
    }

    method RunCommands(ops: Ops, ghost st: State)
      requires Valid() && Shows(st)
      modifies this, services
      ensures Shows(Run(st, ops))
      decreases ops, 0
    {
      match ops
      case Done =>
      case Then(op, rest) =>
        RunCommand(op, st);
        RunCommands(rest, Exec(st, op));
    }

    // ---------- wait_for_one_process ----------

    method ServiceFindByPid(pid: int, ghost st: State) returns (i: nat)
      requires Shows(st)
      ensures i == FindByPid(st.svcs, pid)
    {
      i := 0;
      while i < |services| && services[i].pid != pid
        invariant i <= |services| && FindByPid(st.svcs, pid) == i + FindByPid(st.svcs[i..], pid)
      {
        assert services[i].Value() == st.svcs[i];
        assert st.svcs[i..][1..] == st.svcs[i + 1..];
        i := i + 1;
      }
      assert i < |services| ==> services[i].Value() == st.svcs[i] == st.svcs[i..][0];
    }

    method ExitRecord(i: nat, now: int, ghost svcs: seq<Svc>) returns (outcome: Outcome, ghost s: Svc)
      requires Valid() && ShowsAll(svcs) && i < |services|
      modifies services[i]
      ensures ShowsAll(svcs[i := s])
      ensures s == AfterExit(svcs[i], now).0 && outcome == AfterExit(svcs[i], now).1
    {
      outcome := services[i].ProcessExited(now);
      s := services[i].Value();
    }

    /** What the exit makes of service i, up to the commands. */
    method ProcessExited(i: nat, pid: int, elapsed: nat, ghost st: State) returns (outcome: Outcome)
      requires Valid() && Shows(st) && i < |services|
      modifies `children, `clock, `rebooted, services[i]
      ensures Shows(BeginReap(st, pid, i, elapsed))
      ensures outcome == AfterExit(st.svcs[i], st.clock + elapsed).1
    {
      children := children - {pid};
      ghost var s;
      outcome, s := ExitRecord(i, clock + elapsed, st.svcs);
      ghost var r := BeginReap(st, pid, i, elapsed);
      assert r == st.(svcs := st.svcs[i := s], clock := r.clock, children := st.children - {pid},
                      rebooted := r.rebooted);
      if outcome != NowStopped {
        clock := clock + elapsed;
      }
      if outcome == NowRebooting {
        rebooted := true;
      }
      assert clock == r.clock && rebooted == r.rebooted && children == r.children;
    }

    method RunCommandsAfter(outcome: Outcome, onrestart: Ops, nested: Ops, ghost next: State)
      requires Valid() && Shows(next)
      modifies this, services
      ensures Shows(CommandsAfter(next, outcome, onrestart, nested))
    {
      match outcome
      case NowStopped => RunCommands(nested, next);
      case NowRebooting =>
      case NowRestarting =>
        RunCommands(onrestart, next);
        RunCommands(nested, Run(next, onrestart));
    }

    method ServiceExited(i: nat, pid: int, elapsed: nat, onrestart: Ops, nested: Ops, ghost st: State)
      requires Valid() && Shows(st) && i == FindByPid(st.svcs, pid) < |services| && pid > 0 && pid in children
      modifies this, services
      ensures Shows(Reap(st, pid, elapsed, onrestart, nested))
    {
      var outcome := ProcessExited(i, pid, elapsed, st);
      assert Reap(st, pid, elapsed, onrestart, nested)
          == CommandsAfter(BeginReap(st, pid, i, elapsed), outcome, onrestart, nested);
      RunCommandsAfter(outcome, onrestart, nested, BeginReap(st, pid, i, elapsed));
    }

    /** One child that has exited, as waitpid reports it; -1 when it reports none. */
    method WaitForOneProcess(pid: int, elapsed: nat, onrestart: Ops, nested: Ops, ghost st: State)
      returns (r: int)
      requires Valid() && Shows(st)
      modifies this, services
      ensures Shows(Reap(st, pid, elapsed, onrestart, nested))
      ensures r == if pid > 0 && pid in st.children then 0 else -1
    {
      if pid <= 0 || pid !in children {
        return -1;
      }
      r := 0;
      var i := ServiceFindByPid(pid, st);
      if i == |services| {
        children := children - {pid};
        return;
      }
      ServiceExited(i, pid, elapsed, onrestart, nested, st);
    }

    // ---------- restart_processes ----------

    method RestartNow(i: nat, p: Plan, ghost st: State)
      requires Valid() && Shows(st) && i < |services|
      modifies this, services
      ensures Shows(StartService(Set(st, i, st.svcs[i].(restarting := false)), i, false, p.env, p.nested))
    {
      assert services[i].Value() == st.svcs[i];
      services[i].restarting := false;
      ghost var s := st.svcs[i].(restarting := false);
      assert ShowsAll(st.svcs[i := s]);
      ServiceStart(i, false, p.env, p.nested, Set(st, i, s));
    }

    method RestartServiceIfNeeded(i: nat, p: Plan, ghost st: State)
      requires Valid() && Shows(st) && i < |services|
      modifies this, services
      ensures Shows(RestartIfNeeded(st, i, p))
    {
      var svc := services[i];
      assert svc.Value() == st.svcs[i];
      var nextStartTime := svc.timeStarted + RESTART_DELAY;
      clock := clock + p.elapsed;
      ghost var later := st.(clock := st.clock + p.elapsed);
      if nextStartTime <= clock {
        assert RestartIfNeeded(st, i, p)
            == StartService(Set(later, i, later.svcs[i].(restarting := false)), i, false, p.env, p.nested);
        RestartNow(i, p, later);
        return;
      }
      if nextStartTime < processNeedsRestart || processNeedsRestart == 0 {
        processNeedsRestart := nextStartTime;
      }
    }

    method RestartProcesses(plans: seq<Plan>, ghost st: State)
      requires Valid() && Shows(st)
      modifies this, services
      ensures Shows(Services.RestartProcesses(st, plans))
    {
      processNeedsRestart := 0;
      ghost var s := st.(needsRestart := 0);
      var i := 0;
      while i < |services|
        invariant i <= |services| && Shows(s)
        invariant RestartFrom(s, i, plans) == Services.RestartProcesses(st, plans)
      {
        assert services[i].Value() == s.svcs[i];
        if services[i].restarting {
          RestartServiceIfNeeded(i, PlanAt(plans, i), s);
          s := RestartIfNeeded(s, i, PlanAt(plans, i));
        }
        i := i + 1;
      }
    }

    /** The head of main's loop: the planned restarts, and the timeout for the poll. */
    method RestartsAndTimeout(plans: seq<Plan>, elapsed: nat, ghost st: State) returns (timeout: int)
      requires Valid() && Shows(st) && Inv(st)
      modifies this, services
      ensures Shows(RestartRound(st, plans, elapsed))
      ensures timeout == PollTimeout(processNeedsRestart, clock)
      ensures (forall k :: 0 <= k < |st.svcs| ==> !st.svcs[k].restarting) ==> timeout == -1
      ensures forall i :: 0 <= i < |services| && services[i].restarting ==>
                0 <= timeout <= 1000 * RESTART_DELAY
                && (timeout == 0 || clock * 1000 + timeout <= (services[i].timeStarted + RESTART_DELAY) * 1000)
    {
      RestartProcesses(plans, st);
      ghost var r := Services.RestartProcesses(st, plans);
      timeout := -1;
      if processNeedsRestart != 0 {
        clock := clock + elapsed;
        timeout := (processNeedsRestart - clock) * 1000;
        if timeout < 0 {
          timeout := 0;
        }
      }
      PollAfter(st, plans, clock);
      forall i | 0 <= i < |services| && services[i].restarting
        ensures 0 <= timeout <= 1000 * RESTART_DELAY
        ensures timeout == 0 || clock * 1000 + timeout <= (services[i].timeStarted + RESTART_DELAY) * 1000
      {
        assert services[i].Value() == r.svcs[i];
        PollNeverOversleeps(st, plans, clock, i);
      }
    }

    /** The main loop, over whatever the poll reports, and the timeouts it has passed to poll. */
    method MainLoop(events: seq<Event>, ghost st: State) returns (polls: seq<int>)
      requires Valid() && Shows(st) && Inv(st)
      modifies this, services
      ensures Shows(Steps(st, events)) && polls == Polls(st, events)
    {
      ghost var s := st;
      polls := [];
      assert events[0..] == events;
      for n := 0 to |events|
        invariant Shows(s) && Inv(s) && Reached(st, events, n, s, polls)
      {
        StepKeeps(s, events[n]);
        ReachedNext(st, events, n, s, polls);
        var poll := HandleEvent(events[n], s);
        polls := polls + poll;
        s := Step(s, events[n]);
      }
    }

    method HandleEvent(e: Event, ghost st: State) returns (poll: seq<int>)
      requires Valid() && Shows(st) && Inv(st)
      modifies this, services
      ensures Shows(Step(st, e))
      ensures poll == PollOf(st, e)
    {
      poll := [];
      if rebooted {
        return;
      }
      match e
      case Commands(ops) => RunCommands(ops, st);
      case Exit(pid, elapsed, onrestart, nested) =>
        var r := WaitForOneProcess(pid, elapsed, onrestart, nested, st);
      case Restarts(plans, elapsed) =>
        var timeout := RestartsAndTimeout(plans, elapsed, st);
        poll := [timeout];
    }
  }
}
