/** The life of the services init starts: what the operations do to the states of the services.
    A state change is announced as a property, and the commands that trigger on it run before the
    operation goes on; they are the `nested` operations. */
module Services {
  import opened CrashWindow

  /** A service: its options, the three state flags and the counters. `exits` is the history of the
      exits nobody had asked for. */
  datatype Svc = Svc(oneshot: bool, console: bool, critical: bool,
                     disabled: bool, running: bool, restarting: bool,
                     pid: int, started: int, counter: Counter, exits: seq<int>)

  /** `children` are the processes the kernel has not yet handed to waitpid. A time of 0 in
      `needsRestart` means that no restart is planned. */
  datatype State = State(svcs: seq<Svc>, hasConsole: bool, children: set<int>, clock: int,
                         needsRestart: int, rebooted: bool)

  /** What the system answers while a service is started: whether the program exists, the pid fork
      returns, and the time that has passed when the clock is read. */
  datatype Env = Env(executable: bool, fork: int, elapsed: nat)

  datatype Ops = Done | Then(op: Op, rest: Ops)

  datatype Op =
    | Start(i: nat, dynamicArgs: bool, env: Env, nested: Ops)
    | StartUnlessDisabled(i: nat, env: Env, nested: Ops)
    | Stop(i: nat, nested: Ops)
    | Restart(i: nat, stopped: Ops, env: Env, nested: Ops)
    | ForkOther(fork: int)

  const RESTART_DELAY := 5

  function Set(st: State, i: nat, s: Svc): State
    requires i < |st.svcs|
  {
    st.(svcs := st.svcs[i := s])
  }

  /** fork returns no pid that a child still has; anything else here stands for a failure. */
  predicate ForkFails(st: State, fork: int) {
    fork <= 0 || fork in st.children
  }

  /** service_start on the record itself, up to the announcement; true when there is one. `now` is
      the time if the clock is read. */
  function Started(s: Svc, hasConsole: bool, forkFails: bool, dynamicArgs: bool, env: Env, now: int): (Svc, bool) {
    var t := s.(disabled := false, restarting := false, started := 0);
    if t.running then (t, false)
    else if (t.console && !hasConsole) || !env.executable || (!t.oneshot && dynamicArgs) then
      (t.(disabled := true), false)
    else if forkFails then (t.(pid := 0), false)
    else (t.(started := now, pid := env.fork, running := true), true)
  }

  function BeginStart(st: State, i: nat, dynamicArgs: bool, env: Env): (r: (State, bool))
    requires i < |st.svcs|
  {
    var now := st.clock + env.elapsed;
    var (s, announced) := Started(st.svcs[i], st.hasConsole, ForkFails(st, env.fork), dynamicArgs, env, now);
    (st.(svcs := st.svcs[i := s],
         clock := if announced then now else st.clock,
         children := if announced then st.children + {env.fork} else st.children), announced)
  }

  function BeginStop(st: State, i: nat): State
    requires i < |st.svcs|
  {
    Set(st, i, st.svcs[i].(running := false, restarting := false, disabled := true))
  }

  /** Commands neither plan restarts nor reboot, and time does not run backwards. */
  predicate OnlyServices(st: State, r: State) {
    && r.needsRestart == st.needsRestart && r.rebooted == st.rebooted && r.clock >= st.clock
    && r.hasConsole == st.hasConsole
  }

  function StartService(st: State, i: nat, dynamicArgs: bool, env: Env, nested: Ops): (r: State)
    requires i < |st.svcs|
    ensures |r.svcs| == |st.svcs| && OnlyServices(st, r)
    decreases nested, 1
  {
    var (next, announced) := BeginStart(st, i, dynamicArgs, env);
    if announced then Run(next, nested) else next
  }

  /** An operation on a service nobody has defined does nothing. */
  function Exec(st: State, op: Op): (r: State)
    ensures |r.svcs| == |st.svcs| && OnlyServices(st, r)
    decreases op, 2
  {
    match op
    case Start(i, dynamicArgs, env, nested) =>
      if i < |st.svcs| then StartService(st, i, dynamicArgs, env, nested) else st
    case StartUnlessDisabled(i, env, nested) =>
      if i < |st.svcs| && !st.svcs[i].disabled then StartService(st, i, false, env, nested) else st
    case Stop(i, nested) =>
      if i < |st.svcs| then Run(BeginStop(st, i), nested) else st
    case Restart(i, stopped, env, nested) =>
      if i < |st.svcs| then
        StartService(Run(BeginStop(st, i), stopped), i, false, env, nested)
      else st
    case ForkOther(fork) =>
      if ForkFails(st, fork) then st else st.(children := st.children + {fork})
  }

  function Run(st: State, ops: Ops): (r: State)
    ensures |r.svcs| == |st.svcs| && OnlyServices(st, r)
    decreases ops, 0
  {
    match ops
    case Done => st
    case Then(op, rest) => Run(Exec(st, op), rest)
  }

  // ---------- an exit ----------

  /** The first service with this pid, or the number of services. */
  function FindByPid(svcs: seq<Svc>, pid: int): (i: nat)
    ensures i <= |svcs| && (i < |svcs| ==> svcs[i].pid == pid)
  {
    if svcs == [] || svcs[0].pid == pid then 0 else 1 + FindByPid(svcs[1..], pid)
  }

  /** What an exit makes of the service before any command runs. */
  function Exited(s: Svc): Svc {
    s.(pid := 0, running := false, disabled := s.disabled || s.oneshot)
  }

  /** An exit nobody has asked for, at this time. */
  function Crashed(s: Svc, now: int): Svc {
    s.(counter := if s.critical then Count(s.counter, now) else s.counter, exits := s.exits + [now])
  }

  predicate OverThreshold(s: Svc, now: int) {
    s.critical && s.counter.anchor + WINDOW >= now && s.counter.count + 1 > THRESHOLD
  }

  datatype Outcome = NowStopped | NowRebooting | NowRestarting

  /** What the exit makes of the service, up to the commands that run then. */
  function AfterExit(s: Svc, now: int): (Svc, Outcome) {
    var t := Exited(s);
    if t.disabled then (t, NowStopped)
    else if OverThreshold(t, now) then (Crashed(t, now), NowRebooting)
    else (Crashed(t, now).(restarting := true), NowRestarting)
  }

  /** wait_for_one_process for the exit of the child pid of service i, up to the commands. The clock
      is not read when the service stays stopped. */
  function BeginReap(st: State, pid: int, i: nat, elapsed: nat): State
    requires i < |st.svcs|
  {
    var (s, outcome) := AfterExit(st.svcs[i], st.clock + elapsed);
    st.(children := st.children - {pid}, svcs := st.svcs[i := s],
        clock := if outcome.NowStopped? then st.clock else st.clock + elapsed,
        rebooted := st.rebooted || outcome.NowRebooting?)
  }

  /** The commands that run because of an exit. */
  function CommandsAfter(next: State, outcome: Outcome, onrestart: Ops, nested: Ops): State {
    match outcome
    case NowStopped => Run(next, nested)
    case NowRebooting => next
    case NowRestarting => Run(Run(next, onrestart), nested)
  }

  /** There is nothing to wait for unless the process is a child. */
  function Reap(st: State, pid: int, elapsed: nat, onrestart: Ops, nested: Ops): State {
    var i := FindByPid(st.svcs, pid);
    if pid !in st.children || pid <= 0 then st
    else if i == |st.svcs| then st.(children := st.children - {pid})
    else CommandsAfter(BeginReap(st, pid, i, elapsed), AfterExit(st.svcs[i], st.clock + elapsed).1, onrestart, nested)
  }

  // ---------- planned restarts ----------

  /** What the system answers when one service's restart is considered. */
  datatype Plan = Plan(elapsed: nat, env: Env, nested: Ops)

  function PlanAt(plans: seq<Plan>, i: nat): Plan {
    if i < |plans| then plans[i] else Plan(0, Env(true, 0, 0), Done)
  }

  /** restart_service_if_needed. */
  function RestartIfNeeded(st: State, i: nat, p: Plan): (r: State)
    requires i < |st.svcs|
    ensures |r.svcs| == |st.svcs| && r.rebooted == st.rebooted && r.clock >= st.clock
  {
    var next := st.svcs[i].started + RESTART_DELAY;
    var later := st.(clock := st.clock + p.elapsed);
    if next <= later.clock then
      StartService(Set(later, i, st.svcs[i].(restarting := false)), i, false, p.env, p.nested)
    else if next < st.needsRestart || st.needsRestart == 0 then later.(needsRestart := next)
    else later
  }

  function RestartFrom(st: State, i: nat, plans: seq<Plan>): (r: State)
    requires i <= |st.svcs|
    ensures |r.svcs| == |st.svcs| && r.rebooted == st.rebooted && r.clock >= st.clock
    decreases |st.svcs| - i
  {
    if i == |st.svcs| then st
    else if st.svcs[i].restarting then RestartFrom(RestartIfNeeded(st, i, PlanAt(plans, i)), i + 1, plans)
    else RestartFrom(st, i + 1, plans)
  }

  function RestartProcesses(st: State, plans: seq<Plan>): State {
    RestartFrom(st.(needsRestart := 0), 0, plans)
  }

  /** The timeout main passes to poll, in milliseconds, when the clock is then read as `now`; -1
      waits without end. */
  function PollTimeout(needsRestart: int, now: int): int {
    if needsRestart == 0 then -1
    else if needsRestart < now then 0
    else (needsRestart - now) * 1000
  }

  /** The head of main's loop. When a restart is planned the clock is read once more. */
  function RestartRound(st: State, plans: seq<Plan>, elapsed: nat): State {
    var r := RestartProcesses(st, plans);
    if r.needsRestart == 0 then r else r.(clock := r.clock + elapsed)
  }

  // ---------- runs of the main loop ----------

  datatype Event =
    | Commands(ops: Ops)
    | Exit(pid: int, elapsed: nat, onrestart: Ops, nested: Ops)
    | Restarts(plans: seq<Plan>, elapsed: nat)

  /** The reboot does not come back. */
  function Step(st: State, e: Event): State {
    if st.rebooted then st
    else
      match e
      case Commands(ops) => Run(st, ops)
      case Exit(pid, elapsed, onrestart, nested) => Reap(st, pid, elapsed, onrestart, nested)
      case Restarts(plans, elapsed) => RestartRound(st, plans, elapsed)
  }

  function Steps(st: State, events: seq<Event>): State
    decreases |events|
  {
    if events == [] then st else Steps(Step(st, events[0]), events[1..])
  }

  /** The timeout that an event passes to poll, if it is a restart round. */
  function PollOf(st: State, e: Event): seq<int> {
    if e.Restarts? && !st.rebooted then [PollTimeout(Step(st, e).needsRestart, Step(st, e).clock)] else []
  }

  /** The timeouts passed to poll in a run. */
  function Polls(st: State, events: seq<Event>): seq<int>
    decreases |events|
  {
    if events == [] then [] else PollOf(st, events[0]) + Polls(Step(st, events[0]), events[1..])
  }

  /** A run from `st` has come to `s` before event n, with these timeouts. */
  predicate Reached(st: State, events: seq<Event>, n: nat, s: State, polls: seq<int>)
    requires n <= |events|
  {
    Steps(s, events[n..]) == Steps(st, events) && polls + Polls(s, events[n..]) == Polls(st, events)
  }

  lemma {:induction false} ReachedNext(st: State, events: seq<Event>, n: nat, s: State, polls: seq<int>)
    requires n < |events| && Reached(st, events, n, s, polls)
    ensures Reached(st, events, n + 1, Step(s, events[n]), polls + PollOf(s, events[n]))
  {
    var rest := events[n..];
    assert rest[0] == events[n] && rest[1..] == events[n + 1..];
    var next := Polls(Step(s, events[n]), events[n + 1..]);
    assert polls + (PollOf(s, events[n]) + next) == polls + PollOf(s, events[n]) + next;
  }

  // ---------- what holds in every state ----------

  predicate AtMostOne(a: bool, b: bool, c: bool) {
    !(a && b) && !(a && c) && !(b && c)
  }

  predicate SvcOk(s: Svc, clock: int) {
    && AtMostOne(s.running, s.restarting, s.disabled)
    && s.pid >= 0
    && (s.running ==> s.pid != 0)
    && (s.pid != 0 ==> s.running || s.disabled)
    && (s.restarting ==> s.pid == 0)
    && (s.oneshot ==> !s.restarting)
    && 0 <= s.started <= clock
  }

  predicate DistinctPids(svcs: seq<Svc>) {
    forall i, j :: 0 <= i < j < |svcs| ==> svcs[i].pid == 0 || svcs[i].pid != svcs[j].pid
  }

  predicate Inv(st: State) {
    && 0 <= st.clock
    && (forall i :: 0 <= i < |st.svcs| ==> SvcOk(st.svcs[i], st.clock))
    && (forall i :: 0 <= i < |st.svcs| && st.svcs[i].pid != 0 ==> st.svcs[i].pid in st.children)
    && DistinctPids(st.svcs)
  }

  /** A service as it leaves the parser. */
  predicate Fresh(s: Svc) {
    && !s.running && !s.restarting && s.pid == 0 && s.started == 0
    && s.counter == Counter(0, 0) && s.exits == []
  }

  predicate Init(st: State) {
    && 0 <= st.clock && !st.rebooted && forall i :: 0 <= i < |st.svcs| ==> Fresh(st.svcs[i])
  }

  lemma {:induction false} InitInv(st: State)
    requires Init(st)
    ensures Inv(st)
  {
    forall i | 0 <= i < |st.svcs|
      ensures SvcOk(st.svcs[i], st.clock)
    {
      assert Fresh(st.svcs[i]);
    }
  }

  /** Replacing one service keeps the invariant when its pid is zero, the one it had, or new. */
  lemma {:induction false} SetKeeps(st: State, i: nat, s: Svc, children: set<int>, clock: int)
    requires Inv(st) && i < |st.svcs| && st.clock <= clock && SvcOk(s, clock)
    requires children >= st.children && (s.pid == 0 || s.pid == st.svcs[i].pid || s.pid in children - st.children)
    ensures Inv(Set(st, i, s).(children := children, clock := clock))
  {
    var r := Set(st, i, s).(children := children, clock := clock);
    forall k | 0 <= k < |r.svcs|
      ensures SvcOk(r.svcs[k], clock) && (r.svcs[k].pid != 0 ==> r.svcs[k].pid in children)
    {
      if k != i {
        assert SvcOk(st.svcs[k], st.clock);
      }
    }
    forall j, k | 0 <= j < k < |r.svcs|
      ensures r.svcs[j].pid == 0 || r.svcs[j].pid != r.svcs[k].pid
    {
      assert st.svcs[j].pid == 0 || st.svcs[j].pid != st.svcs[k].pid;
    }
  }

  lemma {:induction false} BeginStartKeeps(st: State, i: nat, dynamicArgs: bool, env: Env)
    requires Inv(st) && i < |st.svcs|
    ensures Inv(BeginStart(st, i, dynamicArgs, env).0)
  {
    assert SvcOk(st.svcs[i], st.clock);
    var r := BeginStart(st, i, dynamicArgs, env).0;
    SetKeeps(st, i, r.svcs[i], r.children, r.clock);
    assert r == Set(st, i, r.svcs[i]).(children := r.children, clock := r.clock);
  }

  lemma {:induction false} BeginStopKeeps(st: State, i: nat)
    requires Inv(st) && i < |st.svcs|
    ensures Inv(BeginStop(st, i))
  {
    assert SvcOk(st.svcs[i], st.clock);
    var r := BeginStop(st, i);
    SetKeeps(st, i, r.svcs[i], r.children, r.clock);
  }

  lemma {:induction false} StartKeeps(st: State, i: nat, dynamicArgs: bool, env: Env, nested: Ops)
    requires Inv(st) && i < |st.svcs|
    ensures Inv(StartService(st, i, dynamicArgs, env, nested))
    decreases nested, 1
  {
    BeginStartKeeps(st, i, dynamicArgs, env);
    var (next, announced) := BeginStart(st, i, dynamicArgs, env);
    if announced {
      RunKeeps(next, nested);
    }
  }

  lemma {:induction false} ExecKeeps(st: State, op: Op)
    requires Inv(st)
    ensures Inv(Exec(st, op))
    decreases op, 2
  {
    match op
    case Start(i, dynamicArgs, env, nested) =>
      if i < |st.svcs| {
        StartKeeps(st, i, dynamicArgs, env, nested);
      }
    case StartUnlessDisabled(i, env, nested) =>
      if i < |st.svcs| {
        StartKeeps(st, i, false, env, nested);
      }
    case Stop(i, nested) =>
      if i < |st.svcs| {
        BeginStopKeeps(st, i);
        RunKeeps(BeginStop(st, i), nested);
      }
    case Restart(i, stopped, env, nested) =>
      if i < |st.svcs| {
        BeginStopKeeps(st, i);
        RunKeeps(BeginStop(st, i), stopped);
        StartKeeps(Run(BeginStop(st, i), stopped), i, false, env, nested);
      }
    case ForkOther(fork) =>
  }

  lemma {:induction false} RunKeeps(st: State, ops: Ops)
    requires Inv(st)
    ensures Inv(Run(st, ops))
    decreases ops, 0
  {
    match ops
    case Done =>
    case Then(op, rest) =>
      ExecKeeps(st, op);
      RunKeeps(Exec(st, op), rest);
  }

  lemma {:induction false} FindNone(svcs: seq<Svc>, pid: int, k: nat)
    requires FindByPid(svcs, pid) == |svcs| && k < |svcs|
    ensures svcs[k].pid != pid
  {
    if k > 0 {
      FindNone(svcs[1..], pid, k - 1);
    }
  }

  lemma {:induction false} UntrackedKeeps(st: State, pid: int)
    requires Inv(st) && FindByPid(st.svcs, pid) == |st.svcs|
    ensures Inv(st.(children := st.children - {pid}))
  {
    forall k | 0 <= k < |st.svcs| && st.svcs[k].pid != 0
      ensures st.svcs[k].pid in st.children - {pid}
    {
      FindNone(st.svcs, pid, k);
    }
  }

  lemma {:induction false} BeginReapKeeps(st: State, pid: int, i: nat, elapsed: nat)
    requires Inv(st) && i < |st.svcs| && st.svcs[i].pid == pid > 0
    ensures Inv(BeginReap(st, pid, i, elapsed))
  {
    assert SvcOk(st.svcs[i], st.clock);
    var r := BeginReap(st, pid, i, elapsed);
    forall k | 0 <= k < |r.svcs|
      ensures SvcOk(r.svcs[k], r.clock) && (r.svcs[k].pid != 0 ==> r.svcs[k].pid in r.children)
    {
      if k != i {
        assert SvcOk(st.svcs[k], st.clock);
        assert st.svcs[k].pid != pid;
      }
    }
    forall j, k | 0 <= j < k < |r.svcs|
      ensures r.svcs[j].pid == 0 || r.svcs[j].pid != r.svcs[k].pid
    {
      assert st.svcs[j].pid == 0 || st.svcs[j].pid != st.svcs[k].pid;
    }
  }

  lemma {:induction false} ReapKeeps(st: State, pid: int, elapsed: nat, onrestart: Ops, nested: Ops)
    requires Inv(st)
    ensures Inv(Reap(st, pid, elapsed, onrestart, nested))
  {
    if pid in st.children && pid > 0 {
      var i := FindByPid(st.svcs, pid);
      if i == |st.svcs| {
        UntrackedKeeps(st, pid);
      } else {
        var next := BeginReap(st, pid, i, elapsed);
        BeginReapKeeps(st, pid, i, elapsed);
        RunKeeps(next, nested);
        RunKeeps(next, onrestart);
        RunKeeps(Run(next, onrestart), nested);
      }
    }
  }

  lemma {:induction false} RestartFromKeeps(st: State, i: nat, plans: seq<Plan>)
    requires Inv(st) && i <= |st.svcs|
    ensures Inv(RestartFrom(st, i, plans))
    decreases |st.svcs| - i
  {
    if i < |st.svcs| {
      if st.svcs[i].restarting {
        RestartIfNeededKeeps(st, i, PlanAt(plans, i));
        RestartFromKeeps(RestartIfNeeded(st, i, PlanAt(plans, i)), i + 1, plans);
      } else {
        RestartFromKeeps(st, i + 1, plans);
      }
    }
  }

  lemma {:induction false} RestartIfNeededKeeps(st: State, i: nat, p: Plan)
    requires Inv(st) && i < |st.svcs|
    ensures Inv(RestartIfNeeded(st, i, p))
  {
    var later := st.(clock := st.clock + p.elapsed);
    TimePasses(st, p.elapsed);
    assert SvcOk(st.svcs[i], later.clock);
    var s := st.svcs[i].(restarting := false);
    SetKeeps(later, i, s, later.children, later.clock);
    StartKeeps(Set(later, i, s), i, false, p.env, p.nested);
  }

  lemma {:induction false} TimePasses(st: State, elapsed: nat)
    requires Inv(st)
    ensures Inv(st.(clock := st.clock + elapsed))
  {
    forall k | 0 <= k < |st.svcs|
      ensures SvcOk(st.svcs[k], st.clock + elapsed)
    {
      assert SvcOk(st.svcs[k], st.clock);
    }
  }

  lemma RestartRoundKeeps(st: State, plans: seq<Plan>, elapsed: nat)
    requires Inv(st)
    ensures Inv(RestartRound(st, plans, elapsed))
  {
    RestartFromKeeps(st.(needsRestart := 0), 0, plans);
    TimePasses(RestartProcesses(st, plans), elapsed);
  }

  lemma {:induction false} StepKeeps(st: State, e: Event)
    requires Inv(st)
    ensures Inv(Step(st, e))
  {
    if !st.rebooted {
      match e
      case Commands(ops) => RunKeeps(st, ops);
      case Exit(pid, elapsed, onrestart, nested) => ReapKeeps(st, pid, elapsed, onrestart, nested);
      case Restarts(plans, elapsed) => RestartRoundKeeps(st, plans, elapsed);
    }
  }

  lemma {:induction false} StepsKeep(st: State, events: seq<Event>)
    requires Inv(st)
    ensures Inv(Steps(st, events))
    decreases |events|
  {
    if events != [] {
      StepKeeps(st, events[0]);
      StepsKeep(Step(st, events[0]), events[1..]);
    }
  }

  // ---------- the main results ----------

  /** In every state of every run from the services the parser has made, with any commands run in
      between and any answers of the system. */
  lemma {:induction false} EveryServiceOk(st: State, events: seq<Event>, i: nat)
    requires Init(st) && i < |Steps(st, events).svcs|
    ensures var s := Steps(st, events).svcs[i];
            && AtMostOne(s.running, s.restarting, s.disabled)
            && (s.running ==> s.pid != 0)
            && (s.pid != 0 ==> s.running || s.disabled)
            && (s.restarting ==> s.pid == 0)
            && (s.oneshot ==> !s.restarting)
  {
    InitInv(st);
    StepsKeep(st, events);
    assert SvcOk(Steps(st, events).svcs[i], Steps(st, events).clock);
  }

  /** The pid of a service is a child the kernel still has, and that of no other service. */
  lemma {:induction false} EveryPidOk(st: State, events: seq<Event>, i: nat)
    requires Init(st) && i < |Steps(st, events).svcs|
    ensures var r := Steps(st, events);
            r.svcs[i].pid != 0 ==>
              && r.svcs[i].pid in r.children
              && forall j :: 0 <= j < |r.svcs| && j != i ==> r.svcs[j].pid != r.svcs[i].pid
  {
    InitInv(st);
    StepsKeep(st, events);
    var r := Steps(st, events);
    if r.svcs[i].pid != 0 {
      forall j | 0 <= j < |r.svcs| && j != i
        ensures r.svcs[j].pid != r.svcs[i].pid
      {
        OtherPid(r, i, j);
      }
    }
  }

  lemma {:induction false} OtherPid(st: State, i: nat, f: nat)
    requires Inv(st) && i < |st.svcs| && f < |st.svcs| && f != i && st.svcs[i].pid != 0
    ensures st.svcs[f].pid != st.svcs[i].pid
  {
    if f < i {
      assert st.svcs[f].pid == 0 || st.svcs[f].pid != st.svcs[i].pid;
    }
  }

  // ---------- planned restarts are kept ----------

  /** What commands leave of a service: its options and the record of its exits. They put no service
      into the restarting state and leave the start time of one that is. */
  predicate Unaffected(was: Svc, s: Svc) {
    && s.oneshot == was.oneshot && s.critical == was.critical && s.console == was.console
    && s.counter == was.counter && s.exits == was.exits
    && (s.restarting ==> was.restarting && s.started == was.started)
  }

  lemma {:induction false} BeginStartAffects(st: State, i: nat, dynamicArgs: bool, env: Env, k: nat)
    requires i < |st.svcs| && k < |st.svcs|
    ensures Unaffected(st.svcs[k], BeginStart(st, i, dynamicArgs, env).0.svcs[k])
  {
  }

  lemma {:induction false} StartAffects(st: State, i: nat, dynamicArgs: bool, env: Env, nested: Ops, k: nat)
    requires i < |st.svcs| && k < |st.svcs|
    ensures Unaffected(st.svcs[k], StartService(st, i, dynamicArgs, env, nested).svcs[k])
    decreases nested, 1
  {
    var (next, announced) := BeginStart(st, i, dynamicArgs, env);
    BeginStartAffects(st, i, dynamicArgs, env, k);
    if announced {
      RunAffects(next, nested, k);
    }
  }

  lemma {:induction false} ExecAffects(st: State, op: Op, k: nat)
    requires k < |st.svcs|
    ensures Unaffected(st.svcs[k], Exec(st, op).svcs[k])
    decreases op, 2
  {
    match op
    case Start(i, dynamicArgs, env, nested) =>
      if i < |st.svcs| {
        StartAffects(st, i, dynamicArgs, env, nested, k);
      }
    case StartUnlessDisabled(i, env, nested) =>
      if i < |st.svcs| {
        StartAffects(st, i, false, env, nested, k);
      }
    case Stop(i, nested) =>
      if i < |st.svcs| {
        RunAffects(BeginStop(st, i), nested, k);
      }
    case Restart(i, stopped, env, nested) =>
      if i < |st.svcs| {
        RunAffects(BeginStop(st, i), stopped, k);
        StartAffects(Run(BeginStop(st, i), stopped), i, false, env, nested, k);
      }
    case ForkOther(fork) =>
  }

  lemma {:induction false} RunAffects(st: State, ops: Ops, k: nat)
    requires k < |st.svcs|
    ensures Unaffected(st.svcs[k], Run(st, ops).svcs[k])
    decreases ops, 0
  {
    match ops
    case Done =>
    case Then(op, rest) =>
      ExecAffects(st, op, k);
      RunAffects(Exec(st, op), rest, k);
  }

  lemma {:induction false} RestartIfNeededAffects(st: State, i: nat, p: Plan, k: nat)
    requires i < |st.svcs| && k < |st.svcs|
    ensures Unaffected(st.svcs[k], RestartIfNeeded(st, i, p).svcs[k])
  {
    var later := st.(clock := st.clock + p.elapsed);
    StartAffects(Set(later, i, st.svcs[i].(restarting := false)), i, false, p.env, p.nested, k);
  }

  /** A planned time that is not too late for this service. */
  predicate Planned(needsRestart: int, s: Svc) {
    s.restarting ==> needsRestart != 0 && needsRestart <= s.started + RESTART_DELAY
  }

  lemma {:induction false} RestartIfNeededPlans(st: State, i: nat, p: Plan, k: nat)
    requires Inv(st) && i < |st.svcs| && k < |st.svcs| && (k == i || Planned(st.needsRestart, st.svcs[k]))
    requires 0 <= st.needsRestart <= st.clock + RESTART_DELAY
    ensures var r := RestartIfNeeded(st, i, p);
            0 <= r.needsRestart <= r.clock + RESTART_DELAY && Planned(r.needsRestart, r.svcs[k])
  {
    var s := st.svcs[i];
    assert SvcOk(s, st.clock);
    var later := st.(clock := st.clock + p.elapsed);
    StartAffects(Set(later, i, s.(restarting := false)), i, false, p.env, p.nested, k);
  }

  lemma {:induction false} RestartFromPlans(st: State, i: nat, plans: seq<Plan>, k: nat)
    requires Inv(st) && i <= |st.svcs| && k < |st.svcs| && (k >= i || Planned(st.needsRestart, st.svcs[k]))
    requires 0 <= st.needsRestart <= st.clock + RESTART_DELAY
    ensures var r := RestartFrom(st, i, plans);
            0 <= r.needsRestart <= r.clock + RESTART_DELAY && Planned(r.needsRestart, r.svcs[k])
    decreases |st.svcs| - i
  {
    if i < |st.svcs| {
      if !st.svcs[i].restarting {
        RestartFromPlans(st, i + 1, plans, k);
      } else {
        var p := PlanAt(plans, i);
        RestartIfNeededKeeps(st, i, p);
        if k > i {
          RestartIfNeededPlans(st, i, p, i);
        } else {
          RestartIfNeededPlans(st, i, p, k);
        }
        RestartFromPlans(RestartIfNeeded(st, i, p), i + 1, plans, k);
      }
    }
  }

  /** No restart that is due is slept through: for every service that waits for its restart, the
      poll that follows returns by the time it is due, at once if it already is, and after five
      seconds at most. It may only wait without end when no service waits. */
  lemma {:induction false} PollNeverOversleeps(st: State, plans: seq<Plan>, now: int, k: nat)
    requires Inv(st) && k < |st.svcs| && now >= RestartProcesses(st, plans).clock
    requires RestartProcesses(st, plans).svcs[k].restarting
    ensures var r := RestartProcesses(st, plans); var t := PollTimeout(r.needsRestart, now);
            && r.needsRestart != 0 && r.needsRestart <= r.svcs[k].started + RESTART_DELAY
            && 0 <= t <= 1000 * RESTART_DELAY
            && (t > 0 ==> now * 1000 + t <= (r.svcs[k].started + RESTART_DELAY) * 1000)
  {
    RestartFromPlans(st.(needsRestart := 0), 0, plans, k);
  }
}
