/** What each command and each exit makes of the services, told from the records before and after. */
module Commands {
  import opened CrashWindow
  import opened Services

  /** A start, by the answers of the system: a service that runs only loses its start time; one that
      may not start is disabled; and only a fork that succeeds makes it run, under the new pid, with
      the time of this start on record. */
  lemma {:induction false} StartExactly(st: State, i: nat, dynamicArgs: bool, env: Env)
    requires i < |st.svcs|
    ensures var r := Exec(st, Start(i, dynamicArgs, env, Done)); var s := st.svcs[i]; var t := r.svcs[i];
            var may := (s.console ==> st.hasConsole) && env.executable && (dynamicArgs ==> s.oneshot);
            var forks := !s.running && may && env.fork > 0 && env.fork !in st.children;
            && r == st.(svcs := st.svcs[i := t], clock := r.clock, children := r.children)
            && (t.running <==> s.running || forks)
            && (t.disabled <==> !s.running && !may)
            && !t.restarting
            && (if forks then
                  t.pid == env.fork && t.started == r.clock == st.clock + env.elapsed
                  && r.children == st.children + {env.fork}
                else
                  t.pid == (if !s.running && may then 0 else s.pid) && t.started == 0
                  && r.clock == st.clock && r.children == st.children)
            && t == s.(disabled := t.disabled, running := t.running, restarting := false, pid := t.pid,
                       started := t.started)
  {
    var r := Exec(st, Start(i, dynamicArgs, env, Done));
    var (next, announced) := BeginStart(st, i, dynamicArgs, env);
    assert Run(next, Done) == next;
    assert StartService(st, i, dynamicArgs, env, Done) == next;
    var s, t := st.svcs[i], r.svcs[i];
    assert t == s.(disabled := t.disabled, running := t.running, restarting := false, pid := t.pid,
                   started := t.started);
  }

  /** What a start sets off runs after it, and only when the service has begun to run. */
  lemma {:induction false} StartThenCommands(st: State, i: nat, dynamicArgs: bool, env: Env, nested: Ops)
    requires i < |st.svcs|
    ensures var r := Exec(st, Start(i, dynamicArgs, env, Done));
            Exec(st, Start(i, dynamicArgs, env, nested))
              == if !st.svcs[i].running && r.svcs[i].running then Run(r, nested) else r
  {
    StartExactly(st, i, dynamicArgs, env);
    var (next, announced) := BeginStart(st, i, dynamicArgs, env);
    assert Run(next, Done) == next;
  }

  /** A class start starts its services except those that are disabled. */
  lemma {:induction false} ClassStart(st: State, i: nat, env: Env, nested: Ops)
    requires i < |st.svcs|
    ensures Exec(st, StartUnlessDisabled(i, env, nested))
         == if st.svcs[i].disabled then st else Exec(st, Start(i, false, env, nested))
  {
  }

  /** A stop leaves its service disabled, neither running nor waiting, changes nothing else, and then
      what it sets off runs. */
  lemma {:induction false} StopExactly(st: State, i: nat, nested: Ops)
    requires i < |st.svcs|
    ensures var r := Exec(st, Stop(i, Done)); var t := r.svcs[i];
            && t.disabled && !t.running && !t.restarting
            && t.(disabled := st.svcs[i].disabled, running := st.svcs[i].running,
                  restarting := st.svcs[i].restarting) == st.svcs[i]
            && r == st.(svcs := st.svcs[i := t])
            && Exec(st, Stop(i, nested)) == Run(r, nested)
  {
    assert Run(BeginStop(st, i), Done) == BeginStop(st, i);
  }

  /** A restart command is a stop and then a start, without waiting for the process. */
  lemma {:induction false} RestartIsStopAndStart(st: State, i: nat, stopped: Ops, env: Env, nested: Ops)
    ensures Exec(st, Restart(i, stopped, env, nested))
         == Exec(Exec(st, Stop(i, stopped)), Start(i, false, env, nested))
  {
  }

  /** A child that is no service changes no service. */
  lemma {:induction false} ForkExactly(st: State, fork: int)
    ensures Exec(st, ForkOther(fork)) == st.(children := st.children + if fork > 0 then {fork} else {})
  {
    assert fork in st.children ==> st.children + {fork} == st.children;
    assert st.children + {} == st.children;
  }

  function Append(a: Ops, b: Ops): Ops {
    match a
    case Done => b
    case Then(op, rest) => Then(op, Append(rest, b))
  }

  /** Commands all take place, one after the other. */
  lemma {:induction false} CommandsInTurn(st: State, a: Ops, op: Op, b: Ops)
    requires !st.rebooted
    ensures Step(st, Event.Commands(Append(a, Then(op, b)))) == Run(Exec(Step(st, Event.Commands(a)), op), b)
    decreases a
  {
    match a
    case Done =>
    case Then(first, rest) => CommandsInTurn(Exec(st, first), rest, op, b);
  }

  // ---------- exits ----------

  lemma {:induction false} FoundAt(svcs: seq<Svc>, i: nat, was: seq<Svc>)
    requires i < |svcs| == |was| && DistinctPids(was) && svcs[i].pid != 0
    requires forall k :: 0 <= k < |was| ==> svcs[k].pid == was[k].pid
    ensures FindByPid(svcs, svcs[i].pid) == i
  {
    if i > 0 {
      assert was[0].pid == 0 || was[0].pid != was[i].pid;
      assert DistinctPids(was[1..]) by {
        forall j, k | 0 <= j < k < |was[1..]|
          ensures was[1..][j].pid == 0 || was[1..][j].pid != was[1..][k].pid
        {
          assert was[j + 1].pid == 0 || was[j + 1].pid != was[k + 1].pid;
        }
      }
      FoundAt(svcs[1..], i - 1, was[1..]);
    }
  }

  /** The exit of a service that is on record: it no longer runs and has no pid. If it is disabled or
      runs only once it stays disabled; otherwise the exit goes into its record, and it waits for its
      restart, unless the phone reboots. */
  lemma {:induction false} ExitExactly(st: State, i: nat, elapsed: nat)
    requires Inv(st) && i < |st.svcs| && st.svcs[i].pid > 0 && !st.rebooted
    ensures var r := Step(st, Exit(st.svcs[i].pid, elapsed, Done, Done)); var s := st.svcs[i];
            && |r.svcs| == |st.svcs| && var t := r.svcs[i]; var asked := s.disabled || s.oneshot;
            && (t.restarting <==> !asked && !r.rebooted)
            && t.exits == s.exits + (if asked then [] else [st.clock + elapsed])
            && r.clock == st.clock + (if asked then 0 else elapsed)
            && r.children == st.children - {s.pid}
            && (asked ==> !r.rebooted)
            && t == s.(running := false, pid := 0, disabled := asked, restarting := t.restarting,
                       exits := t.exits, counter := t.counter)
            && (asked || !s.critical ==> t.counter == s.counter)
            && (forall k :: 0 <= k < |st.svcs| && k != i ==> r.svcs[k] == st.svcs[k])
  {
    var s := st.svcs[i];
    assert SvcOk(s, st.clock);
    FoundAt(st.svcs, i, st.svcs);
    var r := BeginReap(st, s.pid, i, elapsed);
    assert Run(r, Done) == r;
    assert Reap(st, s.pid, elapsed, Done, Done) == r;
    assert s.exits + [] == s.exits;
  }

  /** What an exit sets off: the onrestart commands only for a service that then waits, and nothing at
      all when the phone reboots. */
  lemma {:induction false} ExitThenCommands(st: State, i: nat, elapsed: nat, onrestart: Ops, nested: Ops)
    requires Inv(st) && i < |st.svcs| && st.svcs[i].pid > 0 && !st.rebooted
    ensures var r := Step(st, Exit(st.svcs[i].pid, elapsed, Done, Done));
            Step(st, Exit(st.svcs[i].pid, elapsed, onrestart, nested))
              == if r.rebooted then r
                 else if st.svcs[i].disabled || st.svcs[i].oneshot then Run(r, nested)
                 else Run(Run(r, onrestart), nested)
  {
    FoundAt(st.svcs, i, st.svcs);
    var r := BeginReap(st, st.svcs[i].pid, i, elapsed);
    assert Run(r, Done) == r;
    assert Reap(st, st.svcs[i].pid, elapsed, Done, Done) == r;
  }

  /** The exit of a child that no service knows only ends the wait for it; a pid that is no child ends
      nothing. */
  lemma {:induction false} OtherExit(st: State, pid: int, elapsed: nat, onrestart: Ops, nested: Ops)
    requires pid <= 0 || pid !in st.children || forall k :: 0 <= k < |st.svcs| ==> st.svcs[k].pid != pid
    requires !st.rebooted
    ensures var gone := if pid > 0 then {pid} else {};
            Step(st, Exit(pid, elapsed, onrestart, nested)) == st.(children := st.children - gone)
  {
    if pid > 0 && pid in st.children {
      assert FindByPid(st.svcs, pid) == |st.svcs|;
    } else {
      var gone := if pid > 0 then {pid} else {};
      assert st.children - gone == st.children;
    }
  }
}
