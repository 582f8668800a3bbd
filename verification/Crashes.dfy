/** The record of a critical service's exits, and the reboot into recovery. */
module Crashes {
  import opened CrashWindow
  import opened Services

  predicate HistoryOk(s: Svc, clock: int) {
    && Sorted(s.exits) && (s.exits != [] ==> s.exits[|s.exits| - 1] <= clock)
    && s.counter == (if s.critical then Track(s.exits) else Counter(0, 0))
  }

  predicate Calm(s: Svc) {
    s.counter.count <= THRESHOLD && (s.critical ==> !Reboots(s.exits))
  }

  predicate Recorded(s: Svc, clock: int, rebooted: bool) {
    HistoryOk(s, clock) && (rebooted || Calm(s))
  }

  predicate AllRecorded(st: State) {
    0 <= st.clock && forall i :: 0 <= i < |st.svcs| ==> Recorded(st.svcs[i], st.clock, st.rebooted)
  }

  predicate Unrequested(s: Svc) {
    !s.disabled && !s.oneshot
  }

  lemma {:induction false} SortedMore(exits: seq<int>, clock: int, now: int)
    requires Sorted(exits) && (exits != [] ==> exits[|exits| - 1] <= clock) && 0 <= clock <= now
    ensures Sorted(exits + [now])
  {
    var more := exits + [now];
    forall i, j | 0 <= i < j < |more|
      ensures more[i] <= more[j]
    {
      if j == |exits| {
        assert exits[i] <= exits[|exits| - 1];
      }
    }
  }

  lemma {:induction false} SameRecord(s: Svc, t: Svc, clock: int, rebooted: bool)
    requires Recorded(s, clock, rebooted)
    requires t.critical == s.critical && t.counter == s.counter && t.exits == s.exits
    ensures Recorded(t, clock, rebooted)
  {
  }

  lemma CrashHistory(s: Svc, clock: int, now: int)
    requires HistoryOk(s, clock) && (s.critical ==> !Reboots(s.exits)) && 0 <= clock <= now
    ensures HistoryOk(Crashed(s, now), now)
  {
    SortedMore(s.exits, clock, now);
    var more := s.exits + [now];
    assert more[|more| - 1] == now;
    if s.critical {
      OneMore(s.exits, now);
    }
  }

  lemma CrashReboots(s: Svc, clock: int, now: int)
    requires HistoryOk(s, clock) && Calm(s) && s.critical
    ensures OverThreshold(s, now) <==> Reboots(s.exits + [now])
    ensures OverThreshold(s, now) <==> Track(s.exits + [now]).count > THRESHOLD
  {
    OneMore(s.exits, now);
    assert Track(s.exits + [now]) == Count(s.counter, now);
  }

  lemma {:induction false} CrashRecorded(s: Svc, clock: int, now: int)
    requires Recorded(s, clock, false) && 0 <= clock <= now
    ensures Recorded(Crashed(s, now), now, OverThreshold(s, now))
    ensures OverThreshold(s, now) <==> s.critical && Reboots(s.exits + [now])
    ensures OverThreshold(s, now) ==> Track(s.exits + [now]).count > THRESHOLD
  {
    CrashHistory(s, clock, now);
    if s.critical {
      CrashReboots(s, clock, now);
      assert Crashed(s, now).counter == Track(s.exits + [now]);
    }
  }

  /** What one exit adds to the record of its service. */
  lemma {:induction false} AfterExitRecorded(s: Svc, clock: int, now: int)
    requires Recorded(s, clock, false) && 0 <= clock <= now
    ensures var (t, outcome) := AfterExit(s, now);
            && Recorded(t, if outcome.NowStopped? then clock else now, outcome.NowRebooting?)
            && (outcome.NowRebooting? <==> s.critical && Unrequested(s) && Reboots(s.exits + [now]))
            && (outcome.NowRebooting? ==> t.exits == s.exits + [now] && Track(t.exits).count > THRESHOLD)
  {
    var e := Exited(s);
    SameRecord(s, e, clock, false);
    if !e.disabled {
      CrashRecorded(e, clock, now);
      SameRecord(Crashed(e, now), Crashed(e, now).(restarting := true), now, OverThreshold(e, now));
    }
  }

  lemma LaterRecorded(s: Svc, clock: int, rebooted: bool, clock': int, rebooted': bool)
    requires Recorded(s, clock, rebooted) && clock <= clock' && (rebooted ==> rebooted')
    ensures Recorded(s, clock', rebooted')
  {
  }

  lemma {:induction false} BeginReapRecorded(st: State, pid: int, i: nat, elapsed: nat)
    requires AllRecorded(st) && !st.rebooted && i < |st.svcs|
    ensures AllRecorded(BeginReap(st, pid, i, elapsed))
  {
    hide Recorded;
    var r := BeginReap(st, pid, i, elapsed);
    assert r.svcs[i] == AfterExit(st.svcs[i], st.clock + elapsed).0;
    AfterExitRecorded(st.svcs[i], st.clock, st.clock + elapsed);
    forall k | 0 <= k < |r.svcs|
      ensures Recorded(r.svcs[k], r.clock, r.rebooted)
    {
      if k != i {
        assert r.svcs[k] == st.svcs[k];
        LaterRecorded(st.svcs[k], st.clock, st.rebooted, r.clock, r.rebooted);
      }
    }
  }

  /** Commands change no record. */
  lemma {:induction false} RunRecorded(st: State, ops: Ops)
    requires AllRecorded(st)
    ensures AllRecorded(Run(st, ops))
  {
    var r := Run(st, ops);
    forall k | 0 <= k < |r.svcs|
      ensures Recorded(r.svcs[k], r.clock, r.rebooted)
    {
      RunAffects(st, ops, k);
      assert Recorded(st.svcs[k], st.clock, st.rebooted);
    }
  }

  lemma {:induction false} ReapRecorded(st: State, pid: int, elapsed: nat, onrestart: Ops, nested: Ops)
    requires AllRecorded(st) && !st.rebooted
    ensures AllRecorded(Reap(st, pid, elapsed, onrestart, nested))
  {
    var i := FindByPid(st.svcs, pid);
    if pid in st.children && pid > 0 && i < |st.svcs| {
      var next := BeginReap(st, pid, i, elapsed);
      BeginReapRecorded(st, pid, i, elapsed);
      RunRecorded(next, nested);
      RunRecorded(next, onrestart);
      RunRecorded(Run(next, onrestart), nested);
    } else {
      forall k | 0 <= k < |st.svcs|
        ensures Recorded(st.svcs[k], st.clock, st.rebooted)
      {
      }
    }
  }

  lemma {:induction false} RestartIfNeededRecorded(st: State, i: nat, p: Plan)
    requires AllRecorded(st) && i < |st.svcs|
    ensures AllRecorded(RestartIfNeeded(st, i, p))
  {
    var r := RestartIfNeeded(st, i, p);
    forall k | 0 <= k < |r.svcs|
      ensures Recorded(r.svcs[k], r.clock, r.rebooted)
    {
      assert Recorded(st.svcs[k], st.clock, st.rebooted);
      RestartIfNeededAffects(st, i, p, k);
    }
  }

  lemma {:induction false} RestartFromRecorded(st: State, i: nat, plans: seq<Plan>)
    requires AllRecorded(st) && i <= |st.svcs|
    ensures AllRecorded(RestartFrom(st, i, plans))
    decreases |st.svcs| - i
  {
    if i < |st.svcs| {
      if st.svcs[i].restarting {
        RestartIfNeededRecorded(st, i, PlanAt(plans, i));
        RestartFromRecorded(RestartIfNeeded(st, i, PlanAt(plans, i)), i + 1, plans);
      } else {
        RestartFromRecorded(st, i + 1, plans);
      }
    }
  }

  lemma {:induction false} RestartRoundRecorded(st: State, plans: seq<Plan>, elapsed: nat)
    requires AllRecorded(st)
    ensures AllRecorded(RestartRound(st, plans, elapsed))
  {
    assert forall k :: 0 <= k < |st.svcs| ==> Recorded(st.svcs[k], st.clock, st.rebooted);
    RestartFromRecorded(st.(needsRestart := 0), 0, plans);
    var r, later := RestartProcesses(st, plans), RestartRound(st, plans, elapsed);
    forall k | 0 <= k < |later.svcs|
      ensures Recorded(later.svcs[k], later.clock, later.rebooted)
    {
      LaterRecorded(r.svcs[k], r.clock, r.rebooted, later.clock, later.rebooted);
    }
  }

  lemma {:induction false} StepRecorded(st: State, e: Event)
    requires AllRecorded(st)
    ensures AllRecorded(Step(st, e))
  {
    if !st.rebooted {
      match e
      case Commands(ops) => RunRecorded(st, ops);
      case Exit(pid, elapsed, onrestart, nested) => ReapRecorded(st, pid, elapsed, onrestart, nested);
      case Restarts(plans, elapsed) => RestartRoundRecorded(st, plans, elapsed);
    }
  }

  lemma {:induction false} StepsRecorded(st: State, events: seq<Event>)
    requires AllRecorded(st)
    ensures AllRecorded(Steps(st, events))
    decreases |events|
  {
    if events != [] {
      StepRecorded(st, events[0]);
      StepsRecorded(Step(st, events[0]), events[1..]);
    }
  }

  lemma {:induction false} InitRecorded(st: State)
    requires Init(st)
    ensures AllRecorded(st)
  {
    forall i | 0 <= i < |st.svcs|
      ensures Recorded(st.svcs[i], st.clock, st.rebooted)
    {
      assert Fresh(st.svcs[i]);
    }
  }

  // ---------- the main results ----------

  /** Until a reboot the counter of a critical service is at most 4, and it is the number of exits
      nobody had asked for since the anchor. */
  lemma {:induction false} EveryCounterOk(st: State, events: seq<Event>, i: nat)
    requires Init(st) && i < |Steps(st, events).svcs|
    ensures var r := Steps(st, events); var s := r.svcs[i];
            && (s.critical ==> s.counter.count == Since(s.exits, s.counter.anchor))
            && (!r.rebooted ==> s.counter.count <= THRESHOLD)
  {
    InitRecorded(st);
    StepsRecorded(st, events);
    var r := Steps(st, events);
    assert Recorded(r.svcs[i], r.clock, r.rebooted);
    if r.svcs[i].critical {
      TrackMeaning(r.svcs[i].exits);
    }
  }

  lemma {:induction false} ReapReboots(st: State, pid: int, elapsed: nat, onrestart: Ops, nested: Ops)
    requires !st.rebooted
    ensures var i := FindByPid(st.svcs, pid);
            Reap(st, pid, elapsed, onrestart, nested).rebooted <==>
              && pid in st.children && pid > 0 && i < |st.svcs|
              && AfterExit(st.svcs[i], st.clock + elapsed).1.NowRebooting?
    ensures var i := FindByPid(st.svcs, pid);
            var r := Reap(st, pid, elapsed, onrestart, nested);
            r.rebooted ==> r == BeginReap(st, pid, i, elapsed)
  {
  }

  /** The exit of a child asks for a reboot exactly when its service is critical, has not been
      stopped, and five of its exits now fall into one window. */
  lemma {:induction false} ReapRebootsExactly(st: State, pid: int, elapsed: nat, onrestart: Ops, nested: Ops)
    requires AllRecorded(st) && !st.rebooted && pid in st.children && pid > 0
    ensures var i := FindByPid(st.svcs, pid);
            Reap(st, pid, elapsed, onrestart, nested).rebooted <==>
              i < |st.svcs| && st.svcs[i].critical && Unrequested(st.svcs[i])
              && Largest(st.svcs[i].exits + [st.clock + elapsed], 0, 0) > THRESHOLD
  {
    var i := FindByPid(st.svcs, pid);
    ReapReboots(st, pid, elapsed, onrestart, nested);
    if i < |st.svcs| {
      AfterExitRecorded(st.svcs[i], st.clock, st.clock + elapsed);
      RebootsExactly(st.svcs[i].exits + [st.clock + elapsed]);
    }
  }

  lemma {:induction false} AfterExitFive(was: Svc, clock: int, now: int)
    requires Recorded(was, clock, false) && 0 <= clock <= now && AfterExit(was, now).1.NowRebooting?
    ensures var s := AfterExit(was, now).0;
            && s.critical && |s.exits| >= 5 && s.exits[|s.exits| - 1] == now
            && s.exits[|s.exits| - 1] - s.exits[|s.exits| - 5] <= WINDOW
  {
    AfterExitRecorded(was, clock, now);
    SortedMore(was.exits, clock, now);
    RebootMeaning(was.exits + [now]);
  }

  lemma {:induction false} OnlyExitsReboot(st: State, e: Event)
    requires !st.rebooted && Step(st, e).rebooted
    ensures e.Exit?
  {
  }

  /** A reboot is asked for only when five exits of one critical service, the last of them just now,
      lie within four minutes. */
  lemma {:induction false} RebootOnlyAfterFive(st: State, e: Event) returns (i: nat)
    requires AllRecorded(st) && !st.rebooted && Step(st, e).rebooted
    ensures i < |Step(st, e).svcs|
    ensures var s := Step(st, e).svcs[i];
            && s.critical && |s.exits| >= 5
            && s.exits[|s.exits| - 1] - s.exits[|s.exits| - 5] <= WINDOW
            && s.exits[|s.exits| - 1] == Step(st, e).clock
  {
    OnlyExitsReboot(st, e);
    i := FindByPid(st.svcs, e.pid);
    ReapReboots(st, e.pid, e.elapsed, e.onrestart, e.nested);
    AfterExitFive(st.svcs[i], st.clock, st.clock + e.elapsed);
  }
}
