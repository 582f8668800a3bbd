/** The wake lock that unsolicited responses take, and the timers that release it. Each call, and
    each timer that fires, is one step. Times are in microseconds, as in the event loop. */
module WakeLock {
  const WAKE_TIMEOUT := 1_000_000

  /** A timed callback. `releases` says that it is wakeTimeoutCallback; a parameter other than NULL
      then means that it has been cancelled. */
  class UserCallbackInfo {
    const releases: bool
    const due: int
    var param: int

    constructor (releases: bool, due: int)
      ensures this.releases == releases && this.due == due && param == 0
    {
      this.releases, this.due, param := releases, due, 0;
    }

    ghost predicate Live()
      reads this
    {
      releases && param == 0
    }
  }

  class Ril {
    var held: bool
    var lastWakeTimeoutInfo: UserCallbackInfo?
    /** The callbacks that have not fired yet, whether their timers have expired or not. */
    var queue: seq<UserCallbackInfo>
    var clock: int
    /** When the last wake-type response was scheduled. */
    ghost var scheduled: int

    constructor (now: int)
      ensures Valid() && !held && queue == [] && clock == scheduled == now
    {
      held, lastWakeTimeoutInfo, queue, clock, scheduled := false, null, [], now, now;
    }

    ghost predicate Valid()
      reads this, queue
    {
      && (forall i, j :: 0 <= i < j < |queue| ==> queue[i] != queue[j])
      && (forall i :: 0 <= i < |queue| && queue[i].Live() ==> queue[i] == lastWakeTimeoutInfo)
      && (lastWakeTimeoutInfo == null ==> !held)
      && (lastWakeTimeoutInfo != null ==>
            && lastWakeTimeoutInfo in queue && lastWakeTimeoutInfo.Live()
            && lastWakeTimeoutInfo.due == scheduled + WAKE_TIMEOUT)
    }

    /** Whenever the lock is held, exactly one queued callback will release it: the one on record,
        one second after the latest scheduled response. */
    lemma HeldIsReleased(t: UserCallbackInfo)
      requires Valid() && held
      ensures t in queue && t.Live() <==> t == lastWakeTimeoutInfo
      ensures t == lastWakeTimeoutInfo ==> t.due == scheduled + WAKE_TIMEOUT
    {
      if t in queue {
        var i :| 0 <= i < |queue| && queue[i] == t;
      }
    }

    method RequestTimedCallback(releases: bool, relative: int) returns (info: UserCallbackInfo)
      modifies `queue
      ensures fresh(info) && info.releases == releases && info.param == 0 && info.due == clock + relative
      ensures queue == old(queue) + [info]
    {
      info := new UserCallbackInfo(releases, clock + relative);
      queue := queue + [info];
    }

    /** RIL_onUnsolicitedResponse for a known response. `wake` says that its type takes the lock,
        `ret` is what the response function returns. A response that cannot be marshalled gives the
        lock up at once, even one an earlier response still holds. */
    method OnUnsolicitedResponse(wake: bool, ret: int)
      requires Valid()
      modifies `held, `lastWakeTimeoutInfo, `queue, `scheduled, lastWakeTimeoutInfo
      ensures Valid() && clock == old(clock)
      ensures held == if wake then ret == 0 else old(held)
      ensures !wake || ret != 0 ==>
                queue == old(queue) && lastWakeTimeoutInfo == old(lastWakeTimeoutInfo) && scheduled == old(scheduled)
      ensures wake && ret == 0 ==>
                && lastWakeTimeoutInfo != null && fresh(lastWakeTimeoutInfo)
                && queue == old(queue) + [lastWakeTimeoutInfo] && scheduled == clock
                && (old(lastWakeTimeoutInfo) != null ==> old(lastWakeTimeoutInfo).param == 1)
    {
      var shouldScheduleTimeout := false;
      if wake {
        held := true;
        shouldScheduleTimeout := true;
      }
      if ret != 0 {
        if shouldScheduleTimeout {
          held := false;
        }
        return;
      }
      if shouldScheduleTimeout {
        if lastWakeTimeoutInfo != null {
          lastWakeTimeoutInfo.param := 1;
        }
        ghost var was := queue;
        var info := RequestTimedCallback(true, WAKE_TIMEOUT);
        lastWakeTimeoutInfo, scheduled := info, clock;
        assert queue[|was|] == info && forall i :: 0 <= i < |was| ==> queue[i] == was[i];
      }
    }

    /** A callback the vendor's code asks for; it releases nothing. */
    method VendorCallback(relative: int) returns (info: UserCallbackInfo)
      requires Valid()
      modifies `queue
      ensures Valid() && held == old(held) && lastWakeTimeoutInfo == old(lastWakeTimeoutInfo)
      ensures fresh(info) && queue == old(queue) + [info] && !info.releases && info.due == clock + relative
    {
      info := RequestTimedCallback(false, relative);
      assert forall i :: 0 <= i < |old(queue)| ==> queue[i] == old(queue)[i];
    }

    /** userTimerCallback for a timer that has expired. Only the callback on record releases the lock. */
    method UserTimerCallback(k: nat)
      requires Valid() && k < |queue| && queue[k].due < clock
      modifies `held, `lastWakeTimeoutInfo, `queue
      ensures Valid() && queue == old(queue)[..k] + old(queue)[k + 1..]
      ensures held == (old(held) && old(queue)[k] != old(lastWakeTimeoutInfo))
      ensures lastWakeTimeoutInfo
              == if old(queue)[k] == old(lastWakeTimeoutInfo) then null else old(lastWakeTimeoutInfo)
    {
      var info := queue[k];
      if info.releases && info.param == 0 {
        held := false;
      }
      if lastWakeTimeoutInfo != null && lastWakeTimeoutInfo == info {
        lastWakeTimeoutInfo := null;
      }
      ghost var was := queue;
      queue := queue[..k] + queue[k + 1..];
      forall i | 0 <= i < |queue|
        ensures queue[i] == was[if i < k then i else i + 1]
      {
      }
      if lastWakeTimeoutInfo != null {
        ghost var n :| 0 <= n < |was| && was[n] == lastWakeTimeoutInfo;
        assert queue[if n < k then n else n - 1] == lastWakeTimeoutInfo;
      }
    }

    method Wait(elapsed: nat)
      requires Valid()
      modifies `clock
      ensures Valid() && clock == old(clock) + elapsed
    {
      clock := clock + elapsed;
    }
  }

  // ---------- runs ----------

  datatype Event =
    | Unsolicited(wake: bool, ret: int)
    | Vendor(relative: int)
    | Fire(k: nat)
    | Elapse(time: nat)

  function ClockAfter(clock: int, e: Event): int {
    if e.Elapse? then clock + e.time else clock
  }

  function ScheduledAfter(scheduled: int, clock: int, e: Event): int {
    if e == Unsolicited(true, 0) then clock else scheduled
  }

  /** Whether the latest wake-type response took the lock and kept it. */
  predicate TakenAfter(taken: bool, e: Event) {
    if e.Unsolicited? && e.wake then e.ret == 0 else taken
  }

  function Clock(now: int, events: seq<Event>): int {
    if events == [] then now
    else ClockAfter(Clock(now, events[..|events| - 1]), events[|events| - 1])
  }

  function Scheduled(now: int, events: seq<Event>): int {
    if events == [] then now
    else
      var before := events[..|events| - 1];
      ScheduledAfter(Scheduled(now, before), Clock(now, before), events[|events| - 1])
  }

  predicate Taken(events: seq<Event>) {
    events != [] && TakenAfter(Taken(events[..|events| - 1]), events[|events| - 1])
  }

  predicate IsWake(e: Event) {
    e.Unsolicited? && e.wake
  }

  /** Times and the lock, told from the events: time only passes where it is said to, and the latest
      wake-type response decides alone, by whether it was marshalled. */
  lemma {:induction false} LatestWake(now: int, before: seq<Event>, ret: int, after: seq<Event>)
    requires forall i :: 0 <= i < |after| ==> !IsWake(after[i])
    ensures var all := before + [Unsolicited(true, ret)] + after;
            && (Taken(all) <==> ret == 0)
            && Scheduled(now, all) == (if ret == 0 then Clock(now, before) else Scheduled(now, before))
    decreases |after|
  {
    var run := before + [Unsolicited(true, ret)];
    var all := run + after;
    if after == [] {
      assert all == run && run[..|run| - 1] == before;
    } else {
      var n := |after| - 1;
      assert all[..|all| - 1] == run + after[..n] && all[|all| - 1] == after[n];
      assert !IsWake(after[n]);
      LatestWake(now, before, ret, after[..n]);
    }
  }

  lemma {:induction false} NoWake(now: int, events: seq<Event>)
    requires forall i :: 0 <= i < |events| ==> !IsWake(events[i])
    ensures !Taken(events) && Scheduled(now, events) == now
    decreases |events|
  {
    if events != [] {
      assert !IsWake(events[|events| - 1]);
      NoWake(now, events[..|events| - 1]);
    }
  }

  /** Each stretch of waiting counts, and nothing else takes time. */
  lemma {:induction false} ClockExactly(now: int, events: seq<Event>, e: Event)
    ensures Clock(now, []) == now
    ensures Clock(now, events + [e]) == Clock(now, events) + if e.Elapse? then e.time else 0
  {
    assert (events + [e])[..|events|] == events;
  }

  /** The lock is held only for the latest wake-type response, and for the whole second after it. */
  predicate HeldRight(held: bool, taken: bool, clock: int, scheduled: int) {
    (held ==> taken) && (taken && !held ==> clock > scheduled + WAKE_TIMEOUT)
  }

  method Handle(ril: Ril, e: Event, ghost taken: bool)
    requires ril.Valid() && HeldRight(ril.held, taken, ril.clock, ril.scheduled)
    modifies ril, ril.queue
    ensures ril.Valid() && HeldRight(ril.held, TakenAfter(taken, e), ril.clock, ril.scheduled)
    ensures ril.clock == ClockAfter(old(ril.clock), e)
    ensures ril.scheduled == ScheduledAfter(old(ril.scheduled), old(ril.clock), e)
    ensures fresh(set t | t in ril.queue && t !in old(ril.queue))
  {
    match e
    case Unsolicited(wake, ret) => ril.OnUnsolicitedResponse(wake, ret);
    case Vendor(relative) => var info := ril.VendorCallback(relative);
    case Fire(k) =>
      if k < |ril.queue| && ril.queue[k].due < ril.clock {
        ril.UserTimerCallback(k);
      }
    case Elapse(time) => ril.Wait(time);
  }

  /** After any run, once every expired callback has fired, the lock is held exactly when the latest
      wake-type response was marshalled and came within the last second; and while it is held,
      exactly one callback of the queue will release it. */
  method Session(now: int, events: seq<Event>) returns (ril: Ril)
    ensures ril.clock == Clock(now, events)
    ensures ril.held ==>
              var r := ril.lastWakeTimeoutInfo;
              && r != null && r in ril.queue && r.due == Scheduled(now, events) + 1_000_000
              && (forall t :: t in ril.queue ==> (t.Live() <==> t == r))
    ensures ril.clock <= Scheduled(now, events) + 1_000_000 ==> (ril.held <==> Taken(events))
    ensures (forall i :: 0 <= i < |ril.queue| ==> ril.queue[i].due >= ril.clock) ==>
              (ril.held <==> Taken(events) && ril.clock <= Scheduled(now, events) + 1_000_000)
  {
    ril := new Ril(now);
    for n := 0 to |events|
      invariant fresh(ril) && ril.Valid() && fresh(ril.queue)
      invariant ril.clock == Clock(now, events[..n]) && ril.scheduled == Scheduled(now, events[..n])
      invariant HeldRight(ril.held, Taken(events[..n]), ril.clock, ril.scheduled)
    {
      assert events[..n + 1][..n] == events[..n];
      ghost var was := ril.queue;
      Handle(ril, events[n], Taken(events[..n]));
      assert forall t :: t in ril.queue ==> t in was || fresh(t);
    }
    assert events[..|events|] == events;
    if ril.held {
      forall t | t in ril.queue
        ensures t.Live() <==> t == ril.lastWakeTimeoutInfo
      {
        ril.HeldIsReleased(t);
      }
    }
  }
}
