/** The event loop of the RIL daemon: timers and ready events kept on circular doubly linked
    rings, watched descriptors kept in a fixed table. */
module TimeVal {
  datatype Timeval = Timeval(sec: int, usec: int) {
    predicate Normal() {
      0 <= usec < 1_000_000
    }

    function Micros(): int {
      sec * 1_000_000 + usec
    }
  }

  /** The three macros agree with plain arithmetic on microseconds. */
  function TimerAdd(t: Timeval, u: Timeval): (v: Timeval)
    requires t.Normal() && u.Normal()
    ensures v.Normal() && v.Micros() == t.Micros() + u.Micros()
  {
    var v := Timeval(t.sec + u.sec, t.usec + u.usec);
    if v.usec >= 1_000_000 then Timeval(v.sec + 1, v.usec - 1_000_000) else v
  }

  function TimerSub(a: Timeval, b: Timeval): (r: Timeval)
    requires a.Normal() && b.Normal()
    ensures r.Normal() && r.Micros() == a.Micros() - b.Micros()
  {
    var r := Timeval(a.sec - b.sec, a.usec - b.usec);
    if r.usec < 0 then Timeval(r.sec - 1, r.usec + 1_000_000) else r
  }

  predicate TimerLess(a: Timeval, b: Timeval)
    requires a.Normal() && b.Normal()
    ensures TimerLess(a, b) <==> a.Micros() < b.Micros()
  {
    if a.sec == b.sec then a.usec < b.usec else a.sec < b.sec
  }
}

/** Circular doubly linked lists of events. */
module EventRing {
  import opened TimeVal

  // Max number of descriptors watched at any one time.
  const MAX_FD_EVENTS: nat := 8

  class RilEvent {
    var next: RilEvent?
    var prev: RilEvent?
    var fd: int
    var index: int
    var persist: bool
    var timeout: Timeval

    /** ril_event_set, and init_list for a list head. */
    constructor (fd: int, persist: bool)
      ensures next == null && prev == null && index == -1
      ensures this.fd == fd && this.persist == persist && timeout == Timeval(0, 0)
    {
      next, prev := null, null;
      this.fd := fd;
      index := -1;
      this.persist := persist;
      timeout := Timeval(0, 0);
    }
  }

  /** The i-th event of the ring; the positions just outside are the head. */
  ghost function At(h: RilEvent, s: seq<RilEvent>, i: int): RilEvent {
    if 0 <= i < |s| then s[i] else h
  }

  ghost predicate Distinct(h: RilEvent, s: seq<RilEvent>) {
    (forall i, j :: 0 <= i < j < |s| ==> s[i] != s[j]) && (forall i :: 0 <= i < |s| ==> s[i] != h)
  }

  /** `s` hangs on the head `h` as a circular doubly linked list. */
  ghost predicate Ring(h: RilEvent, s: seq<RilEvent>)
    reads h`next, h`prev, s`next, s`prev
  {
    && Distinct(h, s)
    && h.next == At(h, s, 0) && h.prev == At(h, s, |s| - 1)
    && (forall i {:trigger s[i].next} :: 0 <= i < |s| ==> s[i].next == At(h, s, i + 1))
    && (forall i {:trigger s[i].prev} :: 0 <= i < |s| ==> s[i].prev == At(h, s, i - 1))
  }

  function Insert<T>(s: seq<T>, k: nat, x: T): (t: seq<T>)
    requires k <= |s|
    ensures |t| == |s| + 1 && t[k] == x
    ensures forall i :: 0 <= i < k ==> t[i] == s[i]
    ensures forall i :: k < i < |t| ==> t[i] == s[i - 1]
  {
    s[..k] + [x] + s[k..]
  }

  function Remove<T>(s: seq<T>, k: nat): (t: seq<T>)
    requires k < |s|
    ensures |t| == |s| - 1
    ensures forall i :: 0 <= i < k ==> t[i] == s[i]
    ensures forall i :: k <= i < |t| ==> t[i] == s[i + 1]
  {
    s[..k] + s[k + 1..]
  }

  lemma DistinctInsert(h: RilEvent, s: seq<RilEvent>, ev: RilEvent, k: nat)
    requires Distinct(h, s) && k <= |s| && ev != h && forall i :: 0 <= i < |s| ==> s[i] != ev
    ensures Distinct(h, Insert(s, k, ev))
  {
  }

  lemma DistinctRemove(h: RilEvent, s: seq<RilEvent>, k: nat)
    requires Distinct(h, s) && k < |s|
    ensures Distinct(h, Remove(s, k))
  {
  }

  lemma RingInserted(h: RilEvent, s: seq<RilEvent>, ev: RilEvent, k: nat, t: seq<RilEvent>)
    requires k <= |s| && t == Insert(s, k, ev) && Distinct(h, t)
    requires ev.next == At(h, s, k) && ev.prev == At(h, s, k - 1)
    requires h.next == (if k == 0 then ev else At(h, s, 0))
    requires h.prev == (if k == |s| then ev else At(h, s, |s| - 1))
    requires forall i {:trigger s[i].next} :: 0 <= i < |s| ==> s[i].next == if i + 1 == k then ev else At(h, s, i + 1)
    requires forall i {:trigger s[i].prev} :: 0 <= i < |s| ==> s[i].prev == if i == k then ev else At(h, s, i - 1)
    ensures Ring(h, t)
  {
    forall i | 0 <= i < |t|
      ensures t[i].next == At(h, t, i + 1) && t[i].prev == At(h, t, i - 1)
    {
      if i < k {
        assert s[i].next == t[i].next && s[i].prev == t[i].prev;
      } else if i > k {
        assert s[i - 1].next == t[i].next && s[i - 1].prev == t[i].prev;
      }
    }
  }

  lemma RingRemoved(h: RilEvent, s: seq<RilEvent>, k: nat, t: seq<RilEvent>)
    requires k < |s| && t == Remove(s, k) && Distinct(h, t)
    requires h.next == (if k == 0 then At(h, s, 1) else At(h, s, 0))
    requires h.prev == (if k == |s| - 1 then At(h, s, k - 1) else At(h, s, |s| - 1))
    requires forall i {:trigger s[i].next} :: 0 <= i < |s| && i != k ==>
      s[i].next == if i + 1 == k then At(h, s, k + 1) else At(h, s, i + 1)
    requires forall i {:trigger s[i].prev} :: 0 <= i < |s| && i != k ==>
      s[i].prev == if i - 1 == k then At(h, s, k - 1) else At(h, s, i - 1)
    ensures Ring(h, t)
  {
    forall i | 0 <= i < |t|
      ensures t[i].next == At(h, t, i + 1) && t[i].prev == At(h, t, i - 1)
    {
      if i < k {
        assert s[i].next == t[i].next && s[i].prev == t[i].prev;
      } else {
        assert s[i + 1].next == t[i].next && s[i + 1].prev == t[i].prev;
      }
    }
  }

  /** Links `ev` in just before `list`, the k-th position of the ring. */
  method AddToList(ev: RilEvent, list: RilEvent, ghost h: RilEvent, ghost s: seq<RilEvent>, ghost k: nat)
    requires Ring(h, s) && k <= |s| && list == At(h, s, k)
    requires ev != h && ev !in s
    modifies ev`next, ev`prev, list`prev, list.prev`next
    ensures Ring(h, Insert(s, k, ev))
  {
    DistinctInsert(h, s, ev, k);
    ev.next := list;
    ev.prev := list.prev;
    ev.prev.next := ev;
    list.prev := ev;
    RingInserted(h, s, ev, k, Insert(s, k, ev));
  }

  method RemoveFromList(ev: RilEvent, ghost h: RilEvent, ghost s: seq<RilEvent>, ghost k: nat)
    requires Ring(h, s) && k < |s| && s[k] == ev
    modifies ev`next, ev`prev, ev.next`prev, ev.prev`next
    ensures Ring(h, Remove(s, k))
    ensures ev.next == null && ev.prev == null
  {
    DistinctRemove(h, s, k);
    ev.next.prev := ev.prev;
    ev.prev.next := ev.next;
    ev.next := null;
    ev.prev := null;
    RingRemoved(h, s, k, Remove(s, k));
  }

  /** addToList with the list head itself appends. */
  method PushBack(ev: RilEvent, h: RilEvent, ghost s: seq<RilEvent>)
    requires Ring(h, s) && ev != h && ev !in s
    modifies ev`next, ev`prev, h`prev, h.prev`next
    ensures Ring(h, s + [ev])
  {
    assert Insert(s, |s|, ev) == s + [ev];
    AddToList(ev, h, h, s, |s|);
  }

  method PopFront(ev: RilEvent, ghost h: RilEvent, ghost s: seq<RilEvent>)
    requires Ring(h, s) && s != [] && s[0] == ev
    modifies ev`next, ev`prev, ev.next`prev, ev.prev`next
    ensures Ring(h, s[1..])
    ensures ev.next == null && ev.prev == null
  {
    assert Remove(s, 0) == s[1..];
    RemoveFromList(ev, h, s, 0);
  }
}

module EventLoop {
  import opened Common
  import opened TimeVal
  import opened EventRing

  predicate Ascending(d: seq<int>) {
    forall i, j :: 0 <= i < j < |d| ==> d[i] <= d[j]
  }

  /** The timers carry these deadlines, in microseconds. */
  ghost predicate Due(s: seq<RilEvent>, d: seq<int>)
    reads s`timeout
  {
    |s| == |d| && forall i {:trigger s[i].timeout} :: 0 <= i < |s| ==>
      s[i].timeout.Normal() && s[i].timeout.Micros() == d[i]
  }

  ghost predicate Off(x: RilEvent, h: RilEvent, s: seq<RilEvent>) {
    x != h && forall j :: 0 <= j < |s| ==> s[j] != x
  }

  /** No event lies on both rings. */
  ghost predicate Apart(h: RilEvent, s: seq<RilEvent>, h': RilEvent, s': seq<RilEvent>) {
    forall i {:trigger At(h, s, i)} :: Off(At(h, s, i), h', s')
  }

  lemma AscendingInsert(d: seq<int>, k: nat, x: int)
    requires Ascending(d) && k <= |d|
    requires (forall i :: 0 <= i < k ==> d[i] < x) && (k < |d| ==> d[k] >= x)
    ensures Ascending(Insert(d, k, x))
  {
  }

  lemma DueInsert(s: seq<RilEvent>, d: seq<int>, ev: RilEvent, k: nat)
    requires Due(s, d) && k <= |s| && ev.timeout.Normal()
    ensures Due(Insert(s, k, ev), Insert(d, k, ev.timeout.Micros()))
  {
    var t := Insert(s, k, ev);
    forall i | 0 <= i < |t|
      ensures t[i].timeout.Normal() && t[i].timeout.Micros() == Insert(d, k, ev.timeout.Micros())[i]
    {
      if i < k {
        assert s[i].timeout == t[i].timeout;
      } else if i > k {
        assert s[i - 1].timeout == t[i].timeout;
      }
    }
  }

  lemma ApartInsert(h: RilEvent, s: seq<RilEvent>, h': RilEvent, s': seq<RilEvent>, ev: RilEvent, k: nat)
    requires k <= |s| && Apart(h, s, h', s') && Off(ev, h', s')
    ensures Apart(h, Insert(s, k, ev), h', s')
  {
    forall i
      ensures Off(At(h, Insert(s, k, ev), i), h', s')
    {
      var x, y := At(h, s, i), At(h, s, i - 1);
    }
  }

  /** The first event of one ring becomes the last of the other. */
  lemma ApartMove(h: RilEvent, s: seq<RilEvent>, h': RilEvent, s': seq<RilEvent>)
    requires Distinct(h, s) && s != [] && Apart(h, s, h', s')
    ensures Apart(h, s[1..], h', s' + [s[0]])
    ensures Off(s[0], h', s') && Apart(h, s[1..], h', s')
  {
    var x := At(h, s, 0);
    forall i
      ensures Off(At(h, s[1..], i), h', s' + [s[0]]) && Off(At(h, s[1..], i), h', s')
    {
      var y := At(h, s, i + 1);
      var z := At(h, s, -1);
    }
  }

  lemma ApartPop(h: RilEvent, s: seq<RilEvent>, h': RilEvent, s': seq<RilEvent>)
    requires s' != [] && Apart(h, s, h', s')
    ensures Apart(h, s, h', s'[1..])
  {
    forall i
      ensures Off(At(h, s, i), h', s'[1..])
    {
      assert Off(At(h, s, i), h', s');
      assert forall j :: 0 <= j < |s'[1..]| ==> s'[1..][j] == s'[j + 1];
    }
  }

  lemma Slide<T>(s: seq<T>, n: nat)
    requires n < |s|
    ensures s[n..][0] == s[n] && s[n..][1..] == s[n + 1..] && s[..n] + [s[n]] == s[..n + 1]
  {
  }

  class Mutex {
    var held: bool

    constructor ()
      ensures !held
    {
      held := false;
    }
  }

  /** The timer ring and the ring of events about to fire. */
  class Lists {
    const listMutex: Mutex
    const timerList: RilEvent
    const pendingList: RilEvent
    ghost var timers: seq<RilEvent>
    ghost var deadlines: seq<int>
    ghost var pending: seq<RilEvent>
    ghost var fired: seq<RilEvent>
    ghost var events: set<RilEvent>

    /** Two separate rings, the timers in the order of their deadlines. */
    ghost predicate Valid()
      reads this, timerList`next, timerList`prev, timerList`timeout, pendingList`next, pendingList`prev
      reads timers`next, timers`prev, timers`timeout, pending`next, pending`prev
    {
      && Ring(timerList, timers) && Ring(pendingList, pending)
      && Apart(timerList, timers, pendingList, pending)
      && timerList.timeout.Normal() && Due(timers, deadlines) && Ascending(deadlines)
      && timerList in events && pendingList in events
      && (forall i :: 0 <= i < |timers| ==> timers[i] in events)
      && (forall i :: 0 <= i < |pending| ==> pending[i] in events)
    }

    /** `ev` lies on neither ring. */
    ghost predicate Idle(ev: RilEvent)
      reads this`timers, this`pending
    {
      Off(ev, timerList, timers) && Off(ev, pendingList, pending)
    }

    /** ril_event_init. */
    constructor ()
      ensures Valid() && timers == [] && pending == [] && fired == []
      ensures !listMutex.held && fresh(timerList) && fresh(pendingList) && fresh(listMutex)
      ensures events == {timerList, pendingList} && timerList.index == -1 && pendingList.index == -1
    {
      listMutex := new Mutex();
      timerList := new RilEvent(-1, false);
      pendingList := new RilEvent(-1, false);
      timers, deadlines, pending, fired := [], [], [], [];
      events := {timerList, pendingList};
      new;
      timerList.next := timerList;
      timerList.prev := timerList;
      pendingList.next := pendingList;
      pendingList.prev := pendingList;
    }

    /** The first event on the timer ring that is not due before `due`. */
    method FindSlot(due: Timeval) returns (list: RilEvent, ghost k: nat)
      requires Valid() && due.Normal()
      ensures k <= |timers| && list == At(timerList, timers, k)
      ensures list == timerList <==> forall i :: 0 <= i < |deadlines| ==> deadlines[i] < due.Micros()
      ensures forall i :: 0 <= i < k ==> deadlines[i] < due.Micros()
      ensures k < |timers| ==> deadlines[k] >= due.Micros()
    {
      list := timerList.next;
      k := 0;
      while TimerLess(list.timeout, due) && list != timerList
        invariant k <= |timers| && list == At(timerList, timers, k)
        invariant forall i :: 0 <= i < k ==> deadlines[i] < due.Micros()
        decreases |timers| - k
      {
        assert timers[k].next == At(timerList, timers, k + 1);
        list := list.next;
        k := k + 1;
      }
      assert k < |timers| ==> timers[k].timeout.Micros() == deadlines[k];
    }

    /** Puts a timer on the sorted ring, before the first one that is not due earlier. */
    method TimerAdd(ev: RilEvent, tv: Option<Timeval>, now: Timeval) returns (ghost k: nat)
      requires Valid() && !listMutex.held && Idle(ev)
      requires now.Normal() && (tv != None ==> tv.value.Normal())
      modifies this`timers, this`deadlines, this`events, listMutex
      modifies events`next, events`prev, ev`next, ev`prev, ev`fd, ev`timeout
      ensures Valid() && !listMutex.held
      ensures events == old(events) + if tv == None then {} else {ev}
      ensures tv == None ==> timers == old(timers) && deadlines == old(deadlines)
      ensures tv != None ==>
        var due := now.Micros() + tv.value.Micros();
        && k <= |old(timers)| == |old(deadlines)| && ev.fd == -1
        && timers == Insert(old(timers), k, ev)
        && deadlines == Insert(old(deadlines), k, due)
        && (forall i :: 0 <= i < k ==> old(deadlines)[i] < due)
    {
      hide Insert;
      SetMutex(true);
      k := 0;
      if tv != None {
        k := AddSorted(ev, TimeVal.TimerAdd(now, tv.value));
      }
      SetMutex(false);
    }

    /** Takes or gives back the mutex. */
    method SetMutex(held: bool)
      requires Valid()
      modifies listMutex
      ensures Valid() && listMutex.held == held
    {
      listMutex.held := held;
    }

    method AddSorted(ev: RilEvent, due: Timeval) returns (ghost k: nat)
      requires Valid() && Idle(ev) && due.Normal()
      modifies this`timers, this`deadlines, this`events, events`next, events`prev, ev`next, ev`prev, ev`fd, ev`timeout
      ensures Valid() && ev.fd == -1 && events == old(events) + {ev}
      ensures k <= |old(timers)| == |old(deadlines)|
      ensures timers == Insert(old(timers), k, ev) && deadlines == Insert(old(deadlines), k, due.Micros())
      ensures forall i :: 0 <= i < k ==> old(deadlines)[i] < due.Micros()
    {
      hide Insert;
      ev.fd := -1;
      ev.timeout := due;
      var list;
      list, k := FindSlot(ev.timeout);
      InsertTimer(ev, list, k);
    }

    method InsertTimer(ev: RilEvent, list: RilEvent, ghost k: nat)
      requires Valid() && Idle(ev) && ev.timeout.Normal()
      requires k <= |timers| && list == At(timerList, timers, k)
      requires forall i :: 0 <= i < k ==> deadlines[i] < ev.timeout.Micros()
      requires k < |timers| ==> deadlines[k] >= ev.timeout.Micros()
      modifies this`timers, this`deadlines, this`events, ev`next, ev`prev, list`prev, list.prev`next
      ensures Valid() && events == old(events) + {ev}
      ensures timers == Insert(old(timers), k, ev)
      ensures deadlines == Insert(old(deadlines), k, ev.timeout.Micros())
    {
      ghost var t, d := timers, deadlines;
      AscendingInsert(d, k, ev.timeout.Micros());
      ApartInsert(timerList, t, pendingList, pending, ev, k);
      DueInsert(t, d, ev, k);
      timers, deadlines := Insert(t, k, ev), Insert(d, k, ev.timeout.Micros());
      events := events + {ev};
      AddToList(ev, list, timerList, t, k);
    }

    /** Moves the timers whose deadline lies before `now`, and only those, to the pending tail. */
    method ProcessTimeouts(now: Timeval) returns (ghost n: nat)
      requires Valid() && !listMutex.held && now.Normal()
      modifies this`timers, this`deadlines, this`pending, listMutex, events`next, events`prev
      ensures Valid() && !listMutex.held && n <= |old(timers)| == |old(deadlines)|
      ensures timers == old(timers)[n..] && deadlines == old(deadlines)[n..]
      ensures pending == old(pending) + old(timers)[..n]
      ensures forall i :: 0 <= i < |old(deadlines)| ==> (i < n <==> old(deadlines)[i] < now.Micros())
    {
      hide *;
      listMutex.held := true;
      n := MoveExpired(now);
      listMutex.held := false;
    }

    method MoveExpired(now: Timeval) returns (ghost n: nat)
      requires Valid() && now.Normal()
      modifies this`timers, this`deadlines, this`pending, events`next, events`prev
      ensures Valid() && n <= |old(timers)| == |old(deadlines)|
      ensures timers == old(timers)[n..] && deadlines == old(deadlines)[n..]
      ensures pending == old(pending) + old(timers)[..n]
      ensures forall i :: 0 <= i < |old(deadlines)| ==> (i < n <==> old(deadlines)[i] < now.Micros())
    {
      n := 0;
      ghost var all, dues, before := timers, deadlines, pending;
      var tev := timerList.next;
      while tev != timerList && TimerLess(tev.timeout, now)
        invariant Moved(all, dues, before, n) && tev == At(timerList, timers, 0)
        invariant n == 0 || dues[n - 1] < now.Micros()
        decreases |all| - n
      {
        tev := MoveNext(tev, all, dues, before, n);
        n := n + 1;
      }
      FirstDue();
      Cut(dues, n, now.Micros());
    }

    /** The first n of the timers have moved to the pending ring. */
    ghost predicate Moved(all: seq<RilEvent>, dues: seq<int>, before: seq<RilEvent>, n: nat)
      reads this, timerList`next, timerList`prev, timerList`timeout, pendingList`next, pendingList`prev
      reads timers`next, timers`prev, timers`timeout, pending`next, pending`prev
    {
      Valid() && n <= |all| == |dues| && timers == all[n..] && deadlines == dues[n..] && pending == before + all[..n]
    }

    method MoveNext(tev: RilEvent, ghost all: seq<RilEvent>, ghost dues: seq<int>, ghost before: seq<RilEvent>,
                    ghost n: nat)
      returns (next: RilEvent)
      requires Moved(all, dues, before, n) && tev != timerList && tev == At(timerList, timers, 0)
      modifies this`timers, this`deadlines, this`pending, events`next, events`prev
      ensures n < |all| && Moved(all, dues, before, n + 1) && next == At(timerList, timers, 0)
      ensures dues[n] == old(tev.timeout).Micros()
    {
      FirstDue();
      Slide(all, n);
      Slide(dues, n);
      next := MoveFirst(tev);
    }

    lemma Cut(d: seq<int>, n: nat, x: int)
      requires Ascending(d) && n <= |d| && (n == 0 || d[n - 1] < x) && (n < |d| ==> d[n..][0] >= x)
      ensures forall i :: 0 <= i < |d| ==> (i < n <==> d[i] < x)
    {
    }

    lemma FirstDue()
      requires Valid()
      ensures |deadlines| == |timers|
      ensures timers != [] ==> timers[0].timeout.Micros() == deadlines[0]
      ensures timers != [] ==> timers[0] != timerList && timers[0].timeout.Normal()
    {
    }

    /** The first timer goes from its ring to the pending tail. */
    method MoveFirst(tev: RilEvent) returns (next: RilEvent)
      requires Valid() && timers != [] && tev == timers[0]
      modifies this`timers, this`deadlines, this`pending, events`next, events`prev
      ensures Valid()
      ensures timers == old(timers)[1..] && deadlines == old(deadlines)[1..] && pending == old(pending) + [tev]
      ensures next == At(timerList, timers, 0)
    {
      assert timers[0].next == At(timerList, timers, 1);
      next := tev.next;
      ghost var t, d, p := timers, deadlines, pending;
      ApartMove(timerList, t, pendingList, p);
      PopFront(tev, timerList, t);
      PushBack(tev, pendingList, p);
      timers, deadlines, pending := t[1..], d[1..], p + [tev];
    }

    /** How long select may sleep: up to the earliest deadline, and not at all once it is reached. */
    method CalcNextTimeout(now: Timeval) returns (tv: Option<Timeval>)
      requires Valid() && now.Normal()
      ensures |deadlines| == |timers| && (tv == None <==> timers == [])
      ensures tv != None ==>
        && tv.value.Normal()
        && tv.value.Micros() == (if deadlines[0] > now.Micros() then deadlines[0] - now.Micros() else 0)
      ensures tv != None ==> forall i :: 0 <= i < |deadlines| ==>
        now.Micros() + tv.value.Micros() <= deadlines[i] || tv.value.Micros() == 0
    {
      var tev := timerList.next;
      if tev == timerList {
        return None;
      }
      assert timers[0].timeout.Micros() == deadlines[0];
      if TimerLess(now, tev.timeout) {
        tv := Some(TimerSub(tev.timeout, now));
      } else {
        tv := Some(Timeval(0, 0));
      }
    }

    /** Takes everything off the pending ring, in order, and fires it. */
    method FirePending()
      requires Valid()
      modifies this`pending, this`fired, events`next, events`prev
      ensures Valid() && pending == []
      ensures fired == old(fired) + old(pending)
    {
      ghost var all, before := pending, fired;
      ghost var k := 0;
      var ev := pendingList.next;
      while ev != pendingList
        invariant Valid() && 0 <= k <= |all|
        invariant pending == all[k..] && fired == before + all[..k]
        invariant ev == At(pendingList, pending, 0)
        decreases |all| - k
      {
        Slide(all, k);
        ev := FireFirst(ev);
        k := k + 1;
      }
    }

    method FireFirst(ev: RilEvent) returns (next: RilEvent)
      requires Valid() && pending != [] && ev == pending[0]
      modifies this`pending, this`fired, events`next, events`prev
      ensures Valid()
      ensures pending == old(pending)[1..] && fired == old(fired) + [ev]
      ensures next == At(pendingList, pending, 0)
    {
      assert pending[0].next == At(pendingList, pending, 1);
      next := ev.next;
      ghost var p := pending;
      ApartPop(timerList, timers, pendingList, p);
      PopFront(ev, pendingList, p);
      pending, fired := p[1..], fired + [ev];
    }

    /** A ready event joins the pending tail. */
    method Queue(ev: RilEvent)
      requires Valid() && Idle(ev)
      modifies this`pending, this`events, ev`next, ev`prev, events`next, events`prev
      ensures Valid() && pending == old(pending) + [ev] && events == old(events) + {ev}
    {
      ghost var p := pending;
      PushBack(ev, pendingList, p);
      pending, events := p + [ev], events + {ev};
    }
  }

  // ---------- the watch table ----------

  class Watch {
    const table: array<RilEvent?>
    var readFds: set<int>
    var nfds: int
    ghost var slot: map<int, int>

    /** The table knows exactly the descriptors in `readFds`, each in one slot, and `nfds` is just
        above the largest of them. */
    ghost predicate Valid()
      reads this, table, table[..]`fd, table[..]`index
    {
      Indexed() && (nfds > 1 ==> nfds - 1 in readFds)
    }

    ghost predicate Indexed()
      reads this, table, table[..]`fd, table[..]`index
    {
      && table.Length == MAX_FD_EVENTS && slot.Keys == readFds && nfds >= 0
      && (forall i :: 0 <= i < MAX_FD_EVENTS && table[i] != null ==> Holds(i))
      && (forall fd :: fd in slot ==>
            0 <= slot[fd] < MAX_FD_EVENTS && table[slot[fd]] != null && table[slot[fd]].fd == fd)
    }

    ghost predicate Holds(i: int)
      requires 0 <= i < table.Length && table[i] != null
      reads this, table, {table[i]}`fd, {table[i]}`index
    {
      table[i].index == i && 0 <= table[i].fd < nfds && table[i].fd in slot && slot[table[i].fd] == i
    }

    constructor ()
      ensures Valid() && readFds == {} && nfds == 0 && fresh(table)
      ensures forall i :: 0 <= i < MAX_FD_EVENTS ==> table[i] == null
    {
      table := new RilEvent?[MAX_FD_EVENTS](_ => null);
      readFds := {};
      nfds := 0;
      slot := map[];
    }

    method Place(ev: RilEvent, i: int)
      requires Valid() && ev.fd >= 0 && ev.fd !in readFds && 0 <= i < MAX_FD_EVENTS && table[i] == null
      modifies this, table, ev`index
      ensures Valid() && ev.index == i
      ensures table[..] == old(table[..])[i := ev] && readFds == old(readFds) + {ev.fd}
    {
      assert forall j :: 0 <= j < MAX_FD_EVENTS && table[j] != null ==> Holds(j) && table[j] != ev;
      table[i] := ev;
      ev.index := i;
      readFds := readFds + {ev.fd};
      slot := slot[ev.fd := i];
      if ev.fd >= nfds {
        nfds := ev.fd + 1;
      }
    }

    /** Watches `ev` in the first free slot; when all slots are taken nothing happens. */
    method EventAdd(ev: RilEvent, listMutex: Mutex) returns (ghost k: int)
      requires Valid() && !listMutex.held && ev.fd >= 0 && ev.fd !in readFds
      modifies this, table, ev`index, listMutex
      ensures Valid() && !listMutex.held
      ensures 0 <= k <= MAX_FD_EVENTS && forall i :: 0 <= i < k ==> old(table[i]) != null
      ensures k == MAX_FD_EVENTS ==>
        table[..] == old(table[..]) && readFds == old(readFds) && nfds == old(nfds) && ev.index == old(ev.index)
      ensures k < MAX_FD_EVENTS ==>
        && old(table[k]) == null && table[..] == old(table[..])[k := ev]
        && ev.index == k && readFds == old(readFds) + {ev.fd}
    {
      listMutex.held := true;
      k := 0;
      for i: int := 0 to MAX_FD_EVENTS
        invariant k == i && forall j :: 0 <= j < i ==> table[j] != null
        invariant Valid() && table[..] == old(table[..]) && readFds == old(readFds) && nfds == old(nfds)
        invariant ev.index == old(ev.index)
      {
        if table[i] == null {
          Place(ev, i);
          break;
        }
        k := k + 1;
      }
      listMutex.held := false;
    }

    /** The largest watched descriptor, or 0. */
    method LargestFd() returns (n: int)
      requires table.Length == MAX_FD_EVENTS
      ensures n >= 0 && forall i :: 0 <= i < MAX_FD_EVENTS && table[i] != null ==> table[i].fd <= n
      ensures n > 0 ==> exists i :: 0 <= i < MAX_FD_EVENTS && table[i] != null && table[i].fd == n
    {
      n := 0;
      for i: int := 0 to MAX_FD_EVENTS
        invariant n >= 0 && forall j :: 0 <= j < i && table[j] != null ==> table[j].fd <= n
        invariant n > 0 ==> exists j :: 0 <= j < i && table[j] != null && table[j].fd == n
      {
        var rev := table[i];
        if rev != null && rev.fd > n {
          n := rev.fd;
        }
      }
    }

    method ClearSlot(ev: RilEvent, index: int)
      requires Indexed() && 0 <= index < MAX_FD_EVENTS && table[index] == ev
      modifies this`readFds, this`slot, table, ev`index
      ensures Indexed() && ev.index == -1
      ensures table[..] == old(table[..])[index := null] && readFds == old(readFds) - {ev.fd}
    {
      assert Holds(index);
      assert forall j :: 0 <= j < MAX_FD_EVENTS && table[j] != null && j != index ==> Holds(j) && table[j] != ev;
      table[index] := null;
      ev.index := -1;
      readFds := readFds - {ev.fd};
      slot := slot - {ev.fd};
    }

    method Recompute()
      requires Indexed()
      modifies this`nfds
      ensures Valid() && nfds >= 1 && forall fd :: fd in readFds ==> fd < nfds
    {
      assert forall j :: 0 <= j < MAX_FD_EVENTS && table[j] != null ==> Holds(j);
      var n := LargestFd();
      nfds := n + 1;
    }

    /** `nfds` is recomputed exactly when the largest descriptor leaves. */
    method RemoveWatch(ev: RilEvent, index: int)
      requires Valid() && 0 <= index < MAX_FD_EVENTS && table[index] == ev
      modifies this, table, ev`index
      ensures Valid() && ev.index == -1
      ensures table[..] == old(table[..])[index := null] && readFds == old(readFds) - {ev.fd}
      ensures old(nfds) != ev.fd + 1 ==> nfds == old(nfds)
      ensures old(nfds) == ev.fd + 1 ==> nfds >= 1 && forall fd :: fd in readFds ==> fd < nfds
    {
      ClearSlot(ev, index);
      if ev.fd + 1 == nfds {
        Recompute();
      }
    }

    /** On a bad index the function returns with the mutex still held. */
    method EventDel(ev: RilEvent, listMutex: Mutex)
      requires Valid() && !listMutex.held
      requires 0 <= ev.index < MAX_FD_EVENTS ==> table[ev.index] == ev
      modifies this, table, ev`index, listMutex
      ensures Valid()
      ensures listMutex.held <==> !(0 <= old(ev.index) < MAX_FD_EVENTS)
      ensures 0 <= old(ev.index) < MAX_FD_EVENTS ==>
        table[..] == old(table[..])[old(ev.index) := null] && readFds == old(readFds) - {ev.fd} && ev.index == -1
      ensures !(0 <= old(ev.index) < MAX_FD_EVENTS) ==>
        table[..] == old(table[..]) && readFds == old(readFds) && nfds == old(nfds) && ev.index == old(ev.index)
    {
      listMutex.held := true;
      if ev.index < 0 || ev.index >= MAX_FD_EVENTS {
        return;
      }
      RemoveWatch(ev, ev.index);
      listMutex.held := false;
    }
  }

  // ---------- the events a select reports ----------

  datatype Slot = Free | Watching(ev: RilEvent, fd: int, persist: bool)

  predicate Ready(slots: seq<Slot>, rfds: set<int>, i: nat)
    requires i < |slots|
  {
    slots[i].Watching? && slots[i].fd in rfds
  }

  /** How many of the first i slots are ready. */
  function Count(slots: seq<Slot>, rfds: set<int>, i: nat): nat
    requires i <= |slots|
  {
    if i == 0 then 0 else Count(slots, rfds, i - 1) + if Ready(slots, rfds, i - 1) then 1 else 0
  }

  /** Of the ready slots only the first n are served. */
  predicate Served(slots: seq<Slot>, rfds: set<int>, n: int, i: nat)
    requires i < |slots|
  {
    Ready(slots, rfds, i) && Count(slots, rfds, i) < n
  }

  /** The events served among the first i slots, in the order of the table. */
  function Picked(slots: seq<Slot>, rfds: set<int>, n: int, i: nat): seq<RilEvent>
    requires i <= |slots|
  {
    if i == 0 then []
    else Picked(slots, rfds, n, i - 1) + if Served(slots, rfds, n, i - 1) then [slots[i - 1].ev] else []
  }

  /** A served event that is not persistent gives up its slot. */
  function Kept(slots: seq<Slot>, rfds: set<int>, n: int, i: nat): Slot
    requires i < |slots|
  {
    if Served(slots, rfds, n, i) && !slots[i].persist then Free else slots[i]
  }

  /** Nothing more is served once the count has run out. */
  lemma {:induction false} ServedBelow(slots: seq<Slot>, rfds: set<int>, n: int, i: nat)
    requires i <= |slots| && (i < |slots| ==> Count(slots, rfds, i) >= n)
    ensures forall j :: i <= j < |slots| ==> !Served(slots, rfds, n, j)
    ensures Picked(slots, rfds, n, |slots|) == Picked(slots, rfds, n, i)
    decreases |slots| - i
  {
    if i < |slots| {
      ServedBelow(slots, rfds, n, i + 1);
    }
  }

  predicate DifferentFds(slots: seq<Slot>) {
    forall j, k :: 0 <= j < k < |slots| && slots[j].Watching? && slots[k].Watching? ==> slots[j].fd != slots[k].fd
  }

  function ReadyFds(slots: seq<Slot>, rfds: set<int>, i: nat): set<int>
    requires i <= |slots|
  {
    set j | 0 <= j < i && Ready(slots, rfds, j) :: slots[j].fd
  }

  lemma {:induction false} CountUpTo(slots: seq<Slot>, rfds: set<int>, i: nat)
    requires i <= |slots| && DifferentFds(slots)
    ensures Count(slots, rfds, i) == |ReadyFds(slots, rfds, i)|
  {
    if i > 0 {
      CountUpTo(slots, rfds, i - 1);
      var less := ReadyFds(slots, rfds, i - 1);
      if Ready(slots, rfds, i - 1) {
        assert ReadyFds(slots, rfds, i) == less + {slots[i - 1].fd};
      } else {
        assert ReadyFds(slots, rfds, i) == less;
      }
    }
  }

  lemma Subset(s: set<int>, t: set<int>)
    requires s < t
    ensures |s| < |t|
  {
    assert t == s + (t - s);
  }

  /** When select reports as many descriptors as it found ready, every ready event is served. */
  lemma EveryReadyServed(slots: seq<Slot>, rfds: set<int>, n: int, i: nat)
    requires i < |slots| && DifferentFds(slots) && n >= |rfds|
    ensures Served(slots, rfds, n, i) <==> slots[i].Watching? && slots[i].fd in rfds
  {
    CountUpTo(slots, rfds, i);
    if Ready(slots, rfds, i) {
      Subset(ReadyFds(slots, rfds, i), rfds);
    }
  }

  /** Two different slots of one table hold different events when the descriptors differ. */
  predicate DifferentEvents(slots: seq<Slot>) {
    forall j, k :: 0 <= j < k < |slots| && slots[j].Watching? && slots[k].Watching? ==> slots[j].ev != slots[k].ev
  }

  lemma {:induction false} PickedIs(slots: seq<Slot>, rfds: set<int>, n: int, i: nat, ev: RilEvent)
    requires i <= |slots|
    ensures ev in Picked(slots, rfds, n, i) <==>
              exists j :: 0 <= j < i && Served(slots, rfds, n, j) && slots[j].ev == ev
  {
    if i > 0 {
      PickedIs(slots, rfds, n, i - 1, ev);
    }
  }

  lemma {:induction false} PickedOnce(slots: seq<Slot>, rfds: set<int>, n: int, i: nat)
    requires i <= |slots| && DifferentEvents(slots)
    ensures forall a, b :: 0 <= a < b < |Picked(slots, rfds, n, i)| ==>
              Picked(slots, rfds, n, i)[a] != Picked(slots, rfds, n, i)[b]
  {
    if i > 0 {
      PickedOnce(slots, rfds, n, i - 1);
      if Served(slots, rfds, n, i - 1) {
        PickedIs(slots, rfds, n, i - 1, slots[i - 1].ev);
      }
    }
  }

  // ---------- the record of a run ----------

  /** A timer: the number of passes before it was added, and its deadline. */
  datatype Timer = Timer(born: nat, due: int)

  /** One pass: its clock reading and the timers it found due; the table and the ready descriptors it
      met and the events it found ready. */
  datatype Round = Round(now: int, timers: seq<RilEvent>, slots: seq<Slot>, rfds: set<int>, ready: seq<RilEvent>)

  /** The first pass after the timer was added whose clock is past the deadline; the number of passes
      when there is none yet. */
  function FirstPast(rounds: seq<Round>, born: nat, due: int): (q: nat)
    requires born <= |rounds|
    ensures born <= q <= |rounds| && (q < |rounds| ==> rounds[q].now > due)
    decreases |rounds| - born
  {
    if born == |rounds| || rounds[born].now > due then born else FirstPast(rounds, born + 1, due)
  }

  lemma {:induction false} BeforeFirstPast(rounds: seq<Round>, born: nat, due: int)
    requires born <= |rounds|
    ensures forall q :: born <= q < FirstPast(rounds, born, due) ==> rounds[q].now <= due
    decreases |rounds| - born
  {
    if born < |rounds| && rounds[born].now <= due {
      BeforeFirstPast(rounds, born + 1, due);
    }
  }

  lemma {:induction false} FirstPastNext(rounds: seq<Round>, r: Round, born: nat, due: int)
    requires born <= |rounds|
    ensures var q := FirstPast(rounds, born, due);
            FirstPast(rounds + [r], born, due) == if q < |rounds| || r.now > due then q else |rounds| + 1
    decreases |rounds| - born
  {
    if born < |rounds| {
      assert (rounds + [r])[born] == rounds[born];
      if rounds[born].now <= due {
        FirstPastNext(rounds, r, born + 1, due);
      }
    } else {
      assert (rounds + [r])[born] == r;
    }
  }

  /** The timer is found due by the first pass past its deadline and by no other, and waits until then. */
  predicate Tracked(e: RilEvent, t: Timer, rounds: seq<Round>, timers: seq<RilEvent>)
    requires t.born <= |rounds|
  {
    var first := FirstPast(rounds, t.born, t.due);
    (e in timers <==> first == |rounds|) && forall q :: 0 <= q < |rounds| ==> (e in rounds[q].timers <==> q == first)
  }

  /** Added timers, each once and in the order of their deadlines. */
  predicate InOrder(timers: seq<RilEvent>, added: map<RilEvent, Timer>) {
    && (forall i :: 0 <= i < |timers| ==> timers[i] in added)
    && (forall i, j :: 0 <= i < j < |timers| ==> timers[i] != timers[j])
    && (forall i, j :: 0 <= i < j < |timers| ==> added[timers[i]].due <= added[timers[j]].due)
  }

  ghost predicate Book(added: map<RilEvent, Timer>, rounds: seq<Round>, timers: seq<RilEvent>) {
    && InOrder(timers, added)
    && (forall e {:trigger added[e]} :: e in added ==>
          added[e].born <= |rounds| && Tracked(e, added[e], rounds, timers))
    && (forall q :: 0 <= q < |rounds| ==> InOrder(rounds[q].timers, added))
  }

  lemma InOrderMore(timers: seq<RilEvent>, added: map<RilEvent, Timer>, e: RilEvent, t: Timer)
    requires InOrder(timers, added) && e !in added
    ensures InOrder(timers, added[e := t]) && e !in timers
  {
    assert forall i :: 0 <= i < |timers| ==> timers[i] in added && added[e := t][timers[i]] == added[timers[i]];
  }

  lemma {:induction false} InOrderInsert(timers: seq<RilEvent>, more: map<RilEvent, Timer>, e: RilEvent, k: nat)
    requires InOrder(timers, more) && e in more && e !in timers && k <= |timers|
    requires forall i :: 0 <= i < k ==> more[timers[i]].due <= more[e].due
    requires forall i :: k <= i < |timers| ==> more[e].due <= more[timers[i]].due
    ensures InOrder(Insert(timers, k, e), more)
  {
    var t := Insert(timers, k, e);
    assert t[k] == e;
    assert forall i :: 0 <= i < |t| && i != k ==> t[i] == timers[if i < k then i else i - 1];
  }

  lemma {:induction false} BookAdd(added: map<RilEvent, Timer>, rounds: seq<Round>, timers: seq<RilEvent>,
                                   e: RilEvent, due: int, k: nat)
    requires Book(added, rounds, timers) && e !in added && k <= |timers|
    requires forall i :: 0 <= i < k ==> added[timers[i]].due <= due
    requires forall i :: k <= i < |timers| ==> due <= added[timers[i]].due
    ensures Book(added[e := Timer(|rounds|, due)], rounds, Insert(timers, k, e))
  {
    var more, t := added[e := Timer(|rounds|, due)], Insert(timers, k, e);
    InOrderMore(timers, added, e, more[e]);
    InOrderInsert(timers, more, e, k);
    forall q | 0 <= q < |rounds|
      ensures InOrder(rounds[q].timers, more) && e !in rounds[q].timers
    {
      InOrderMore(rounds[q].timers, added, e, more[e]);
    }
    forall x | x in more
      ensures Tracked(x, more[x], rounds, t)
    {
      InsertMember(timers, k, e, x);
      if x != e {
        assert Tracked(x, added[x], rounds, timers);
      }
    }
  }

  lemma {:induction false} InsertMember<T>(s: seq<T>, k: nat, e: T, x: T)
    requires k <= |s|
    ensures x in Insert(s, k, e) <==> x == e || x in s
  {
    var t := Insert(s, k, e);
    assert t[k] == e;
    if x in s {
      var i :| 0 <= i < |s| && s[i] == x;
      assert t[if i < k then i else i + 1] == x;
    }
  }

  lemma {:induction false} TrackedNext(added: map<RilEvent, Timer>, rounds: seq<Round>, timers: seq<RilEvent>,
                                       k: nat, r: Round, x: RilEvent)
    requires x in added && added[x].born <= |rounds| && Tracked(x, added[x], rounds, timers)
    requires k <= |timers| && r.timers == timers[..k] && forall i :: 0 <= i < |timers| ==> timers[i] in added
    requires forall i :: 0 <= i < |timers| ==> (i < k <==> added[timers[i]].due < r.now)
    ensures Tracked(x, added[x], rounds + [r], timers[k..])
  {
    FirstPastNext(rounds, r, added[x].born, added[x].due);
    SplitMember(added, timers, k, r.now, x);
    forall q | 0 <= q <= |rounds|
      ensures x in (rounds + [r])[q].timers <==> q == FirstPast(rounds + [r], added[x].born, added[x].due)
    {
      if q < |rounds| {
        assert (rounds + [r])[q] == rounds[q];
      }
    }
  }

  lemma {:induction false} BookRound(added: map<RilEvent, Timer>, rounds: seq<Round>, timers: seq<RilEvent>,
                                     k: nat, r: Round)
    requires Book(added, rounds, timers) && k <= |timers| && r.timers == timers[..k]
    requires forall i :: 0 <= i < |timers| ==> (i < k <==> added[timers[i]].due < r.now)
    ensures Book(added, rounds + [r], timers[k..])
  {
    forall x | x in added
      ensures Tracked(x, added[x], rounds + [r], timers[k..])
    {
      TrackedNext(added, rounds, timers, k, r, x);
    }
  }

  lemma {:induction false} SplitMember(added: map<RilEvent, Timer>, timers: seq<RilEvent>, k: nat, now: int,
                                       x: RilEvent)
    requires k <= |timers| && x in added && forall i :: 0 <= i < |timers| ==> timers[i] in added
    requires forall i :: 0 <= i < |timers| ==> (i < k <==> added[timers[i]].due < now)
    ensures x in timers[..k] <==> x in timers && added[x].due < now
    ensures x in timers[k..] <==> x in timers && added[x].due >= now
  {
    if x in timers {
      var i :| 0 <= i < |timers| && timers[i] == x;
      if i < k {
        assert timers[..k][i] == x;
      } else {
        assert timers[k..][i - k] == x;
      }
    }
  }

  /** What the passes have put onto the pending ring, in order. */
  function Flat(rounds: seq<Round>): seq<RilEvent> {
    if rounds == [] then []
    else
      var r := rounds[|rounds| - 1];
      Flat(rounds[..|rounds| - 1]) + (r.timers + r.ready)
  }

  lemma {:induction false} FlatNext(rounds: seq<Round>, r: Round)
    ensures Flat(rounds + [r]) == Flat(rounds) + (r.timers + r.ready)
  {
    assert (rounds + [r])[..|rounds|] == rounds;
  }

  /** A timer that one pass alone has found due appears once. */
  lemma {:induction false} FlatOnce(rounds: seq<Round>, added: map<RilEvent, Timer>, e: RilEvent, first: nat)
    requires forall q :: 0 <= q < |rounds| ==> InOrder(rounds[q].timers, added) && e !in rounds[q].ready
    requires forall q :: 0 <= q < |rounds| ==> (e in rounds[q].timers <==> q == first)
    ensures multiset(Flat(rounds))[e] == if first < |rounds| then 1 else 0
  {
    if rounds != [] {
      var n := |rounds| - 1;
      FlatOnce(rounds[..n], added, e, first);
      var r := rounds[n];
      CountOnce(r.timers, e);
      assert e !in multiset(r.ready);
    }
  }

  lemma {:induction false} CountOnce(s: seq<RilEvent>, e: RilEvent)
    requires forall i, j :: 0 <= i < j < |s| ==> s[i] != s[j]
    ensures multiset(s)[e] == if e in s then 1 else 0
  {
    if s != [] {
      CountOnce(s[1..], e);
      assert s == [s[0]] + s[1..];
      assert e in s <==> e == s[0] || e in s[1..];
    }
  }

  /** The events a pass found ready are watched ones, and exactly those whose descriptor was ready. */
  ghost predicate RoundReady(r: Round, watchers: set<RilEvent>) {
    && |r.slots| == MAX_FD_EVENTS && DifferentFds(r.slots) && DifferentEvents(r.slots)
    && r.ready == Picked(r.slots, r.rfds, |r.rfds|, MAX_FD_EVENTS)
    && (forall j :: 0 <= j < MAX_FD_EVENTS && r.slots[j].Watching? ==> r.slots[j].ev in watchers)
  }

  /** The whole record: the timers ever added, the passes, the events ever watched, and what the rings
      then hold. `queued` is everything that was put onto the pending ring. */
  datatype Record = Record(added: map<RilEvent, Timer>, rounds: seq<Round>, watchers: set<RilEvent>,
                           timers: seq<RilEvent>, deadlines: seq<int>, queued: seq<RilEvent>)

  ghost predicate Account(l: Record) {
    && Book(l.added, l.rounds, l.timers)
    && |l.deadlines| == |l.timers| && (forall i :: 0 <= i < |l.timers| ==> l.added[l.timers[i]].due == l.deadlines[i])
    && l.queued == Flat(l.rounds)
    && (forall q :: 0 <= q < |l.rounds| ==> RoundReady(l.rounds[q], l.watchers))
  }

  const EMPTY: Record := Record(map[], [], {}, [], [], [])

  /** The timer is new in the record, and nothing else about timers and passes changes. */
  ghost predicate Joined(l: Record, l': Record, e: RilEvent, due: int) {
    && e !in l.added && l'.added.Keys == l.added.Keys + {e} && l'.added[e] == Timer(|l.rounds|, due)
    && (forall x :: x in l.added ==> l'.added[x] == l.added[x])
    && l'.rounds == l.rounds
  }

  /** One more pass. */
  ghost predicate Passed(l: Record, l': Record, r: Round) {
    l'.added == l.added && l'.rounds == l.rounds + [r]
  }

  ghost predicate PassedAt(l: Record, l': Record, now: int, rfds: set<int>) {
    && l'.rounds != [] && Passed(l, l', l'.rounds[|l'.rounds| - 1])
    && l'.rounds[|l'.rounds| - 1].now == now && l'.rounds[|l'.rounds| - 1].rfds == rfds
  }

  /** What one call does to the record. */
  datatype Change =
    | TimerIn(timer: RilEvent, due: int, at: nat)
    | WatcherIn(watcher: RilEvent)
    | RoundIn(expired: nat, round: Round)

  ghost predicate Allowed(l: Record, c: Change) {
    match c
    case TimerIn(e, due, k) =>
      e !in l.added && k <= |l.timers| && k <= |l.deadlines| && Ascending(Insert(l.deadlines, k, due))
    case WatcherIn(e) => true
    case RoundIn(k, r) =>
      && k <= |l.timers| && k <= |l.deadlines| && r.timers == l.timers[..k] && RoundReady(r, l.watchers)
      && (forall i :: 0 <= i < |l.deadlines| ==> (i < k <==> l.deadlines[i] < r.now))
  }

  ghost function Changed(l: Record, c: Change): Record
    requires Allowed(l, c)
  {
    match c
    case TimerIn(e, due, k) =>
      l.(added := l.added[e := Timer(|l.rounds|, due)], timers := Insert(l.timers, k, e),
         deadlines := Insert(l.deadlines, k, due))
    case WatcherIn(e) => l.(watchers := l.watchers + {e})
    case RoundIn(k, r) =>
      l.(rounds := l.rounds + [r], timers := l.timers[k..], deadlines := l.deadlines[k..],
         queued := l.queued + (r.timers + r.ready))
  }

  /** The record after these changes, if each was allowed where it came. */
  ghost function History(changes: seq<Change>): Option<Record> {
    if changes == [] then Some(EMPTY)
    else
      var before := History(changes[..|changes| - 1]);
      var c := changes[|changes| - 1];
      if before != None && Allowed(before.value, c) then Some(Changed(before.value, c)) else None
  }

  lemma {:induction false} HistoryNext(changes: seq<Change>, c: Change)
    requires History(changes) != None && Allowed(History(changes).value, c)
    ensures History(changes + [c]) == Some(Changed(History(changes).value, c))
  {
    assert (changes + [c])[..|changes|] == changes;
  }

  lemma {:induction false} TimerNoted(cs: seq<Change>, l: Record, e: RilEvent, due: int, k: nat)
    returns (cs': seq<Change>, l': Record)
    requires History(cs) == Some(l) && e !in l.added && k <= |l.timers| == |l.deadlines|
    requires Ascending(Insert(l.deadlines, k, due))
    ensures History(cs') == Some(l') && Joined(l, l', e, due)
    ensures l'.timers == Insert(l.timers, k, e) && l'.deadlines == Insert(l.deadlines, k, due)
    ensures l'.watchers == l.watchers && l'.queued == l.queued
  {
    var c := TimerIn(e, due, k);
    cs', l' := cs + [c], Changed(l, c);
    HistoryNext(cs, c);
    assert l'.added == l.added[e := Timer(|l.rounds|, due)];
    assert l'.added.Keys == l.added.Keys + {e};
  }

  lemma {:induction false} WatcherNoted(cs: seq<Change>, l: Record, e: RilEvent)
    ensures History(cs) == Some(l) ==> History(cs + [WatcherIn(e)]) == Some(l.(watchers := l.watchers + {e}))
  {
    if History(cs) == Some(l) {
      HistoryNext(cs, WatcherIn(e));
    }
  }

  lemma {:induction false} RoundNoted(cs: seq<Change>, l: Record, k: nat, r: Round)
    returns (cs': seq<Change>, l': Record)
    requires History(cs) == Some(l) && k <= |l.timers| == |l.deadlines| && r.timers == l.timers[..k]
    requires RoundReady(r, l.watchers) && forall i :: 0 <= i < |l.deadlines| ==> (i < k <==> l.deadlines[i] < r.now)
    ensures History(cs') == Some(l') && Passed(l, l', r) && l'.watchers == l.watchers
    ensures l'.timers == l.timers[k..] && l'.deadlines == l.deadlines[k..]
    ensures l'.queued == l.queued + (r.timers + r.ready)
  {
    var c := RoundIn(k, r);
    cs', l' := cs + [c], Changed(l, c);
    HistoryNext(cs, c);
  }

  lemma {:induction false} HistoryAccount(changes: seq<Change>)
    requires History(changes) != None
    ensures Account(History(changes).value)
  {
    if changes != [] {
      var before := changes[..|changes| - 1];
      var l := History(before).value;
      HistoryAccount(before);
      match changes[|changes| - 1]
      case TimerIn(e, due, k) => AccountAdd(l, e, due, k);
      case WatcherIn(e) => AccountWatch(l, e);
      case RoundIn(k, r) => AccountRound(l, k, r);
    }
  }

  lemma {:induction false} InsertedBetween(d: seq<int>, k: nat, due: int)
    requires k <= |d| && Ascending(Insert(d, k, due))
    ensures forall i :: 0 <= i < |d| ==> if i < k then d[i] <= due else due <= d[i]
  {
    var t := Insert(d, k, due);
    forall i | 0 <= i < |d|
      ensures if i < k then d[i] <= due else due <= d[i]
    {
      assert t[if i < k then i else i + 1] == d[i] && t[k] == due;
    }
  }

  lemma {:induction false} AccountAdd(l: Record, e: RilEvent, due: int, k: nat)
    requires Account(l) && e !in l.added && k <= |l.timers| && Ascending(Insert(l.deadlines, k, due))
    ensures Account(l.(added := l.added[e := Timer(|l.rounds|, due)], timers := Insert(l.timers, k, e),
                       deadlines := Insert(l.deadlines, k, due)))
  {
    InsertedBetween(l.deadlines, k, due);
    BookAdd(l.added, l.rounds, l.timers, e, due, k);
    var t, d := Insert(l.timers, k, e), Insert(l.deadlines, k, due);
    forall i | 0 <= i < |t|
      ensures l.added[e := Timer(|l.rounds|, due)][t[i]].due == d[i]
    {
      if i != k {
        assert t[i] == l.timers[if i < k then i else i - 1];
      }
    }
  }

  lemma {:induction false} AccountWatch(l: Record, e: RilEvent)
    requires Account(l)
    ensures Account(l.(watchers := l.watchers + {e}))
  {
    forall q | 0 <= q < |l.rounds|
      ensures RoundReady(l.rounds[q], l.watchers + {e})
    {
      assert RoundReady(l.rounds[q], l.watchers);
    }
  }

  lemma {:induction false} AccountRound(l: Record, k: nat, r: Round)
    requires Account(l) && k <= |l.timers| && r.timers == l.timers[..k] && RoundReady(r, l.watchers)
    requires forall i :: 0 <= i < |l.deadlines| ==> (i < k <==> l.deadlines[i] < r.now)
    ensures Account(l.(rounds := l.rounds + [r], timers := l.timers[k..], deadlines := l.deadlines[k..],
                       queued := l.queued + (r.timers + r.ready)))
  {
    BookRound(l.added, l.rounds, l.timers, k, r);
    FlatNext(l.rounds, r);
  }

  /** Timers and watched events are kept apart, and neither is a list head. */
  ghost predicate KeptApart(heads: set<RilEvent>, events: set<RilEvent>, watchers: set<RilEvent>,
                            timed: set<RilEvent>, timers: seq<RilEvent>, table: seq<RilEvent?>) {
    && watchers <= events && timed <= events && watchers !! timed && heads !! watchers && heads !! timed
    && (forall i :: 0 <= i < |timers| ==> timers[i] in timed)
    && (forall i :: 0 <= i < |table| && table[i] != null ==> table[i] in watchers)
  }

  /** An index in the range of the table is the event's own slot. */
  ghost predicate Placed(events: set<RilEvent>, table: array<RilEvent?>)
    reads table, events`index
  {
    forall ev {:trigger ev.index} :: ev in events && 0 <= ev.index < table.Length ==> table[ev.index] == ev
  }

  class Loop {
    const lists: Lists
    const watch: Watch
    /** The events ever given to ril_event_add, and the timers. */
    ghost var watchers: set<RilEvent>
    ghost var timed: set<RilEvent>
    ghost var changes: seq<Change>
    ghost var ledger: Record

    ghost predicate Valid()
      reads this`watchers, this`timed
      reads lists, lists.timerList`next, lists.timerList`prev, lists.timerList`timeout
      reads lists.pendingList`next, lists.pendingList`prev
      reads lists.timers`next, lists.timers`prev, lists.timers`timeout, lists.pending`next, lists.pending`prev
      reads watch, watch.table, watch.table[..]`fd, watch.table[..]`index, lists.events`index
    {
      && lists.Valid() && watch.Valid() && Placed(lists.events, watch.table)
      && KeptApart({lists.timerList, lists.pendingList}, lists.events, watchers, timed, lists.timers, watch.table[..])
    }

    /** The record is about these rings, timers and events. */
    ghost predicate Fits(l: Record)
      reads this`watchers, this`timed, lists`timers, lists`deadlines, lists`fired, lists`pending
    {
      && l.added.Keys == timed && l.watchers == watchers
      && l.timers == lists.timers && l.deadlines == lists.deadlines
      && l.queued == lists.fired + lists.pending
    }

    /** The ledger is that of this run. */
    ghost predicate Matches()
      reads this`watchers, this`timed, this`changes, this`ledger
      reads lists`timers, lists`deadlines, lists`fired, lists`pending
    {
      History(changes) == Some(ledger) && Fits(ledger)
    }

    ghost function SlotAt(i: int): Slot
      requires 0 <= i < watch.table.Length
      reads watch, watch.table, {watch.table[i]}`fd, {watch.table[i]}`persist
    {
      if watch.table[i] == null then Free
      else Watching(watch.table[i], watch.table[i].fd, watch.table[i].persist)
    }

    /** The table as it stands. */
    ghost predicate Stands(slots: seq<Slot>)
      requires watch.table.Length == MAX_FD_EVENTS
      reads watch, watch.table, watch.table[..]`fd, watch.table[..]`persist
    {
      |slots| == MAX_FD_EVENTS && forall i :: 0 <= i < MAX_FD_EVENTS ==> SlotAt(i) == slots[i]
    }

    lemma Snapshot() returns (slots: seq<Slot>)
      requires watch.table.Length == MAX_FD_EVENTS
      ensures Stands(slots)
    {
      slots := [SlotAt(0), SlotAt(1), SlotAt(2), SlotAt(3), SlotAt(4), SlotAt(5), SlotAt(6), SlotAt(7)];
    }

    lemma StandsApart(slots: seq<Slot>)
      requires Valid() && Stands(slots)
      ensures DifferentFds(slots) && DifferentEvents(slots)
      ensures forall j :: 0 <= j < MAX_FD_EVENTS && slots[j].Watching? ==> slots[j].ev in watchers
    {
      SlotsDiffer(slots);
      assert forall j :: 0 <= j < MAX_FD_EVENTS && slots[j].Watching? ==> slots[j].ev == watch.table[..][j];
    }

    constructor ()
      ensures Valid() && Matches() && !lists.listMutex.held && lists.timers == [] && lists.pending == []
      ensures lists.fired == [] && watch.readFds == {} && ledger == EMPTY
      ensures watchers == {} && timed == {}
      ensures forall i :: 0 <= i < MAX_FD_EVENTS ==> watch.table[i] == null
      ensures fresh(lists) && fresh(watch) && fresh(lists.listMutex) && fresh(watch.table) && fresh(lists.events)
    {
      lists := new Lists();
      watch := new Watch();
      watchers, timed, changes, ledger := {}, {}, [], EMPTY;
    }

    // ---------- additions and deletions ----------

    ghost method MeetTimer(ev: RilEvent)
      requires Valid() && ev !in lists.events && ev.index == -1
      modifies this`timed, lists`events
      ensures Valid() && lists.events == old(lists.events) + {ev} && timed == old(timed) + {ev}
      ensures lists.Idle(ev)
    {
      timed := timed + {ev};
      lists.events := lists.events + {ev};
    }

    method LinkTimer(ev: RilEvent, tv: Timeval, now: Timeval) returns (ghost k: nat)
      requires Valid() && !lists.listMutex.held && ev in timed && lists.Idle(ev) && now.Normal() && tv.Normal()
      modifies lists`timers, lists`deadlines, lists`events, lists.listMutex
      modifies lists.events`next, lists.events`prev, ev`fd, ev`timeout
      ensures Valid() && !lists.listMutex.held && lists.events == old(lists.events)
      ensures var due := now.Micros() + tv.Micros();
              && k <= |old(lists.timers)| == |old(lists.deadlines)|
              && lists.timers == Insert(old(lists.timers), k, ev)
              && lists.deadlines == Insert(old(lists.deadlines), k, due)
    {
      hide Insert;
      assert ev !in watch.table[..];
      k := lists.TimerAdd(ev, Some(tv), now);
    }

    method NewTimer(ev: RilEvent, tv: Timeval, now: Timeval) returns (ghost k: nat)
      requires Valid() && !lists.listMutex.held && ev !in lists.events && ev.index == -1 && now.Normal() && tv.Normal()
      modifies this`timed, lists`timers, lists`deadlines, lists`events, lists.listMutex
      modifies lists.events`next, lists.events`prev, ev`next, ev`prev, ev`fd, ev`timeout
      ensures Valid() && !lists.listMutex.held && lists.events == old(lists.events) + {ev} && timed == old(timed) + {ev}
      ensures var due := now.Micros() + tv.Micros();
              && k <= |old(lists.timers)| == |old(lists.deadlines)|
              && lists.timers == Insert(old(lists.timers), k, ev)
              && lists.deadlines == Insert(old(lists.deadlines), k, due)
    {
      hide *;
      MeetTimer(ev);
      k := LinkTimer(ev, tv, now);
    }

    ghost method Write(cs: seq<Change>, l: Record)
      requires Valid() && History(cs) == Some(l) && Fits(l)
      modifies this`changes, this`ledger
      ensures Valid() && Matches() && ledger == l
    {
      changes, ledger := cs, l;
    }

    method PutTimer(ev: RilEvent, tv: Timeval, now: Timeval)
      requires Valid() && Matches() && !lists.listMutex.held && ev !in lists.events && ev.index == -1
      requires now.Normal() && tv.Normal()
      modifies this`timed, this`changes, this`ledger, lists`timers, lists`deadlines, lists`events, lists.listMutex
      modifies lists.events`next, lists.events`prev, ev`next, ev`prev, ev`fd, ev`timeout
      ensures Valid() && Matches() && !lists.listMutex.held && lists.events == old(lists.events) + {ev}
      ensures Joined(old(ledger), ledger, ev, now.Micros() + tv.Micros())
    {
      hide Insert, History;
      assert ev !in ledger.added.Keys;
      ghost var k := NewTimer(ev, tv, now);
      assert Ascending(lists.deadlines);
      ghost var cs, l := TimerNoted(changes, ledger, ev, now.Micros() + tv.Micros(), k);
      Write(cs, l);
    }

    /** ril_timer_add for a new event. */
    method TimerAdd(ev: RilEvent, tv: Option<Timeval>, now: Timeval)
      requires Valid() && Matches() && !lists.listMutex.held && ev !in lists.events && ev.index == -1
      requires now.Normal() && (tv != None ==> tv.value.Normal())
      modifies this`timed, this`changes, this`ledger, lists`timers, lists`deadlines, lists`events, lists.listMutex
      modifies lists.events`next, lists.events`prev, ev`next, ev`prev, ev`fd, ev`timeout
      ensures Valid() && Matches() && !lists.listMutex.held
      ensures lists.events == old(lists.events) + if tv == None then {} else {ev}
      ensures tv == None ==> ledger == old(ledger)
      ensures tv != None ==> Joined(old(ledger), ledger, ev, now.Micros() + tv.value.Micros())
    {
      if tv != None {
        PutTimer(ev, tv.value, now);
      }
    }

    ghost method MeetWatcher(ev: RilEvent)
      requires Valid() && (ev in watchers || (ev !in lists.events && ev.index == -1))
      modifies this`watchers, lists`events
      ensures Valid() && lists.events == old(lists.events) + {ev} && watchers == old(watchers) + {ev}
    {
      watchers := watchers + {ev};
      lists.events := lists.events + {ev};
    }

    method NewWatch(ev: RilEvent) returns (ghost k: int)
      requires Valid() && !lists.listMutex.held && ev.fd >= 0 && ev.fd !in watch.readFds
      requires ev in watchers || (ev !in lists.events && ev.index == -1)
      modifies this`watchers, lists`events, lists.listMutex, watch, watch.table, ev`index
      ensures Valid() && !lists.listMutex.held
      ensures lists.events == old(lists.events) + {ev} && watchers == old(watchers) + {ev}
      ensures 0 <= k <= MAX_FD_EVENTS && forall i :: 0 <= i < k ==> old(watch.table[i]) != null
      ensures k == MAX_FD_EVENTS ==>
        watch.table[..] == old(watch.table[..]) && watch.readFds == old(watch.readFds) && watch.nfds == old(watch.nfds)
      ensures k < MAX_FD_EVENTS ==>
        && old(watch.table[k]) == null && watch.table[..] == old(watch.table[..])[k := ev]
        && ev.index == k && watch.readFds == old(watch.readFds) + {ev.fd}
    {
      hide *;
      MeetWatcher(ev);
      k := WatchEvent(ev);
    }

    /** ril_event_add, for a new event or one that was watched before. */
    method EventAdd(ev: RilEvent) returns (ghost k: int)
      requires Valid() && Matches() && !lists.listMutex.held && ev.fd >= 0 && ev.fd !in watch.readFds
      requires ev in watchers || (ev !in lists.events && ev.index == -1)
      modifies this`watchers, this`changes, this`ledger, lists`events, lists.listMutex, watch, watch.table, ev`index
      ensures Valid() && Matches() && !lists.listMutex.held
      ensures lists.events == old(lists.events) + {ev} && watchers == old(watchers) + {ev}
      ensures ledger.rounds == old(ledger.rounds) && ledger.added == old(ledger.added)
      ensures 0 <= k <= MAX_FD_EVENTS && forall i :: 0 <= i < k ==> old(watch.table[i]) != null
      ensures k == MAX_FD_EVENTS ==>
        watch.table[..] == old(watch.table[..]) && watch.readFds == old(watch.readFds) && watch.nfds == old(watch.nfds)
      ensures k < MAX_FD_EVENTS ==>
        && old(watch.table[k]) == null && watch.table[..] == old(watch.table[..])[k := ev]
        && ev.index == k && watch.readFds == old(watch.readFds) + {ev.fd}
    {
      k := NewWatch(ev);
      WatcherNoted(changes, ledger, ev);
      Write(changes + [WatcherIn(ev)], ledger.(watchers := watchers));
    }

    method WatchEvent(ev: RilEvent) returns (ghost k: int)
      requires Valid() && !lists.listMutex.held && ev.fd >= 0 && ev.fd !in watch.readFds && ev in watchers
      modifies lists.listMutex, watch, watch.table, ev`index
      ensures Valid() && !lists.listMutex.held
      ensures 0 <= k <= MAX_FD_EVENTS && forall i :: 0 <= i < k ==> old(watch.table[i]) != null
      ensures k == MAX_FD_EVENTS ==>
        watch.table[..] == old(watch.table[..]) && watch.readFds == old(watch.readFds) && watch.nfds == old(watch.nfds)
      ensures k < MAX_FD_EVENTS ==>
        && old(watch.table[k]) == null && watch.table[..] == old(watch.table[..])[k := ev]
        && ev.index == k && watch.readFds == old(watch.readFds) + {ev.fd}
    {
      k := watch.EventAdd(ev, lists.listMutex);
    }

    /** ril_event_del, which leaves the mutex held on a bad index. */
    method EventDel(ev: RilEvent)
      requires Valid() && !lists.listMutex.held && ev in lists.events
      modifies lists.listMutex, watch, watch.table, ev`index
      ensures Valid()
      ensures lists.listMutex.held <==> !(0 <= old(ev.index) < MAX_FD_EVENTS)
      ensures 0 <= old(ev.index) < MAX_FD_EVENTS ==>
        watch.table[..] == old(watch.table[..])[old(ev.index) := null]
        && watch.readFds == old(watch.readFds) - {ev.fd} && ev.index == -1
      ensures !(0 <= old(ev.index) < MAX_FD_EVENTS) ==>
        watch.table[..] == old(watch.table[..]) && watch.readFds == old(watch.readFds) && watch.nfds == old(watch.nfds)
    {
      watch.EventDel(ev, lists.listMutex);
    }

    // ---------- one pass ----------

    /** A ready event joins the pending ring ... */
    method Enqueue(rev: RilEvent)
      requires Valid() && rev in watchers && lists.Idle(rev)
      modifies lists`pending, lists`events, lists.events`next, lists.events`prev
      ensures Valid() && lists.pending == old(lists.pending) + [rev] && lists.events == old(lists.events)
    {
      lists.Queue(rev);
    }

    /** ... and leaves the table unless it is persistent. */
    method Unwatch(i: int, rev: RilEvent)
      requires Valid() && 0 <= i < MAX_FD_EVENTS && watch.table[i] == rev
      modifies watch, watch.table, rev`index
      ensures Valid()
      ensures forall j :: 0 <= j < MAX_FD_EVENTS ==> SlotAt(j) == if j == i then Free else old(SlotAt(j))
    {
      watch.RemoveWatch(rev, i);
    }

    method QueueReady(i: int, rev: RilEvent)
      requires Valid() && 0 <= i < MAX_FD_EVENTS && watch.table[i] == rev && lists.Idle(rev)
      modifies lists`pending, lists`events, lists.events`next, lists.events`prev, lists.events`index, watch, watch.table
      ensures Valid() && lists.pending == old(lists.pending) + [rev] && lists.events == old(lists.events)
      ensures forall j :: 0 <= j < MAX_FD_EVENTS ==>
        SlotAt(j) == if j == i && !rev.persist then Free else old(SlotAt(j))
    {
      Enqueue(rev);
      if !rev.persist {
        Unwatch(i, rev);
      }
    }

    ghost predicate AllIdle(slots: seq<Slot>, i: int)
      reads lists`timers, lists`pending
    {
      forall j :: i <= j < |slots| && 0 <= j && slots[j].Watching? ==> lists.Idle(slots[j].ev)
    }

    /** Of the table as it was, the first i slots have been dealt with. */
    ghost predicate Shows(slots: seq<Slot>, rfds: set<int>, n: int, i: int)
      requires watch.table.Length == MAX_FD_EVENTS == |slots|
      reads watch, watch.table, watch.table[..]`fd, watch.table[..]`persist
    {
      forall j :: 0 <= j < MAX_FD_EVENTS ==> SlotAt(j) == if j < i then Kept(slots, rfds, n, j) else slots[j]
    }

    ghost predicate Dealt(slots: seq<Slot>, rfds: set<int>, n: int, i: int, left: int, before: seq<RilEvent>)
      reads this, lists, lists.timerList, lists.pendingList, lists.timers, lists.pending
      reads watch, watch.table, watch.table[..], lists.events`index
    {
      && Valid() && |slots| == MAX_FD_EVENTS && 0 <= i <= MAX_FD_EVENTS && AllIdle(slots, i)
      && Shows(slots, rfds, n, i)
      && (if left > 0 then left == n - Count(slots, rfds, i) else Count(slots, rfds, i) >= n)
      && lists.pending == before + Picked(slots, rfds, n, i)
    }

    lemma OtherSlots(slots: seq<Slot>, i: int)
      requires watch.Valid() && |slots| == MAX_FD_EVENTS && 0 <= i < MAX_FD_EVENTS && slots[i].Watching?
      requires forall j :: i <= j < MAX_FD_EVENTS ==> SlotAt(j) == slots[j]
      ensures forall j :: i < j < MAX_FD_EVENTS && slots[j].Watching? ==> slots[j].ev != slots[i].ev
    {
      assert SlotAt(i) == slots[i] && watch.Holds(i);
      forall j | i < j < MAX_FD_EVENTS && slots[j].Watching?
        ensures slots[j].ev != slots[i].ev
      {
        assert SlotAt(j) == slots[j] && watch.Holds(j);
      }
    }

    lemma SlotsDiffer(slots: seq<Slot>)
      requires watch.Valid() && Stands(slots)
      ensures DifferentFds(slots) && DifferentEvents(slots)
    {
      forall j, k | 0 <= j < k < |slots| && slots[j].Watching? && slots[k].Watching?
        ensures slots[j].ev != slots[k].ev && slots[j].fd != slots[k].fd
      {
        assert SlotAt(j) == slots[j] && watch.Holds(j);
        assert SlotAt(k) == slots[k] && watch.Holds(k);
      }
    }

    method ServeSlot(i: int, rfds: set<int>, left: int, ghost slots: seq<Slot>, ghost n: int,
                     ghost before: seq<RilEvent>)
      returns (left': int)
      requires Dealt(slots, rfds, n, i, left, before) && i < MAX_FD_EVENTS && left > 0
      modifies lists`pending, lists`events, lists.events`next, lists.events`prev, lists.events`index, watch, watch.table
      ensures Dealt(slots, rfds, n, i + 1, left', before) && lists.events == old(lists.events)
    {
      left' := left;
      var rev := watch.table[i];
      assert SlotAt(i) == slots[i];
      if rev != null && rev.fd in rfds {
        OtherSlots(slots, i);
        QueueReady(i, rev);
        left' := left - 1;
      }
    }

    method ServeSlots(rfds: set<int>, n: int, ghost slots: seq<Slot>)
      requires Valid() && |slots| == MAX_FD_EVENTS && Shows(slots, rfds, n, 0) && AllIdle(slots, 0)
      modifies lists`pending, lists`events, lists.events`next, lists.events`prev, lists.events`index, watch, watch.table
      ensures Valid() && lists.events == old(lists.events)
      ensures lists.pending == old(lists.pending) + Picked(slots, rfds, n, MAX_FD_EVENTS)
      ensures Shows(slots, rfds, n, MAX_FD_EVENTS)
    {
      ghost var before := lists.pending;
      var left := n;
      var i := 0;
      while i < MAX_FD_EVENTS && left > 0
        invariant Dealt(slots, rfds, n, i, left, before) && lists.events == old(lists.events)
      {
        left := ServeSlot(i, rfds, left, slots, n, before);
        i := i + 1;
      }
      ServedBelow(slots, rfds, n, i);
    }

    /** Takes or gives back the mutex. */
    method SetMutex(held: bool)
      requires Valid()
      modifies lists.listMutex
      ensures Valid() && lists.listMutex.held == held
    {
      lists.listMutex.held := held;
    }

    /** Every slot served contributes its event to the pending ring, in the order of the table;
        the served events that are not persistent leave the table. */
    method ProcessReadReadies(rfds: set<int>, n: int, ghost slots: seq<Slot>)
      requires Valid() && !lists.listMutex.held
      requires |slots| == MAX_FD_EVENTS && Shows(slots, rfds, n, 0) && AllIdle(slots, 0)
      modifies lists.listMutex
      modifies lists`pending, lists`events, lists.events`next, lists.events`prev, lists.events`index, watch, watch.table
      ensures Valid() && !lists.listMutex.held && lists.events == old(lists.events)
      ensures lists.pending == old(lists.pending) + Picked(slots, rfds, n, MAX_FD_EVENTS)
      ensures Shows(slots, rfds, n, MAX_FD_EVENTS)
    {
      hide *;
      SetMutex(true);
      ServeSlots(rfds, n, slots);
      SetMutex(false);
    }

    /** Watched events are on no ring when nothing but timers is pending. */
    lemma WatchedIdle(slots: seq<Slot>)
      requires Valid() && Stands(slots)
      requires forall i :: 0 <= i < |lists.pending| ==> lists.pending[i] in timed
      ensures AllIdle(slots, 0)
    {
      forall j | 0 <= j < |slots| && slots[j].Watching?
        ensures lists.Idle(slots[j].ev)
      {
        assert SlotAt(j) == slots[j] && watch.table[..][j] == slots[j].ev;
      }
    }

    method ExpireTimers(now: Timeval) returns (ghost k: nat)
      requires Valid() && !lists.listMutex.held && lists.pending == [] && now.Normal()
      modifies lists`timers, lists`deadlines, lists`pending, lists.listMutex, lists.events`next, lists.events`prev
      ensures Valid() && !lists.listMutex.held && k <= |old(lists.timers)| == |old(lists.deadlines)|
      ensures lists.timers == old(lists.timers)[k..] && lists.deadlines == old(lists.deadlines)[k..]
      ensures lists.pending == old(lists.timers)[..k]
      ensures forall i :: 0 <= i < |old(lists.deadlines)| ==> (i < k <==> old(lists.deadlines)[i] < now.Micros())
    {
      ghost var t := lists.timers;
      k := lists.ProcessTimeouts(now);
      assert lists.pending == t[..k];
    }

    /** The timers now due go to the pending ring, and the table stays as it is. */
    method Expire(now: Timeval, ghost slots: seq<Slot>) returns (ghost k: nat)
      requires Valid() && !lists.listMutex.held && lists.pending == [] && now.Normal()
      requires Stands(slots)
      modifies lists`timers, lists`deadlines, lists`pending, lists.listMutex, lists.events`next, lists.events`prev
      ensures Valid() && !lists.listMutex.held && k <= |old(lists.timers)| == |old(lists.deadlines)|
      ensures lists.timers == old(lists.timers)[k..] && lists.deadlines == old(lists.deadlines)[k..]
      ensures lists.pending == old(lists.timers)[..k]
      ensures forall i :: 0 <= i < |old(lists.deadlines)| ==> (i < k <==> old(lists.deadlines)[i] < now.Micros())
      ensures AllIdle(slots, 0) && Stands(slots)
    {
      ghost var t := lists.timers;
      assert forall i :: 0 <= i < |t| ==> t[i] in timed;
      k := ExpireTimers(now);
      WatchedIdle(slots);
    }

    method Gather(now: Timeval, rfds: set<int>, ghost slots: seq<Slot>) returns (ghost k: nat)
      requires Valid() && !lists.listMutex.held && lists.pending == [] && now.Normal()
      requires Stands(slots)
      modifies lists`timers, lists`deadlines, lists`pending, lists`events, lists.listMutex
      modifies lists.events`next, lists.events`prev, lists.events`index, watch, watch.table
      ensures Valid() && !lists.listMutex.held && lists.events == old(lists.events)
      ensures k <= |old(lists.timers)| == |old(lists.deadlines)|
      ensures lists.timers == old(lists.timers)[k..] && lists.deadlines == old(lists.deadlines)[k..]
      ensures lists.pending == old(lists.timers)[..k] + Picked(slots, rfds, |rfds|, MAX_FD_EVENTS)
      ensures forall i :: 0 <= i < |old(lists.deadlines)| ==> (i < k <==> old(lists.deadlines)[i] < now.Micros())
      ensures Shows(slots, rfds, |rfds|, MAX_FD_EVENTS)
    {
      k := Expire(now, slots);
      ProcessReadReadies(rfds, |rfds|, slots);
    }

    /** processTimeouts and then processReadReadies, over the table as it stands. */
    method GatherRound(now: Timeval, rfds: set<int>, ghost slots: seq<Slot>) returns (ghost k: nat, ghost r: Round)
      requires Valid() && !lists.listMutex.held && lists.pending == [] && now.Normal() && Stands(slots)
      modifies lists`timers, lists`deadlines, lists`pending, lists`events, lists.listMutex
      modifies lists.events`next, lists.events`prev, lists.events`index, watch, watch.table
      ensures Valid() && !lists.listMutex.held && lists.events == old(lists.events)
      ensures k <= |old(lists.timers)| == |old(lists.deadlines)| && r.timers == old(lists.timers)[..k]
      ensures lists.timers == old(lists.timers)[k..] && lists.deadlines == old(lists.deadlines)[k..]
      ensures lists.pending == r.timers + r.ready && RoundReady(r, watchers)
      ensures r.now == now.Micros() && r.rfds == rfds && r.slots == slots
      ensures forall i :: 0 <= i < |old(lists.deadlines)| ==> (i < k <==> old(lists.deadlines)[i] < r.now)
      ensures Shows(slots, rfds, |rfds|, MAX_FD_EVENTS)
    {
      StandsApart(slots);
      ghost var t := lists.timers;
      k := Gather(now, rfds, slots);
      r := Round(now.Micros(), t[..k], slots, rfds, Picked(slots, rfds, |rfds|, MAX_FD_EVENTS));
    }

    lemma NothingPending()
      requires Matches() && lists.pending == []
      ensures ledger.queued == lists.fired
    {
      assert lists.fired + [] == lists.fired;
    }

    /** What one pass puts onto the pending ring: the timers due before `now`, then the events whose
        descriptor select has reported. */
    method Collect(now: Timeval, rfds: set<int>, ghost slots: seq<Slot>) returns (ghost k: nat, ghost r: Round)
      requires Valid() && Matches() && !lists.listMutex.held && lists.pending == [] && now.Normal() && Stands(slots)
      modifies this`changes, this`ledger, lists`timers, lists`deadlines, lists`pending, lists`events, lists.listMutex
      modifies lists.events`next, lists.events`prev, lists.events`index, watch, watch.table
      ensures Valid() && Matches() && !lists.listMutex.held && lists.events == old(lists.events)
      ensures Passed(old(ledger), ledger, r) && RoundReady(r, watchers)
      ensures r.now == now.Micros() && r.rfds == rfds && r.slots == slots
      ensures lists.pending == r.timers + r.ready
      ensures k <= |old(lists.timers)| == |old(lists.deadlines)|
      ensures r.timers == old(lists.timers)[..k] && lists.timers == old(lists.timers)[k..]
      ensures forall i :: 0 <= i < |old(lists.deadlines)| ==> (i < k <==> old(lists.deadlines)[i] < r.now)
      ensures Shows(slots, rfds, |rfds|, MAX_FD_EVENTS)
    {
      NothingPending();
      k, r := GatherRound(now, rfds, slots);
      ghost var cs, l := RoundNoted(changes, ledger, k, r);
      Write(cs, l);
    }

    /** The next pending event is taken off its ring and fired. */
    method FireNext()
      requires Valid() && Matches() && lists.pending != []
      modifies lists`pending, lists`fired, lists.events`next, lists.events`prev
      ensures Valid() && Matches()
      ensures lists.pending == old(lists.pending)[1..] && lists.fired == old(lists.fired) + [old(lists.pending)[0]]
    {
      ghost var f, p := lists.fired, lists.pending;
      assert f + p == (f + [p[0]]) + p[1..];
      var ev := lists.pendingList.next;
      var next := lists.FireFirst(ev);
    }

    /** Everything pending is fired, in order. */
    method FireAll()
      requires Valid() && Matches()
      modifies lists`pending, lists`fired, lists.events`next, lists.events`prev
      ensures Valid() && Matches() && lists.pending == [] && lists.fired == old(lists.fired) + old(lists.pending)
    {
      lists.FirePending();
      assert lists.fired + [] == lists.fired;
    }

    /** One pass of the loop after select has reported `rfds`: the due timers fire first, in the order of
        their deadlines, then the ready events. */
    method Pass(now: Timeval, rfds: set<int>, ghost slots: seq<Slot>) returns (ghost k: nat, ghost r: Round)
      requires Valid() && Matches() && !lists.listMutex.held && lists.pending == [] && now.Normal() && Stands(slots)
      modifies this`changes, this`ledger, lists`timers, lists`deadlines, lists`pending, lists`fired, lists`events
      modifies lists.listMutex, lists.events`next, lists.events`prev, lists.events`index, watch, watch.table
      ensures Valid() && Matches() && !lists.listMutex.held && lists.pending == [] && lists.events == old(lists.events)
      ensures Passed(old(ledger), ledger, r)
      ensures r.now == now.Micros() && r.rfds == rfds && r.slots == slots
      ensures lists.fired == old(lists.fired) + (r.timers + r.ready)
      ensures k <= |old(lists.timers)| == |old(lists.deadlines)|
      ensures r.timers == old(lists.timers)[..k] && lists.timers == old(lists.timers)[k..]
      ensures forall i :: 0 <= i < |old(lists.deadlines)| ==> (i < k <==> old(lists.deadlines)[i] < r.now)
      ensures Shows(r.slots, rfds, |rfds|, MAX_FD_EVENTS)
    {
      hide *;
      k, r := Collect(now, rfds, slots);
      FireAll();
    }
  }

  // ---------- what a record tells ----------

  /** The timer waits until the first pass past its deadline; that pass alone queues it, once. */
  ghost predicate FiresOnce(l: Record, e: RilEvent)
    requires e in l.added && l.added[e].born <= |l.rounds|
  {
    var first := FirstPast(l.rounds, l.added[e].born, l.added[e].due);
    && (forall q :: l.added[e].born <= q < first ==> l.rounds[q].now <= l.added[e].due)
    && (first < |l.rounds| ==> l.rounds[first].now > l.added[e].due)
    && (e in l.timers <==> first == |l.rounds|)
    && (forall q :: 0 <= q < |l.rounds| ==> (e in l.rounds[q].timers <==> q == first))
    && multiset(l.queued)[e] == if first < |l.rounds| then 1 else 0
  }

  /** The event stands in a slot whose descriptor is ready. */
  predicate FromSlot(r: Round, ev: RilEvent) {
    exists j :: 0 <= j < |r.slots| && r.slots[j].Watching? && r.slots[j].fd in r.rfds && r.slots[j].ev == ev
  }

  /** A pass queues its due timers in the order of their deadlines, and just the watched events whose
      descriptors are ready, each once. */
  ghost predicate RoundExact(r: Round, added: map<RilEvent, Timer>) {
    && InOrder(r.timers, added) && |r.slots| == MAX_FD_EVENTS
    && (forall j :: 0 <= j < |r.slots| && r.slots[j].Watching? && r.slots[j].fd in r.rfds ==>
          r.slots[j].ev in r.ready)
    && (forall i :: 0 <= i < |r.ready| ==> FromSlot(r, r.ready[i]))
    && (forall a, b :: 0 <= a < b < |r.ready| ==> r.ready[a] != r.ready[b])
  }

  lemma {:induction false} ReadyExact(r: Round, watchers: set<RilEvent>, ev: RilEvent)
    requires RoundReady(r, watchers)
    ensures ev in r.ready <==> FromSlot(r, ev)
    ensures ev in r.ready ==> ev in watchers
    ensures forall a, b :: 0 <= a < b < |r.ready| ==> r.ready[a] != r.ready[b]
  {
    PickedIs(r.slots, r.rfds, |r.rfds|, MAX_FD_EVENTS, ev);
    PickedOnce(r.slots, r.rfds, |r.rfds|, MAX_FD_EVENTS);
    forall j | 0 <= j < |r.slots|
      ensures Served(r.slots, r.rfds, |r.rfds|, j) <==> Ready(r.slots, r.rfds, j)
    {
      EveryReadyServed(r.slots, r.rfds, |r.rfds|, j);
    }
  }

  lemma {:induction false} AccountFires(l: Record, e: RilEvent)
    requires Account(l) && e in l.added && l.watchers !! l.added.Keys
    ensures l.added[e].born <= |l.rounds| && FiresOnce(l, e)
  {
    assert Tracked(e, l.added[e], l.rounds, l.timers);
    forall q | 0 <= q < |l.rounds|
      ensures InOrder(l.rounds[q].timers, l.added) && e !in l.rounds[q].ready
    {
      ReadyExact(l.rounds[q], l.watchers, e);
    }
    BeforeFirstPast(l.rounds, l.added[e].born, l.added[e].due);
    FlatOnce(l.rounds, l.added, e, FirstPast(l.rounds, l.added[e].born, l.added[e].due));
  }

  lemma {:induction false} AccountRounds(l: Record, q: nat)
    requires Account(l) && q < |l.rounds|
    ensures RoundExact(l.rounds[q], l.added)
  {
    var r := l.rounds[q];
    forall j | 0 <= j < |r.slots| && Ready(r.slots, r.rfds, j)
      ensures r.slots[j].ev in r.ready
    {
      ReadyExact(r, l.watchers, r.slots[j].ev);
    }
    forall i | 0 <= i < |r.ready|
      ensures FromSlot(r, r.ready[i])
    {
      ReadyExact(r, l.watchers, r.ready[i]);
    }
    PickedOnce(r.slots, r.rfds, |r.rfds|, MAX_FD_EVENTS);
  }

  /** The descriptors select is given are those of the table, each in the slot its event knows, and
      `nfds` is above them all and no larger than it must be. */
  ghost predicate TableExact(w: Watch)
    reads w, w.table, w.table[..]`fd, w.table[..]`index
  {
    && w.table.Length == MAX_FD_EVENTS
    && (forall i :: 0 <= i < MAX_FD_EVENTS && w.table[i] != null ==>
          w.table[i].index == i && w.table[i].fd in w.readFds && 0 <= w.table[i].fd < w.nfds)
    && (forall fd :: fd in w.readFds ==>
          exists i :: 0 <= i < MAX_FD_EVENTS && w.table[i] != null && w.table[i].fd == fd)
    && (forall i, j :: 0 <= i < j < MAX_FD_EVENTS && w.table[i] != null && w.table[j] != null ==>
          w.table[i].fd != w.table[j].fd)
    && (w.nfds > 1 ==> w.nfds - 1 in w.readFds)
  }

  lemma {:induction false} ValidTable(w: Watch)
    requires w.Valid()
    ensures TableExact(w)
  {
    assert forall i :: 0 <= i < MAX_FD_EVENTS && w.table[i] != null ==> w.Holds(i);
  }

  lemma {:induction false} Outcome(loop: Loop)
    requires loop.Valid() && loop.Matches()
    ensures TableExact(loop.watch) && loop.ledger.queued == Flat(loop.ledger.rounds)
    ensures forall e :: e in loop.ledger.added ==>
              loop.ledger.added[e].born <= |loop.ledger.rounds| && FiresOnce(loop.ledger, e)
    ensures forall q :: 0 <= q < |loop.ledger.rounds| ==> RoundExact(loop.ledger.rounds[q], loop.ledger.added)
  {
    ValidTable(loop.watch);
    var l := loop.ledger;
    HistoryAccount(loop.changes);
    forall e | e in l.added
      ensures l.added[e].born <= |l.rounds| && FiresOnce(l, e)
    {
      AccountFires(l, e);
    }
    forall q | 0 <= q < |l.rounds|
      ensures RoundExact(l.rounds[q], l.added)
    {
      AccountRounds(l, q);
    }
  }
}
