/** Whole runs of the event loop: additions of timers and events, deletions and passes in any order,
    each mapped to what it does to the table, the pending ring and the record. */
module EventRun {
  import opened Common
  import opened TimeVal
  import opened EventRing
  import opened EventLoop

  /** A call, the gathering half of a pass with its clock reading, or the firing of one pending event. */
  datatype Happening =
    | AddTimer(tv: Option<Timeval>, now: Timeval)
    | AddEvent(fd: int, persist: bool)
    | AddAgain(k: nat)
    | Delete(k: nat)
    | DeleteTimer(k: nat)
    | Select(now: Timeval, rfds: set<int>)
    | FireNext

  /** Clock readings and waits are in normal form. */
  predicate Timely(h: Happening) {
    match h
    case AddTimer(tv, now) => now.Normal() && (tv != None ==> tv.value.Normal())
    case Select(now, _) => now.Normal()
    case _ => true
  }

  datatype Kind = Kind(fd: int, persist: bool)

  /** The events, with what they were made for, and the timers a run has made. */
  datatype Makings = Makings(watched: seq<RilEvent>, kinds: map<RilEvent, Kind>, timers: seq<RilEvent>)

  /** Everything a happening can change. */
  datatype Shot = Shot(held: bool, table: seq<RilEvent?>, pending: seq<RilEvent>, fired: seq<RilEvent>,
                       ledger: Record, made: Makings)

  // ---------- what a happening does ----------

  /** The descriptors of the events in the table. */
  function Fds(table: seq<RilEvent?>, kinds: map<RilEvent, Kind>): set<int> {
    set e | e in kinds && e in table :: kinds[e].fd
  }

  function FirstFree(table: seq<RilEvent?>): (k: nat)
    ensures k <= |table| && (k < |table| ==> table[k] == null)
  {
    if table == [] || table[0] == null then 0 else 1 + FirstFree(table[1..])
  }

  /** The first free slot takes the event; a full table stays as it is. */
  function Put(table: seq<RilEvent?>, ev: RilEvent): seq<RilEvent?> {
    var k := FirstFree(table);
    if k == |table| then table else table[k := ev]
  }

  function Drop(table: seq<RilEvent?>, ev: RilEvent): seq<RilEvent?> {
    seq(|table|, j requires 0 <= j < |table| => if table[j] == ev then null else table[j])
  }

  /** The ready events that are not persistent are gone. */
  function Remaining(slots: seq<Slot>, rfds: set<int>): seq<RilEvent?> {
    seq(|slots|, j requires 0 <= j < |slots| =>
      if slots[j] == Free || (slots[j].fd in rfds && !slots[j].persist) then null else slots[j].ev)
  }

  /** The slots a pass met are those of the table. */
  predicate Shown(slots: seq<Slot>, table: seq<RilEvent?>, kinds: map<RilEvent, Kind>) {
    |slots| == |table| && forall j :: 0 <= j < |slots| ==> slots[j] == SlotOf(table[j], kinds)
  }

  function SlotOf(ev: RilEvent?, kinds: map<RilEvent, Kind>): Slot {
    if ev == null || ev !in kinds then Free else Watching(ev, kinds[ev].fd, kinds[ev].persist)
  }

  ghost predicate TimerStep(a: Shot, due: int, b: Shot) {
    var n := |a.made.timers|;
    && |b.made.timers| == n + 1 && b.made == a.made.(timers := a.made.timers + [b.made.timers[n]])
    && b == a.(ledger := b.ledger, made := b.made)
    && Joined(a.ledger, b.ledger, b.made.timers[n], due)
  }

  /** ril_event_add of an event whose descriptor is not watched. */
  ghost predicate WatchStep(a: Shot, ev: RilEvent, made: Makings, b: Shot) {
    && b == a.(table := Put(a.table, ev), ledger := b.ledger, made := made)
    && b.ledger.added == a.ledger.added && b.ledger.rounds == a.ledger.rounds
  }

  ghost predicate NewEventStep(a: Shot, fd: int, persist: bool, b: Shot) {
    var n := |a.made.watched|;
    && |b.made.watched| == n + 1 && b.made.watched[n] !in a.made.kinds
    && WatchStep(a, b.made.watched[n], More(a.made, b.made.watched[n], Kind(fd, persist)), b)
  }

  function More(m: Makings, ev: RilEvent, kind: Kind): Makings {
    m.(watched := m.watched + [ev], kinds := m.kinds[ev := kind])
  }

  /** ril_event_del; an event that is in no slot leaves the mutex held. */
  ghost predicate DeleteStep(a: Shot, ev: RilEvent, b: Shot) {
    b == a.(table := Drop(a.table, ev), held := ev !in a.table)
  }

  ghost predicate SelectStep(a: Shot, now: int, rfds: set<int>, b: Shot) {
    && PassedAt(a.ledger, b.ledger, now, rfds)
    && var r := b.ledger.rounds[|b.ledger.rounds| - 1];
       && Shown(r.slots, a.table, a.made.kinds)
       && b == a.(table := Remaining(r.slots, rfds), pending := r.timers + r.ready, ledger := b.ledger)
  }

  ghost predicate FireStep(a: Shot, b: Shot) {
    if a.pending == [] then b == a
    else b == a.(pending := a.pending[1..], fired := a.fired + [a.pending[0]])
  }

  /** A call that would wait for a mutex nobody gives back does nothing, and so does one that cannot
      come in the present state. */
  ghost predicate Stepped(a: Shot, h: Happening, b: Shot) {
    if a.held && !h.FireNext? then b == a
    else match h
      case FireNext => FireStep(a, b)
      case AddTimer(tv, now) => if tv == None then b == a else TimerStep(a, now.Micros() + tv.value.Micros(), b)
      case AddEvent(fd, persist) =>
        if fd < 0 || fd in Fds(a.table, a.made.kinds) then b == a else NewEventStep(a, fd, persist, b)
      case AddAgain(k) =>
        if k >= |a.made.watched| || a.made.watched[k] !in a.made.kinds
           || a.made.kinds[a.made.watched[k]].fd in Fds(a.table, a.made.kinds) then b == a
        else WatchStep(a, a.made.watched[k], a.made, b)
      case Delete(k) => if k >= |a.made.watched| then b == a else DeleteStep(a, a.made.watched[k], b)
      case DeleteTimer(k) => if k >= |a.made.timers| then b == a else DeleteStep(a, a.made.timers[k], b)
      case Select(now, rfds) => if a.pending != [] then b == a else SelectStep(a, now.Micros(), rfds, b)
  }

  // ---------- the loop itself ----------

  ghost predicate Described(kinds: map<RilEvent, Kind>)
    reads kinds.Keys`fd, kinds.Keys`persist
  {
    forall e :: e in kinds ==> kinds[e] == Kind(e.fd, e.persist) && e.fd >= 0
  }

  lemma DescribedMore(kinds: map<RilEvent, Kind>, ev: RilEvent)
    requires Described(kinds) && ev.fd >= 0
    ensures Described(kinds[ev := Kind(ev.fd, ev.persist)])
  {
  }

  /** Every event and every timer was made once. */
  ghost predicate Listed(watchers: set<RilEvent>, timed: set<RilEvent>, m: Makings) {
    && m.kinds.Keys == watchers && Once(m.watched) && Once(m.timers)
    && (forall k :: 0 <= k < |m.watched| ==> m.watched[k] in watchers)
    && (forall k :: 0 <= k < |m.timers| ==> m.timers[k] in timed)
    && (forall e :: e in timed ==> e in m.timers)
  }

  lemma ListedTimer(watchers: set<RilEvent>, timed: set<RilEvent>, m: Makings, e: RilEvent)
    requires Listed(watchers, timed, m) && e !in timed
    ensures Listed(watchers, timed + {e}, m.(timers := m.timers + [e]))
  {
  }

  lemma ListedMore(watchers: set<RilEvent>, timed: set<RilEvent>, m: Makings, e: RilEvent, kind: Kind)
    requires Listed(watchers, timed, m) && e !in watchers
    ensures Listed(watchers + {e}, timed, More(m, e, kind)) && e !in m.kinds
  {
    assert m.kinds[e := kind].Keys == m.kinds.Keys + {e};
  }

  ghost predicate Made(loop: Loop, m: Makings)
    reads loop`watchers, loop`timed, m.kinds.Keys`fd, m.kinds.Keys`persist
  {
    Listed(loop.watchers, loop.timed, m) && Described(m.kinds)
  }

  ghost function Now(loop: Loop, m: Makings): Shot
    reads loop`ledger, loop.lists`pending, loop.lists`fired, loop.lists.listMutex, loop.watch.table
  {
    Shot(loop.lists.listMutex.held, loop.watch.table[..], loop.lists.pending, loop.lists.fired, loop.ledger, m)
  }

  /** ril_event_set on new memory. */
  method NewEvent(loop: Loop, fd: int, persist: bool) returns (ev: RilEvent)
    requires loop.Valid() && loop.Matches()
    ensures loop.Valid() && loop.Matches() && fresh(ev) && ev !in loop.lists.events
    ensures ev.fd == fd && ev.persist == persist && ev.index == -1
  {
    hide *;
    ev := new RilEvent(fd, persist);
  }

  method NewTimer(loop: Loop, tv: Timeval, now: Timeval) returns (ev: RilEvent)
    requires loop.Valid() && loop.Matches() && !loop.lists.listMutex.held && tv.Normal() && now.Normal()
    modifies loop`timed, loop`changes, loop`ledger
    modifies loop.lists`timers, loop.lists`deadlines, loop.lists`events, loop.lists.listMutex
    modifies loop.lists.events`next, loop.lists.events`prev
    ensures loop.Valid() && loop.Matches() && fresh(ev) && loop.lists.events == old(loop.lists.events) + {ev}
    ensures !loop.lists.listMutex.held && loop.timed == old(loop.timed) + {ev} && ev !in old(loop.timed)
    ensures Joined(old(loop.ledger), loop.ledger, ev, now.Micros() + tv.Micros())
  {
    hide History;
    ev := NewEvent(loop, -1, false);
    loop.PutTimer(ev, tv, now);
  }

  lemma TimerStepped(a: Shot, b: Shot, ev: RilEvent, due: int)
    requires b == a.(ledger := b.ledger, made := a.made.(timers := a.made.timers + [ev]))
    requires Joined(a.ledger, b.ledger, ev, due)
    ensures TimerStep(a, due, b)
  {
  }

  method HandleTimer(loop: Loop, m: Makings, tv: Timeval, now: Timeval) returns (m': Makings)
    requires loop.Valid() && loop.Matches() && Made(loop, m)
    requires !loop.lists.listMutex.held && tv.Normal() && now.Normal()
    modifies loop`timed, loop`changes, loop`ledger
    modifies loop.lists`timers, loop.lists`deadlines, loop.lists`events, loop.lists.listMutex
    modifies loop.lists.events`next, loop.lists.events`prev
    ensures loop.Valid() && loop.Matches() && Made(loop, m') && fresh(loop.lists.events - old(loop.lists.events))
    ensures TimerStep(old(Now(loop, m)), now.Micros() + tv.Micros(), Now(loop, m'))
  {
    hide History;
    ghost var a := Now(loop, m);
    var ev := NewTimer(loop, tv, now);
    m' := m.(timers := m.timers + [ev]);
    ListedTimer(loop.watchers, old(loop.timed), m, ev);
    TimerStepped(a, Now(loop, m'), ev, now.Micros() + tv.Micros());
  }

  // ---------- additions to the table ----------

  lemma {:induction false} FirstFreeIs(table: seq<RilEvent?>, k: nat)
    requires k <= |table| && (forall i :: 0 <= i < k ==> table[i] != null) && (k < |table| ==> table[k] == null)
    ensures FirstFree(table) == k
  {
    if k > 0 {
      FirstFreeIs(table[1..], k - 1);
    }
  }

  /** `readFds` holds the descriptors of the table. */
  lemma {:induction false} FdsAre(loop: Loop, m: Makings)
    requires loop.Valid() && Made(loop, m)
    ensures loop.watch.readFds == Fds(loop.watch.table[..], m.kinds)
  {
    ValidTable(loop.watch);
    var w, table := loop.watch, loop.watch.table[..];
    forall fd | fd in w.readFds
      ensures fd in Fds(table, m.kinds)
    {
      var i :| 0 <= i < MAX_FD_EVENTS && w.table[i] != null && w.table[i].fd == fd;
      assert table[i] in m.kinds && table[i] in table;
    }
    forall e | e in m.kinds && e in table
      ensures m.kinds[e].fd in w.readFds
    {
      var i :| 0 <= i < |table| && table[i] == e;
      assert w.table[i].fd in w.readFds;
    }
  }

  method Watch(loop: Loop, ev: RilEvent, ghost m: Makings, ghost m': Makings)
    requires loop.Valid() && loop.Matches() && !loop.lists.listMutex.held && ev.fd >= 0 && ev.fd !in loop.watch.readFds
    requires ev in loop.watchers || (ev !in loop.lists.events && ev.index == -1)
    modifies loop`watchers, loop`changes, loop`ledger, loop.lists`events, loop.lists.listMutex
    modifies loop.watch, loop.watch.table, ev`index
    ensures loop.Valid() && loop.Matches()
    ensures loop.lists.events == old(loop.lists.events) + {ev} && loop.watchers == old(loop.watchers) + {ev}
    ensures WatchStep(old(Now(loop, m)), ev, m', Now(loop, m'))
  {
    hide History;
    ghost var table := loop.watch.table[..];
    ghost var k := loop.EventAdd(ev);
    FirstFreeIs(table, k);
  }

  lemma NewEventStepped(a: Shot, ev: RilEvent, kind: Kind, b: Shot)
    requires ev !in a.made.kinds && WatchStep(a, ev, More(a.made, ev, kind), b)
    ensures NewEventStep(a, kind.fd, kind.persist, b)
  {
  }

  method WatchNew(loop: Loop, m: Makings, ev: RilEvent) returns (m': Makings)
    requires loop.Valid() && loop.Matches() && Made(loop, m) && !loop.lists.listMutex.held
    requires ev.fd >= 0 && ev.fd !in loop.watch.readFds && ev !in loop.lists.events && ev.index == -1
    modifies loop`watchers, loop`changes, loop`ledger, loop.lists`events, loop.lists.listMutex
    modifies loop.watch, loop.watch.table, ev`index
    ensures loop.Valid() && loop.Matches() && Made(loop, m') && loop.lists.events == old(loop.lists.events) + {ev}
    ensures NewEventStep(old(Now(loop, m)), ev.fd, ev.persist, Now(loop, m'))
  {
    hide History, WatchStep, Listed;
    ghost var a := Now(loop, m);
    var kind := Kind(ev.fd, ev.persist);
    m' := More(m, ev, kind);
    ListedMore(loop.watchers, loop.timed, m, ev, kind);
    Watch(loop, ev, m, m');
    assert Described(m.kinds) && ev.fd == kind.fd && ev.persist == kind.persist;
    DescribedMore(m.kinds, ev);
    NewEventStepped(a, ev, kind, Now(loop, m'));
  }

  method HandleNew(loop: Loop, m: Makings, fd: int, persist: bool) returns (m': Makings)
    requires loop.Valid() && loop.Matches() && Made(loop, m) && !loop.lists.listMutex.held
    requires fd >= 0 && fd !in loop.watch.readFds
    modifies loop`watchers, loop`changes, loop`ledger, loop.lists`events, loop.lists.listMutex
    modifies loop.watch, loop.watch.table
    ensures loop.Valid() && loop.Matches() && Made(loop, m') && fresh(loop.lists.events - old(loop.lists.events))
    ensures NewEventStep(old(Now(loop, m)), fd, persist, Now(loop, m'))
  {
    hide *;
    var ev := NewEvent(loop, fd, persist);
    m' := WatchNew(loop, m, ev);
  }

  method HandleAgain(loop: Loop, m: Makings, k: nat)
    requires loop.Valid() && loop.Matches() && Made(loop, m) && !loop.lists.listMutex.held
    requires k < |m.watched| && m.watched[k].fd !in loop.watch.readFds
    modifies loop`watchers, loop`changes, loop`ledger, loop.lists`events, loop.lists.listMutex
    modifies loop.watch, loop.watch.table, loop.lists.events`index
    ensures loop.Valid() && loop.Matches() && Made(loop, m) && loop.lists.events == old(loop.lists.events)
    ensures WatchStep(old(Now(loop, m)), m.watched[k], m, Now(loop, m))
  {
    hide History;
    assert m.watched[k] in loop.watchers;
    Watch(loop, m.watched[k], m, m);
  }

  // ---------- deletions ----------

  lemma DropAt(table: seq<RilEvent?>, ev: RilEvent, i: nat)
    requires i < |table| && forall j :: 0 <= j < |table| ==> (table[j] == ev <==> j == i)
    ensures Drop(table, ev) == table[i := null]
  {
  }

  lemma DropNone(table: seq<RilEvent?>, ev: RilEvent)
    requires ev !in table
    ensures Drop(table, ev) == table
  {
  }

  /** An event is in the table exactly when its index is in range, and there. */
  lemma IndexIs(loop: Loop, ev: RilEvent, j: nat)
    requires loop.Valid() && ev in loop.lists.events && j < MAX_FD_EVENTS
    ensures loop.watch.table[j] == ev <==> ev.index == j
  {
    if loop.watch.table[j] == ev {
      assert loop.watch.Holds(j);
    }
  }

  method HandleDelete(loop: Loop, ev: RilEvent, ghost m: Makings)
    requires loop.Valid() && loop.Matches() && !loop.lists.listMutex.held && ev in loop.lists.events
    modifies loop.lists.listMutex, loop.watch, loop.watch.table, ev`index
    ensures loop.Valid() && loop.Matches()
    ensures DeleteStep(old(Now(loop, m)), ev, Now(loop, m))
  {
    hide History;
    ghost var table, i := loop.watch.table[..], ev.index;
    forall j | 0 <= j < MAX_FD_EVENTS
      ensures table[j] == ev <==> j == i
    {
      IndexIs(loop, ev, j);
    }
    loop.EventDel(ev);
    if 0 <= i < MAX_FD_EVENTS {
      DropAt(table, ev, i);
    } else {
      DropNone(table, ev);
    }
  }

  // ---------- passes ----------

  lemma TableShown(loop: Loop, m: Makings, slots: seq<Slot>)
    requires loop.Valid() && Made(loop, m) && loop.Stands(slots)
    ensures Shown(slots, loop.watch.table[..], m.kinds)
  {
    forall j | 0 <= j < MAX_FD_EVENTS
      ensures slots[j] == SlotOf(loop.watch.table[j], m.kinds)
    {
      assert loop.SlotAt(j) == slots[j] && loop.watch.table[..][j] == loop.watch.table[j];
    }
  }

  /** All ready events have been served, so those that are not persistent have left the table. */
  lemma TableRemaining(loop: Loop, slots: seq<Slot>, rfds: set<int>)
    requires loop.watch.table.Length == MAX_FD_EVENTS == |slots| && DifferentFds(slots)
    requires loop.Shows(slots, rfds, |rfds|, MAX_FD_EVENTS)
    ensures loop.watch.table[..] == Remaining(slots, rfds)
  {
    forall j | 0 <= j < MAX_FD_EVENTS
      ensures loop.watch.table[j] == Remaining(slots, rfds)[j]
    {
      EveryReadyServed(slots, rfds, |rfds|, j);
      assert loop.SlotAt(j) == Kept(slots, rfds, |rfds|, j);
    }
  }

  method CollectFor(loop: Loop, now: Timeval, rfds: set<int>, ghost slots: seq<Slot>, ghost m: Makings)
    returns (ghost r: Round)
    requires loop.Valid() && loop.Matches() && Made(loop, m) && !loop.lists.listMutex.held && now.Normal()
    requires loop.lists.pending == [] && loop.Stands(slots)
    modifies loop`changes, loop`ledger, loop.lists`timers, loop.lists`deadlines, loop.lists`pending, loop.lists`events
    modifies loop.lists.listMutex, loop.lists.events`next, loop.lists.events`prev, loop.lists.events`index
    modifies loop.watch, loop.watch.table
    ensures loop.Valid() && loop.Matches() && Made(loop, m) && loop.lists.events == old(loop.lists.events)
    ensures !loop.lists.listMutex.held && loop.lists.pending == r.timers + r.ready
    ensures Passed(old(loop.ledger), loop.ledger, r) && r.now == now.Micros() && r.rfds == rfds && r.slots == slots
    ensures DifferentFds(slots) && loop.Shows(slots, rfds, |rfds|, MAX_FD_EVENTS)
  {
    hide *;
    ghost var k;
    k, r := loop.Collect(now, rfds, slots);
  }

  method HandleSelect(loop: Loop, now: Timeval, rfds: set<int>, ghost m: Makings)
    requires loop.Valid() && loop.Matches() && Made(loop, m) && !loop.lists.listMutex.held && now.Normal()
    requires loop.lists.pending == []
    modifies loop`changes, loop`ledger, loop.lists`timers, loop.lists`deadlines, loop.lists`pending, loop.lists`events
    modifies loop.lists.listMutex, loop.lists.events`next, loop.lists.events`prev, loop.lists.events`index
    modifies loop.watch, loop.watch.table
    ensures loop.Valid() && loop.Matches() && Made(loop, m) && loop.lists.events == old(loop.lists.events)
    ensures SelectStep(old(Now(loop, m)), now.Micros(), rfds, Now(loop, m))
  {
    hide History;
    ghost var slots := loop.Snapshot();
    TableShown(loop, m, slots);
    ghost var r := CollectFor(loop, now, rfds, slots, m);
    TableRemaining(loop, slots, rfds);
  }

  method HandleFire(loop: Loop, ghost m: Makings)
    requires loop.Valid() && loop.Matches()
    modifies loop.lists`pending, loop.lists`fired, loop.lists.events`next, loop.lists.events`prev
    ensures loop.Valid() && loop.Matches()
    ensures FireStep(old(Now(loop, m)), Now(loop, m))
  {
    hide History;
    if loop.lists.pendingList.next != loop.lists.pendingList {
      loop.FireNext();
    }
  }

  // ---------- runs ----------

  method HandleAddition(loop: Loop, m: Makings, h: Happening) returns (m': Makings)
    requires loop.Valid() && loop.Matches() && Made(loop, m) && !loop.lists.listMutex.held
             && (h.AddEvent? || h.AddAgain?)
    modifies loop`watchers, loop`changes, loop`ledger, loop.lists`events, loop.lists.listMutex
    modifies loop.watch, loop.watch.table, loop.lists.events`index
    ensures loop.Valid() && loop.Matches() && Made(loop, m') && fresh(loop.lists.events - old(loop.lists.events))
    ensures Stepped(old(Now(loop, m)), h, Now(loop, m'))
  {
    hide History;
    m' := m;
    FdsAre(loop, m);
    match h
    case AddEvent(fd, persist) =>
      if fd >= 0 && fd !in loop.watch.readFds {
        m' := HandleNew(loop, m, fd, persist);
      }
    case AddAgain(k) =>
      if k < |m.watched| && m.watched[k].fd !in loop.watch.readFds {
        HandleAgain(loop, m, k);
      }
  }

  method HandleDeletion(loop: Loop, m: Makings, h: Happening)
    requires loop.Valid() && loop.Matches() && Made(loop, m) && !loop.lists.listMutex.held
             && (h.Delete? || h.DeleteTimer?)
    modifies loop.lists.listMutex, loop.watch, loop.watch.table, loop.lists.events`index
    ensures loop.Valid() && loop.Matches()
    ensures Stepped(old(Now(loop, m)), h, Now(loop, m))
  {
    hide History;
    match h
    case Delete(k) =>
      if k < |m.watched| {
        assert m.watched[k] in loop.watchers;
        HandleDelete(loop, m.watched[k], m);
      }
    case DeleteTimer(k) =>
      if k < |m.timers| {
        assert m.timers[k] in loop.timed;
        HandleDelete(loop, m.timers[k], m);
      }
  }

  method HandleAddTimer(loop: Loop, m: Makings, h: Happening) returns (m': Makings)
    requires loop.Valid() && loop.Matches() && Made(loop, m) && !loop.lists.listMutex.held && h.AddTimer? && Timely(h)
    modifies loop`timed, loop`changes, loop`ledger
    modifies loop.lists`timers, loop.lists`deadlines, loop.lists`events, loop.lists.listMutex
    modifies loop.lists.events`next, loop.lists.events`prev
    ensures loop.Valid() && loop.Matches() && Made(loop, m') && fresh(loop.lists.events - old(loop.lists.events))
    ensures Stepped(old(Now(loop, m)), h, Now(loop, m'))
  {
    hide History;
    m' := m;
    if h.tv != None {
      m' := HandleTimer(loop, m, h.tv.value, h.now);
    }
  }

  method HandlePass(loop: Loop, m: Makings, h: Happening)
    requires loop.Valid() && loop.Matches() && Made(loop, m) && !loop.lists.listMutex.held && h.Select? && Timely(h)
    modifies loop`changes, loop`ledger, loop.lists`timers, loop.lists`deadlines, loop.lists`pending, loop.lists`events
    modifies loop.lists.listMutex, loop.lists.events`next, loop.lists.events`prev, loop.lists.events`index
    modifies loop.watch, loop.watch.table
    ensures loop.Valid() && loop.Matches() && Made(loop, m) && loop.lists.events == old(loop.lists.events)
    ensures Stepped(old(Now(loop, m)), h, Now(loop, m))
  {
    hide History;
    if loop.lists.pendingList.next == loop.lists.pendingList {
      HandleSelect(loop, h.now, h.rfds, m);
    }
  }

  method HandleFree(loop: Loop, m: Makings, h: Happening) returns (m': Makings)
    requires loop.Valid() && loop.Matches() && Made(loop, m) && Timely(h) && !loop.lists.listMutex.held && !h.FireNext?
    modifies loop, loop.lists, loop.lists.listMutex, loop.watch, loop.watch.table, loop.lists.events
    ensures loop.Valid() && loop.Matches() && Made(loop, m') && fresh(loop.lists.events - old(loop.lists.events))
    ensures Stepped(old(Now(loop, m)), h, Now(loop, m'))
  {
    hide *;
    m' := m;
    if h.Select? {
      HandlePass(loop, m, h);
    } else if h.AddTimer? {
      m' := HandleAddTimer(loop, m, h);
    } else if h.Delete? || h.DeleteTimer? {
      HandleDeletion(loop, m, h);
    } else {
      m' := HandleAddition(loop, m, h);
    }
  }

  method Handle(loop: Loop, m: Makings, h: Happening) returns (m': Makings)
    requires loop.Valid() && loop.Matches() && Made(loop, m) && Timely(h)
    modifies loop, loop.lists, loop.lists.listMutex, loop.watch, loop.watch.table, loop.lists.events
    ensures loop.Valid() && loop.Matches() && Made(loop, m') && fresh(loop.lists.events - old(loop.lists.events))
    ensures Stepped(old(Now(loop, m)), h, Now(loop, m'))
  {
    hide History;
    m' := m;
    if h.FireNext? {
      HandleFire(loop, m);
    } else if !loop.lists.listMutex.held {
      m' := HandleFree(loop, m, h);
    }
  }

  ghost function Start(): Shot {
    Shot(false, seq(MAX_FD_EVENTS, _ => null), [], [], EMPTY, Makings([], map[], []))
  }

  /** What every happening leaves, from the start on. */
  ghost predicate Follows(shots: seq<Shot>, hs: seq<Happening>) {
    && |shots| == |hs| + 1 && shots[0] == Start()
    && forall n :: 0 <= n < |hs| ==> Stepped(shots[n], hs[n], shots[n + 1])
  }

  lemma FollowsNext(shots: seq<Shot>, hs: seq<Happening>, n: nat, b: Shot)
    requires n < |hs| && Follows(shots, hs[..n]) && Stepped(shots[n], hs[n], b)
    ensures Follows(shots + [b], hs[..n + 1])
  {
    var more := shots + [b];
    forall i | 0 <= i < n + 1
      ensures Stepped(more[i], hs[i], more[i + 1])
    {
      if i < n {
        assert hs[..n][i] == hs[i];
      }
    }
  }

  lemma ListedStart()
    ensures Listed({}, {}, Start().made) && Described(Start().made.kinds)
  {
  }

  lemma FollowsStart(hs: seq<Happening>)
    ensures Follows([Start()], hs[..0])
  {
  }

  method NewLoop() returns (loop: Loop, m: Makings)
    ensures loop.Valid() && loop.Matches() && Made(loop, m) && Now(loop, m) == Start()
    ensures fresh(loop) && fresh(loop.lists) && fresh(loop.watch) && fresh(loop.lists.listMutex)
    ensures fresh(loop.watch.table) && fresh(loop.lists.events)
  {
    hide History, Listed, Described;
    loop := new Loop();
    m := Makings([], map[], []);
    ListedStart();
    assert loop.watch.table[..] == Start().table;
  }

  lemma MadeOnce(loop: Loop, m: Makings)
    requires loop.Valid() && loop.Matches() && Made(loop, m)
    ensures Once(m.timers) && Once(m.watched) && forall k :: 0 <= k < |m.timers| ==> m.timers[k] !in m.kinds
    ensures forall e :: e in m.timers <==> e in loop.ledger.added
  {
    hide History;
  }

  method Continue(loop: Loop, m: Makings, ghost shots: seq<Shot>, hs: seq<Happening>, n: nat)
    returns (m': Makings, ghost shots': seq<Shot>)
    requires loop.Valid() && loop.Matches() && Made(loop, m)
    requires n < |hs| && Timely(hs[n]) && Follows(shots, hs[..n]) && |shots| == n + 1 && shots[n] == Now(loop, m)
    modifies loop, loop.lists, loop.lists.listMutex, loop.watch, loop.watch.table, loop.lists.events
    ensures loop.Valid() && loop.Matches() && Made(loop, m') && fresh(loop.lists.events - old(loop.lists.events))
    ensures Follows(shots', hs[..n + 1]) && |shots'| == n + 2 && shots'[n + 1] == Now(loop, m')
  {
    hide *;
    m' := Handle(loop, m, hs[n]);
    FollowsNext(shots, hs, n, Now(loop, m'));
    shots' := shots + [Now(loop, m')];
  }

  method RunAll(hs: seq<Happening>) returns (loop: Loop, m: Makings, ghost shots: seq<Shot>)
    requires forall i :: 0 <= i < |hs| ==> Timely(hs[i])
    ensures loop.Valid() && loop.Matches() && Made(loop, m)
    ensures Follows(shots, hs) && shots[|hs|] == Now(loop, m)
  {
    hide *;
    loop, m := NewLoop();
    shots := [Start()];
    FollowsStart(hs);
    for n := 0 to |hs|
      invariant fresh(loop) && fresh(loop.lists) && fresh(loop.watch) && fresh(loop.lists.listMutex)
      invariant fresh(loop.watch.table) && fresh(loop.lists.events)
      invariant loop.Valid() && loop.Matches() && Made(loop, m)
      invariant Follows(shots, hs[..n]) && |shots| == n + 1 && shots[n] == Now(loop, m)
    {
      m, shots := Continue(loop, m, shots, hs, n);
    }
    assert hs[..|hs|] == hs;
  }

  /** Any run; between the firing of two pending events anything may come. Each step is the one its
      happening calls for. At the end the rings are well formed and the timer ring sorted; each timer
      waits, is pending or has fired, once, as the passes so far call for; each pass has queued what
      it should; and the table, `readFds`, `nfds` and the indexes agree. */
  method Session(hs: seq<Happening>) returns (loop: Loop, m: Makings, ghost shots: seq<Shot>)
    requires forall i :: 0 <= i < |hs| ==> Timely(hs[i])
    ensures Follows(shots, hs) && shots[|hs|] == Now(loop, m)
    ensures loop.Valid() && loop.Matches() && Made(loop, m)
    ensures TableExact(loop.watch) && loop.watch.readFds == Fds(loop.watch.table[..], m.kinds)
    ensures Once(m.timers) && Once(m.watched) && forall k :: 0 <= k < |m.timers| ==> m.timers[k] !in m.kinds
    ensures forall e :: e in m.timers <==> e in loop.ledger.added
    ensures loop.lists.timers == loop.ledger.timers
    ensures loop.lists.fired + loop.lists.pending == loop.ledger.queued == Flat(loop.ledger.rounds)
    ensures forall e :: e in loop.ledger.added ==>
              loop.ledger.added[e].born <= |loop.ledger.rounds| && FiresOnce(loop.ledger, e)
    ensures forall q :: 0 <= q < |loop.ledger.rounds| ==> RoundExact(loop.ledger.rounds[q], loop.ledger.added)
  {
    loop, m, shots := RunAll(hs);
    Outcome(loop);
    FdsAre(loop, m);
    MadeOnce(loop, m);
  }
}
