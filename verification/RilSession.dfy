/** Whole runs of the request list: connections that come and go, records, local requests and
    completions in any order, against what the events alone call for. */
module RilSession {
  import opened Common
  import opened RilRequests
  import CdmaSms

  type Word = CdmaSms.Word

  /** `otherwise` is the verdict of a dispatch function that is not modelled; `Complete` names a
      request by its place among all that were ever issued. */
  datatype Event =
    | Connect(fd: int)
    | Record(words: seq<Word>, otherwise: bool)
    | Local(request: int)
    | Complete(k: nat, error: int, payload: Option<int>, written: bool)
    | Close

  // ---------- which records are accepted ----------

  datatype Dispatch = Always | Strings | Ints | Cdma | Other

  const ALWAYS: set<int> := {
    1, 9, 11, 13, 14, 15, 16, 17, 18, 19, 20, 21, 22, 24, 29, 30, 31, 38, 39, 40, 45, 46, 47, 48, 49, 50, 51, 54,
    55, 56, 57, 58, 66, 67, 68, 69, 70, 72, 74, 75, 79, 81, 83, 84, 86, 89, 92, 95, 98, 99, 100, 101, 103}

  const STRINGS: set<int> := {2, 3, 4, 5, 6, 7, 8, 25, 26, 27, 41, 42, 43, 44, 60, 85}

  const INTS: set<int> := {
    12, 23, 32, 35, 36, 37, 52, 53, 61, 62, 64, 65, 71, 73, 76, 77, 78, 80, 82, 91, 94, 97, 102}

  const CDMA_SEND_SMS := 87

  /** The command table: dispatchVoid and dispatchString refuse nothing. */
  function DispatchOf(request: int): Dispatch {
    if request in ALWAYS then Always
    else if request in STRINGS then Strings
    else if request in INTS then Ints
    else if request == CDMA_SEND_SMS then Cdma
    else Other
  }

  /** Whether the dispatch function gets as far as the vendor's code; the words are behind the token.
      The count of dispatchInts is taken to be positive as a 32-bit number. */
  predicate Accepts(request: int, rest: seq<Word>, otherwise: bool) {
    match DispatchOf(request)
    case Always => true
    case Strings => rest != []
    case Ints => rest != [] && 0 < rest[0] < |rest|
    case Cdma => CdmaSms.Decode(rest).Some?
    case Other => otherwise
  }

  /** dispatchStrings and dispatchInts need their count, dispatchInts also all the integers it counts,
      and a CDMA message must be whole. */
  lemma AcceptsExactly(request: int, rest: seq<Word>, otherwise: bool)
    ensures Accepts(request, rest, otherwise) <==>
              var d := DispatchOf(request);
              && (d == Strings ==> |rest| >= 1)
              && (d == Ints ==> |rest| >= 2 && 1 <= rest[0] <= |rest| - 1)
              && (d == Cdma ==> CdmaSms.Decode(rest) != None)
              && (d == Other ==> otherwise)
  {
    hide CdmaSms.Decode, DispatchOf;
  }

  predicate Recognised(words: seq<Word>) {
    |words| >= 2 && 1 <= words[0] < COMMANDS
  }

  predicate Accepted(words: seq<Word>, otherwise: bool) {
    |words| >= 2 && Accepts(words[0], words[2..], otherwise)
  }

  // ---------- what the events call for ----------

  predicate OnlineAfter(online: bool, e: Event) {
    match e
    case Connect(fd) => online || fd >= 0
    case Close => false
    case _ => online
  }

  function ConnectionAfter(online: bool, connection: nat, e: Event): nat {
    if e.Connect? && e.fd >= 0 && !online then connection + 1 else connection
  }

  predicate Online(events: seq<Event>) {
    events != [] && OnlineAfter(Online(events[..|events| - 1]), events[|events| - 1])
  }

  /** The number of the latest connection. */
  function Connection(events: seq<Event>): nat {
    if events == [] then 0
    else
      var before := events[..|events| - 1];
      ConnectionAfter(Online(before), Connection(before), events[|events| - 1])
  }

  /** A request, with the number of the connection it came in on, or at the time if it is local. */
  datatype Issue = Issue(token: int, request: int, local: bool, arrived: nat)

  /** What the vendor's code is called with because of this event. */
  function IssuedBy(online: bool, connection: nat, e: Event): seq<Issue> {
    match e
    case Record(words, otherwise) =>
      if online && Recognised(words) && Accepted(words, otherwise)
      then [Issue(words[1], words[0], false, connection)] else []
    case Local(request) => if 0 <= request < COMMANDS then [Issue(0xffff_ffff, request, true, connection)] else []
    case _ => []
  }

  function RefusedBy(online: bool, connection: nat, e: Event): seq<Issue> {
    match e
    case Record(words, otherwise) =>
      if online && Recognised(words) && !Accepted(words, otherwise)
      then [Issue(words[1], words[0], false, connection)] else []
    case _ => []
  }

  function Issued(events: seq<Event>): seq<Issue> {
    if events == [] then []
    else
      var before := events[..|events| - 1];
      Issued(before) + IssuedBy(Online(before), Connection(before), events[|events| - 1])
  }

  function Refused(events: seq<Event>): seq<Issue> {
    if events == [] then []
    else
      var before := events[..|events| - 1];
      Refused(before) + RefusedBy(Online(before), Connection(before), events[|events| - 1])
  }

  /** The k-th request issued has been completed after it was issued. */
  predicate Done(events: seq<Event>, k: nat) {
    if events == [] then false
    else
      var before, e := events[..|events| - 1], events[|events| - 1];
      Done(before, k) || (e.Complete? && e.k == k && k < |Issued(before)|)
  }

  /** A response written for the k-th request issued. */
  datatype Answer = Answer(k: nat, token: int, error: int, connection: nat)

  /** A completion is answered when the request is an open one of the phone process, the connection it
      came in on is still the present one, and the response is written. */
  function AnswerBy(online: bool, connection: nat, issued: seq<Issue>, done: bool, e: Event): seq<Answer> {
    if && e.Complete? && e.k < |issued| && !done && e.written
       && !issued[e.k].local && online && issued[e.k].arrived == connection
    then [Answer(e.k, issued[e.k].token, ErrorOf(e.error, e.payload), connection)] else []
  }

  function Answers(events: seq<Event>): seq<Answer> {
    if events == [] then []
    else
      var before, e := events[..|events| - 1], events[|events| - 1];
      var done := e.Complete? && Done(before, e.k);
      Answers(before) + AnswerBy(Online(before), Connection(before), Issued(before), done, e)
  }

  // ---------- the run as it is ----------

  ghost function IssueOf(r: RequestInfo): Issue {
    Issue(r.token, r.request, r.local, r.arrived)
  }

  ghost predicate Made(requests: seq<RequestInfo>, issues: seq<Issue>) {
    |requests| == |issues| && forall k :: 0 <= k < |requests| ==> IssueOf(requests[k]) == issues[k]
  }

  ghost predicate Written(replies: seq<Reply>, answers: seq<Answer>, issued: seq<RequestInfo>) {
    |replies| == |answers| && forall i :: 0 <= i < |replies| ==>
      && answers[i].k < |issued|
      && replies[i] == Reply(answers[i].token, answers[i].error, issued[answers[i].k], answers[i].connection)
  }

  /** The state of the radio interface, with every request made so far. */
  datatype View = View(online: bool, connection: nat, pending: seq<RequestInfo>, replies: seq<Reply>,
                       issued: seq<RequestInfo>, refused: seq<RequestInfo>)

  ghost function Now(ril: Ril, issued: seq<RequestInfo>, refused: seq<RequestInfo>): View
    reads ril
  {
    View(ril.fdCommand >= 0, ril.connection, ril.pending, ril.replies, issued, refused)
  }

  /** The requests whose record was refused are in the list for ever; every other one in it has been
      issued and not completed. */
  ghost predicate Kept(v: View, events: seq<Event>) {
    && Once(v.issued) && (forall r :: r in v.refused ==> r in v.pending && r !in v.issued)
    && (forall r :: r in v.pending ==> r in v.issued || r in v.refused)
    && (forall k :: 0 <= k < |v.issued| ==> (v.issued[k] in v.pending <==> !Done(events, k)))
  }

  /** The run is the one the events call for. */
  ghost predicate Told(v: View, events: seq<Event>) {
    && (v.online <==> Online(events)) && v.connection == Connection(events)
    && Made(v.issued, Issued(events)) && Made(v.refused, Refused(events))
    && Written(v.replies, Answers(events), v.issued)
    && Kept(v, events)
  }

  lemma Next(events: seq<Event>, n: nat)
    requires n < |events|
    ensures var a, b, e := events[..n], events[..n + 1], events[n];
            && (Online(b) <==> OnlineAfter(Online(a), e))
            && Connection(b) == ConnectionAfter(Online(a), Connection(a), e)
            && Issued(b) == Issued(a) + IssuedBy(Online(a), Connection(a), e)
            && Refused(b) == Refused(a) + RefusedBy(Online(a), Connection(a), e)
            && Answers(b) == Answers(a) + AnswerBy(Online(a), Connection(a), Issued(a), e.Complete? && Done(a, e.k), e)
  {
    assert events[..n + 1][..n] == events[..n];
  }

  /** What a connection and its end add to what the events call for: a connection is a new one only
      when there is none. */
  lemma ConnectExactly(events: seq<Event>, e: Event)
    requires e.Connect? || e.Close?
    ensures var all := events + [e];
            && (Online(all) <==> e.Connect? && (Online(events) || e.fd >= 0))
            && Connection(all) == Connection(events) + (if !Online(events) && Online(all) then 1 else 0)
            && Issued(all) == Issued(events) && Refused(all) == Refused(events) && Answers(all) == Answers(events)
  {
    assert (events + [e])[..|events|] == events;
  }

  /** A record that is long enough and has a known code makes a request with its code and token; it is
      issued if the dispatch function accepts the rest of the record, and refused if not. */
  lemma RecordExactly(events: seq<Event>, words: seq<Word>, otherwise: bool)
    ensures var all := events + [Record(words, otherwise)];
            var known := Online(events) && |words| >= 2 && 1 <= words[0] <= 103;
            var accepted := known && Accepts(words[0], words[2..], otherwise);
            var made := if known then [Issue(words[1], words[0], false, Connection(events))] else [];
            && Issued(all) == Issued(events) + (if accepted then made else [])
            && Refused(all) == Refused(events) + (if accepted then [] else made)
            && Answers(all) == Answers(events)
            && Online(all) == Online(events) && Connection(all) == Connection(events)
  {
    assert (events + [Record(words, otherwise)])[..|events|] == events;
  }

  /** A completion is answered when its request is open and not a local one, came in on the present
      connection, and the response is written: once, with the token of the request, and with the error
      of marshalling the response if there is one. */
  lemma CompleteExactly(events: seq<Event>, k: nat, error: int, payload: Option<int>, written: bool)
    ensures var all := events + [Complete(k, error, payload, written)]; var issued := Issued(events);
            var answered := k < |issued| && !Done(events, k) && !issued[k].local && written
                            && Online(events) && issued[k].arrived == Connection(events);
            var told := if payload == None || payload == Some(0) then error else payload.value;
            && Answers(all) == Answers(events)
                 + (if answered then [Answer(k, issued[k].token, told, Connection(events))] else [])
            && (forall j :: 0 <= j < |issued| ==> (Done(all, j) <==> Done(events, j) || j == k))
            && Issued(all) == issued && Refused(all) == Refused(events)
            && Online(all) == Online(events) && Connection(all) == Connection(events)
  {
    assert (events + [Complete(k, error, payload, written)])[..|events|] == events;
  }

  /** A local request is issued, with the largest token, whether or not there is a connection. */
  lemma LocalExactly(events: seq<Event>, request: int)
    ensures var all := events + [Local(request)];
            && Issued(all) == Issued(events)
                 + (if 0 <= request <= 103 then [Issue(0xffff_ffff, request, true, Connection(events))] else [])
            && Refused(all) == Refused(events) && Answers(all) == Answers(events)
            && Online(all) == Online(events) && Connection(all) == Connection(events)
  {
    assert (events + [Local(request)])[..|events|] == events;
  }

  lemma NextDone(events: seq<Event>, n: nat, k: nat)
    requires n < |events|
    ensures Done(events[..n + 1], k) <==>
              Done(events[..n], k) || (events[n].Complete? && events[n].k == k && k < |Issued(events[..n])|)
  {
    assert events[..n + 1][..n] == events[..n];
  }

  lemma {:induction false} DoneIssued(events: seq<Event>, k: nat)
    requires Done(events, k)
    ensures k < |Issued(events)|
  {
    var before := events[..|events| - 1];
    if Done(before, k) {
      DoneIssued(before, k);
    }
  }

  lemma MadeSnoc(requests: seq<RequestInfo>, issues: seq<Issue>, r: RequestInfo)
    requires Made(requests, issues)
    ensures Made(requests + [r], issues + [IssueOf(r)]) && |requests| == |issues|
  {
  }

  /** More requests change nothing about the responses so far. */
  lemma WrittenMore(replies: seq<Reply>, answers: seq<Answer>, issued: seq<RequestInfo>, r: RequestInfo)
    requires Written(replies, answers, issued)
    ensures Written(replies, answers, issued + [r])
  {
  }

  lemma KeptQuiet(v: View, w: View, events: seq<Event>, n: nat)
    requires n < |events| && Kept(v, events[..n]) && (events[n].Complete? ==> events[n].k >= |v.issued|)
    requires w.pending == v.pending && w.issued == v.issued && w.refused == v.refused
    ensures Kept(w, events[..n + 1])
  {
    forall k | 0 <= k < |v.issued|
      ensures Done(events[..n + 1], k) <==> Done(events[..n], k)
    {
      NextDone(events, n, k);
    }
  }

  lemma KeptIssued(v: View, w: View, events: seq<Event>, n: nat, r: RequestInfo)
    requires n < |events| && Kept(v, events[..n]) && !events[n].Complete? && |v.issued| == |Issued(events[..n])|
    requires r !in v.issued && r !in v.refused
    requires w.pending == [r] + v.pending && w.issued == v.issued + [r] && w.refused == v.refused
    ensures Kept(w, events[..n + 1])
  {
    hide Done, Issued;
    var k := |v.issued|;
    assert !Done(events[..n + 1], k) by {
      NextDone(events, n, k);
      if Done(events[..n], k) {
        DoneIssued(events[..n], k);
      }
    }
    assert w.pending[0] == r;
    forall j | 0 <= j < k
      ensures w.issued[j] in w.pending <==> !Done(events[..n + 1], j)
    {
      NextDone(events, n, j);
      assert w.issued[j] == v.issued[j] != r;
    }
  }

  lemma KeptRefused(v: View, w: View, events: seq<Event>, n: nat, r: RequestInfo)
    requires n < |events| && Kept(v, events[..n]) && !events[n].Complete? && r !in v.issued
    requires w.pending == [r] + v.pending && w.issued == v.issued && w.refused == v.refused + [r]
    ensures Kept(w, events[..n + 1])
  {
    hide Done, Issued;
    assert w.pending[0] == r;
    forall j | 0 <= j < |v.issued|
      ensures w.issued[j] in w.pending <==> !Done(events[..n + 1], j)
    {
      NextDone(events, n, j);
      assert v.issued[j] != r;
    }
  }

  lemma KeptCompleted(v: View, w: View, events: seq<Event>, n: nat)
    requires n < |events| && Kept(v, events[..n]) && |v.issued| == |Issued(events[..n])|
    requires events[n].Complete? && events[n].k < |v.issued|
    requires forall r :: r in w.pending <==> r in v.pending && r != v.issued[events[n].k]
    requires w.issued == v.issued && w.refused == v.refused
    ensures Kept(w, events[..n + 1])
  {
    hide Done, Issued;
    var k := events[n].k;
    forall j | 0 <= j < |v.issued|
      ensures w.issued[j] in w.pending <==> !Done(events[..n + 1], j)
    {
      NextDone(events, n, j);
      assert j != k ==> v.issued[j] != v.issued[k];
    }
  }

  /** An event that neither makes nor completes a request. */
  lemma ToldQuiet(v: View, w: View, events: seq<Event>, n: nat)
    requires n < |events| && Told(v, events[..n])
    requires IssuedBy(v.online, v.connection, events[n]) == [] && RefusedBy(v.online, v.connection, events[n]) == []
    requires events[n].Complete? ==> events[n].k >= |v.issued|
    requires w == v.(online := OnlineAfter(v.online, events[n]),
                     connection := ConnectionAfter(v.online, v.connection, events[n]))
    ensures Told(w, events[..n + 1])
  {
    hide Done, Issued, Refused, Answers, Online, Connection, Kept;
    Next(events, n);
    KeptQuiet(v, w, events, n);
  }

  lemma ToldIssued(v: View, w: View, events: seq<Event>, n: nat, r: RequestInfo)
    requires n < |events| && Told(v, events[..n]) && !events[n].Connect? && !events[n].Close? && !events[n].Complete?
    requires IssuedBy(v.online, v.connection, events[n]) == [IssueOf(r)] && r !in v.issued && r !in v.refused
    requires RefusedBy(v.online, v.connection, events[n]) == []
    requires w == v.(pending := [r] + v.pending, issued := v.issued + [r])
    ensures Told(w, events[..n + 1])
  {
    hide Done, Issued, Refused, Answers, Online, Connection, Kept, IssuedBy, RefusedBy, Made, Written;
    Next(events, n);
    MadeSnoc(v.issued, Issued(events[..n]), r);
    WrittenMore(v.replies, Answers(events[..n]), v.issued, r);
    KeptIssued(v, w, events, n, r);
    assert Refused(events[..n]) + [] == Refused(events[..n]) && Answers(events[..n]) + [] == Answers(events[..n]);
  }

  lemma ToldRefused(v: View, w: View, events: seq<Event>, n: nat, r: RequestInfo)
    requires n < |events| && Told(v, events[..n]) && !events[n].Connect? && !events[n].Close? && !events[n].Complete?
    requires RefusedBy(v.online, v.connection, events[n]) == [IssueOf(r)] && r !in v.issued && r !in v.refused
    requires IssuedBy(v.online, v.connection, events[n]) == []
    requires w == v.(pending := [r] + v.pending, refused := v.refused + [r])
    ensures Told(w, events[..n + 1])
  {
    hide Done, Issued, Refused, Answers, Online, Connection, Kept, IssuedBy, RefusedBy, Made, Written;
    Next(events, n);
    MadeSnoc(v.refused, Refused(events[..n]), r);
    KeptRefused(v, w, events, n, r);
    assert Issued(events[..n]) + [] == Issued(events[..n]) && Answers(events[..n]) + [] == Answers(events[..n]);
  }

  /** The responses after a completion of the request t. */
  ghost function AfterCompletion(v: View, t: RequestInfo, e: Event): seq<Reply>
    requires e.Complete?
  {
    if t in v.pending && !t.local && v.online && t.arrived == v.connection && e.written
    then v.replies + [Reply(t.token, ErrorOf(e.error, e.payload), t, v.connection)] else v.replies
  }

  lemma WrittenCompleted(v: View, events: seq<Event>, n: nat)
    requires n < |events| && Told(v, events[..n]) && events[n].Complete? && events[n].k < |v.issued|
    ensures Written(AfterCompletion(v, v.issued[events[n].k], events[n]), Answers(events[..n + 1]), v.issued)
  {
    hide Done, Issued, Refused, Answers, Online, Connection;
    Next(events, n);
    var k := events[n].k;
    assert IssueOf(v.issued[k]) == Issued(events[..n])[k];
    assert v.issued[k] in v.pending <==> !Done(events[..n], k);
  }

  lemma ToldCompleted(v: View, w: View, events: seq<Event>, n: nat)
    requires n < |events| && Told(v, events[..n]) && events[n].Complete? && events[n].k < |v.issued|
    requires forall r :: r in w.pending <==> r in v.pending && r != v.issued[events[n].k]
    requires w == v.(pending := w.pending, replies := AfterCompletion(v, v.issued[events[n].k], events[n]))
    ensures Told(w, events[..n + 1])
  {
    hide Done, Issued, Refused, Answers, Online, Connection, Kept, AfterCompletion, Written;
    Next(events, n);
    WrittenCompleted(v, events, n);
    KeptCompleted(v, w, events, n);
  }

  // ---------- the handlers ----------

  method HandleRecord(ril: Ril, e: Event, issued: seq<RequestInfo>, refused: seq<RequestInfo>,
                      ghost events: seq<Event>, ghost n: nat)
    returns (now: seq<RequestInfo>, stuck: seq<RequestInfo>)
    requires ril.Valid() && ril.fdCommand >= 0 && e.Record? && n < |events| && events[n] == e
    requires Told(Now(ril, issued, refused), events[..n])
    modifies ril`pendingRequests, ril`pending
    ensures ril.Valid() && Told(Now(ril, now, stuck), events[..n + 1])
    ensures fresh(set r | r in ril.pending && r !in old(ril.pending))
  {
    now, stuck := issued, refused;
    ghost var v := Now(ril, issued, refused);
    var accepted := Accepted(e.words, e.otherwise);
    var r, called := ril.ProcessCommandBuffer(e.words, accepted);
    if r == null {
      ToldQuiet(v, Now(ril, now, stuck), events, n);
    } else if called {
      now := issued + [r];
      ToldIssued(v, Now(ril, now, stuck), events, n, r);
    } else {
      stuck := refused + [r];
      ToldRefused(v, Now(ril, now, stuck), events, n, r);
    }
  }

  method HandleLocal(ril: Ril, e: Event, issued: seq<RequestInfo>, ghost refused: seq<RequestInfo>,
                     ghost events: seq<Event>, ghost n: nat)
    returns (now: seq<RequestInfo>)
    requires ril.Valid() && e.Local? && 0 <= e.request < COMMANDS && n < |events| && events[n] == e
    requires Told(Now(ril, issued, refused), events[..n])
    modifies ril`pendingRequests, ril`pending
    ensures ril.Valid() && Told(Now(ril, now, refused), events[..n + 1])
    ensures fresh(set r | r in ril.pending && r !in old(ril.pending))
  {
    ghost var v := Now(ril, issued, refused);
    var r := ril.IssueLocalRequest(e.request);
    now := issued + [r];
    ToldIssued(v, Now(ril, now, refused), events, n, r);
  }

  method HandleComplete(ril: Ril, e: Event, issued: seq<RequestInfo>, ghost refused: seq<RequestInfo>,
                        ghost events: seq<Event>, ghost n: nat)
    requires ril.Valid() && e.Complete? && e.k < |issued| && n < |events| && events[n] == e
    requires Told(Now(ril, issued, refused), events[..n])
    modifies ril, ril.pending
    ensures ril.Valid() && Told(Now(ril, issued, refused), events[..n + 1])
    ensures forall r :: r in ril.pending ==> r in old(ril.pending)
  {
    ghost var v := Now(ril, issued, refused);
    var t := issued[e.k];
    ril.OnRequestComplete(t, e.error, e.payload, e.written);
    PendingAfter(v.pending, ril.pending, t);
    ToldCompleted(v, Now(ril, issued, refused), events, n);
  }

  lemma PendingAfter(was: seq<RequestInfo>, now: seq<RequestInfo>, t: RequestInfo)
    requires Once(was) && (t !in was ==> now == was)
    requires t in was ==> exists at :: 0 <= at < |was| && was[at] == t && now == Without(was, at)
    ensures forall r :: r in now <==> r in was && r != t
  {
    if t in was {
      var at :| 0 <= at < |was| && was[at] == t && now == Without(was, at);
      forall r | r in was && r != t
        ensures r in now
      {
        WithoutKeeps(was, at, r);
      }
      forall i | 0 <= i < |now|
        ensures now[i] in was && now[i] != t
      {
        WithoutAt(was, at, i);
      }
    }
  }

  /** One event; those that cannot happen in the present state do nothing. */
  method Handle(ril: Ril, e: Event, issued: seq<RequestInfo>, refused: seq<RequestInfo>,
                ghost events: seq<Event>, ghost n: nat)
    returns (now: seq<RequestInfo>, stuck: seq<RequestInfo>)
    requires ril.Valid() && n < |events| && events[n] == e && Told(Now(ril, issued, refused), events[..n])
    modifies ril, ril.pending
    ensures ril.Valid() && Told(Now(ril, now, stuck), events[..n + 1])
    ensures fresh(set r | r in ril.pending && r !in old(ril.pending))
  {
    now, stuck := issued, refused;
    ghost var v := Now(ril, issued, refused);
    if e.Connect? && ril.fdCommand < 0 && e.fd >= 0 {
      ril.Connected(e.fd);
    } else if e.Record? && ril.fdCommand >= 0 {
      now, stuck := HandleRecord(ril, e, issued, refused, events, n);
      return;
    } else if e.Local? && 0 <= e.request < COMMANDS {
      now := HandleLocal(ril, e, issued, refused, events, n);
      return;
    } else if e.Complete? && e.k < |issued| {
      HandleComplete(ril, e, issued, refused, events, n);
      return;
    } else if e.Close? && ril.fdCommand >= 0 {
      ril.CommandsSocketClosed();
    }
    ToldQuiet(v, Now(ril, now, stuck), events, n);
  }

  lemma ToldStart(v: View)
    requires v == View(false, 0, [], [], [], [])
    ensures Told(v, [])
  {
  }

  method RunAll(events: seq<Event>) returns (ril: Ril, issued: seq<RequestInfo>, refused: seq<RequestInfo>)
    ensures ril.Valid() && Told(Now(ril, issued, refused), events)
  {
    hide Told;
    ril := new Ril();
    issued, refused := [], [];
    assert events[..0] == [];
    ToldStart(Now(ril, issued, refused));
    for n := 0 to |events|
      invariant fresh(ril) && ril.Valid() && fresh(ril.pending)
      invariant Told(Now(ril, issued, refused), events[..n])
    {
      ghost var was := ril.pending;
      issued, refused := Handle(ril, events[n], issued, refused, events, n);
      assert forall r :: r in ril.pending ==> r in was || fresh(r);
    }
    assert events[..|events|] == events;
  }

  /** After any run, the responses are those of the completions of open requests, in order, each on
      the connection its request came in on while that is the present one; the vendor's code has been
      called once for each accepted record and local request; and the list holds the requests issued
      and not completed, and for ever those whose record the dispatch function refused. */
  method Session(events: seq<Event>) returns (ril: Ril, issued: seq<RequestInfo>, refused: seq<RequestInfo>)
    ensures ril.Valid()
    ensures (ril.fdCommand >= 0 <==> Online(events)) && ril.connection == Connection(events)
    ensures Made(issued, Issued(events)) && Made(refused, Refused(events)) && Once(issued)
    ensures Written(ril.replies, Answers(events), issued)
    ensures forall i, j :: 0 <= i < j < |ril.replies| ==> ril.replies[i].of != ril.replies[j].of
    ensures forall i :: 0 <= i < |ril.replies| ==>
              var r := ril.replies[i];
              r.token == r.of.token && r.connection == r.of.arrived && !r.of.local && r.of !in ril.pending
    ensures forall k :: 0 <= k < |issued| ==> (issued[k] in ril.pending <==> !Done(events, k))
    ensures forall r :: r in refused ==> r in ril.pending && r !in issued
    ensures forall r :: r in ril.pending ==> r in issued || r in refused
  {
    ril, issued, refused := RunAll(events);
  }
}
