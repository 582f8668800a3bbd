/** The requests the radio interface has handed to the vendor's code and not yet completed. Every
    request object is new, and a completion is one step. */
module RilRequests {
  import opened Common

  /** The command table holds the codes below this one. */
  const COMMANDS := 104

  class RequestInfo {
    const token: int
    const request: int
    const local: bool
    var cancelled: bool
    var next: RequestInfo?
    /** The connection it was read from. */
    ghost const arrived: nat

    constructor (token: int, request: int, local: bool, next: RequestInfo?, ghost connection: nat)
      ensures this.token == token && this.request == request && this.local == local && this.next == next
      ensures !cancelled && arrived == connection
    {
      this.token, this.request, this.local, this.next := token, request, local, next;
      cancelled, arrived := false, connection;
    }
  }

  /** The error code in a response: that of marshalling it, if there is one. */
  function ErrorOf(e: int, payload: Option<int>): int {
    if payload.Some? && payload.value != 0 then payload.value else e
  }

  /** A response that was written: the error it carries, and for which request on which connection. */
  datatype Reply = Reply(token: int, error: int, of: RequestInfo, connection: nat)

  function At(s: seq<RequestInfo>, i: nat): RequestInfo? {
    if i < |s| then s[i] else null
  }

  ghost predicate Linked(head: RequestInfo?, s: seq<RequestInfo>)
    reads s
  {
    && head == At(s, 0)
    && (forall i {:trigger s[i].next} :: 0 <= i < |s| ==> s[i].next == At(s, i + 1))
    && (forall i, j :: 0 <= i < j < |s| ==> s[i] != s[j])
  }

  function Without<T>(s: seq<T>, at: nat): seq<T>
    requires at < |s|
  {
    s[..at] + s[at + 1..]
  }

  lemma WithoutAt<T>(s: seq<T>, at: nat, i: nat)
    requires at < |s| && i < |s| - 1
    ensures Without(s, at)[i] == s[if i < at then i else i + 1]
  {
  }

  /** Everything but the element itself is still there. */
  lemma WithoutKeeps<T>(s: seq<T>, at: nat, x: T)
    requires at < |s| && x in s && x != s[at]
    ensures x in Without(s, at)
  {
    var k :| 0 <= k < |s| && s[k] == x;
    WithoutAt(s, at, if k < at then k else k - 1);
  }

  lemma SplicedNext(s: seq<RequestInfo>, at: nat, i: nat)
    requires at < |s| && i < |s| - 1
    requires forall i {:trigger s[i].next} :: 0 <= i < |s| ==> s[i].next == At(s, if i + 1 == at then at + 1 else i + 1)
    ensures Without(s, at)[i].next == At(Without(s, at), i + 1)
  {
    WithoutAt(s, at, i);
    var k := if i < at then i else i + 1;
    assert s[k].next == At(s, if k + 1 == at then at + 1 else k + 1);
    if i + 1 < |s| - 1 {
      WithoutAt(s, at, i + 1);
    }
  }

  lemma SplicedDistinct<T>(s: seq<T>, at: nat, i: nat, j: nat)
    requires at < |s| && i < j < |s| - 1 && forall i, j :: 0 <= i < j < |s| ==> s[i] != s[j]
    ensures Without(s, at)[i] != Without(s, at)[j]
  {
    WithoutAt(s, at, i);
    WithoutAt(s, at, j);
  }

  /** The list without one element, once the link before it leads past it. */
  lemma {:induction false} Spliced(head: RequestInfo?, s: seq<RequestInfo>, at: nat)
    requires at < |s| && forall i, j :: 0 <= i < j < |s| ==> s[i] != s[j]
    requires forall i {:trigger s[i].next} :: 0 <= i < |s| ==> s[i].next == At(s, if i + 1 == at then at + 1 else i + 1)
    requires head == At(s, if at == 0 then 1 else 0)
    ensures Linked(head, Without(s, at))
  {
    var t := Without(s, at);
    if |t| > 0 {
      WithoutAt(s, at, 0);
    }
    forall i | 0 <= i < |t|
      ensures t[i].next == At(t, i + 1)
    {
      SplicedNext(s, at, i);
    }
    forall i, j | 0 <= i < j < |t|
      ensures t[i] != t[j]
    {
      SplicedDistinct(s, at, i, j);
    }
  }

  /** What is known of a written response. */
  ghost predicate Proper(r: Reply) {
    r.token == r.of.token && !r.of.local && r.connection == r.of.arrived
  }

  class Ril {
    var pendingRequests: RequestInfo?
    /** The list the links make. */
    ghost var pending: seq<RequestInfo>
    var fdCommand: int
    /** The connections so far. */
    ghost var connection: nat
    ghost var replies: seq<Reply>

    constructor ()
      ensures Valid() && pending == [] && replies == [] && fdCommand == -1 && connection == 0
    {
      pendingRequests, pending, fdCommand, connection, replies := null, [], -1, 0, [];
    }

    /** A pending request is cancelled exactly when the connection it came in on is over, and no
        request has been answered twice, with another token or on another connection. */
    ghost predicate Valid()
      reads this, pending
    {
      && Linked(pendingRequests, pending)
      && (forall i :: 0 <= i < |pending| ==> pending[i].arrived <= connection)
      && (forall i :: 0 <= i < |pending| && !pending[i].local ==>
            (pending[i].cancelled <==> !(fdCommand >= 0 && pending[i].arrived == connection)))
      && (forall i :: 0 <= i < |replies| ==> Proper(replies[i]) && replies[i].of !in pending)
      && (forall i, j :: 0 <= i < j < |replies| ==> replies[i].of != replies[j].of)
    }

    /** A connection of the phone process is accepted. */
    method Connected(fd: int)
      requires Valid() && fdCommand < 0 && fd >= 0
      modifies `fdCommand, `connection
      ensures Valid() && fdCommand == fd && connection == old(connection) + 1
      ensures forall i :: 0 <= i < |pending| ==> pending[i].cancelled || pending[i].local
    {
      fdCommand, connection := fd, connection + 1;
    }

    /** `words` are the words of the record that can be read; `accepted` says that the dispatch
        function finds the rest of it well formed, and only then calls the vendor's code. A request
        that is not issued is in the list all the same. */
    method ProcessCommandBuffer(words: seq<int>, accepted: bool) returns (r: RequestInfo?, issued: bool)
      requires Valid() && fdCommand >= 0
      modifies `pendingRequests, `pending
      ensures Valid()
      ensures r == null <==> |words| < 2 || words[0] < 1 || words[0] >= COMMANDS
      ensures r == null ==> pending == old(pending)
      ensures r != null ==>
                && fresh(r) && pending == [r] + old(pending)
                && r.request == words[0] && r.token == words[1]
                && !r.local && !r.cancelled && r.arrived == connection
      ensures issued <==> r != null && accepted
    {
      if |words| < 2 {
        return null, false;
      }
      if words[0] < 1 || words[0] >= COMMANDS {
        return null, false;
      }
      r := Push(words[1], words[0], false);
      issued := accepted;
    }

    method IssueLocalRequest(request: int) returns (issued: RequestInfo)
      requires Valid() && 0 <= request < COMMANDS
      modifies `pendingRequests, `pending
      ensures Valid() && fresh(issued) && pending == [issued] + old(pending)
      ensures issued.local && issued.request == request && issued.token == 0xffff_ffff && issued.arrived == connection
    {
      issued := Push(0xffff_ffff, request, true);
    }

    method Push(token: int, request: int, local: bool) returns (r: RequestInfo)
      requires Valid() && (local || fdCommand >= 0)
      modifies `pendingRequests, `pending
      ensures Valid() && fresh(r) && pending == [r] + old(pending)
      ensures r.token == token && r.request == request && r.local == local
      ensures !r.cancelled && r.arrived == connection
    {
      r := new RequestInfo(token, request, local, pendingRequests, connection);
      ghost var was := pending;
      pending := [r] + was;
      pendingRequests := r;
      forall i | 0 <= i < |pending|
        ensures pending[i].next == At(pending, i + 1)
      {
        assert i > 0 ==> pending[i] == was[i - 1];
        assert i + 1 < |pending| ==> pending[i + 1] == was[i];
      }
    }

    ghost predicate Prefix(n: nat, cur: RequestInfo?)
      reads this, pending
    {
      && Valid() && n <= |pending|
      && cur == At(pending, n)
    }

    /** Takes exactly this request out of the list, if it is there, and keeps the order of the rest. */
    method CheckAndDequeue(request: RequestInfo?) returns (found: bool, ghost at: nat)
      requires Valid()
      modifies this, pending
      ensures Linked(pendingRequests, pending) && found == (request != null && request in old(pending))
      ensures !found ==> pending == old(pending)
      ensures found ==> at < |old(pending)| && old(pending)[at] == request
                        && pending == Without(old(pending), at)
      ensures fdCommand == old(fdCommand) && connection == old(connection) && replies == old(replies)
      ensures forall r :: r in old(pending) ==> r.cancelled == old(r.cancelled)
    {
      found, at := false, 0;
      if request == null {
        return;
      }
      var prev: RequestInfo? := null;
      var cur := pendingRequests;
      while cur != null && cur != request
        invariant Prefix(at, cur) && prev == (if at == 0 then null else pending[at - 1])
        invariant request !in pending[..at]
        invariant pending == old(pending) && fdCommand == old(fdCommand) && connection == old(connection)
        invariant replies == old(replies)
        invariant forall r :: r in old(pending) ==> r.cancelled == old(r.cancelled)
        decreases |pending| - at
      {
        assert pending[..at + 1] == pending[..at] + [pending[at]];
        prev, cur, at := cur, cur.next, at + 1;
      }
      assert pending[..|pending|] == pending;
      if cur != null {
        found := true;
        Unlink(at, prev, cur);
      }
    }

    method Unlink(ghost at: nat, prev: RequestInfo?, cur: RequestInfo)
      requires Valid() && at < |pending| && cur == pending[at]
      requires prev == (if at == 0 then null else pending[at - 1])
      modifies `pendingRequests, `pending, if prev == null then {} else {prev}
      ensures pending == Without(old(pending), at)
      ensures Linked(pendingRequests, pending)
      ensures prev != null ==> prev.cancelled == old(prev.cancelled)
    {
      assert pending[at].next == At(pending, at + 1);
      if prev == null {
        pendingRequests := cur.next;
      } else {
        prev.next := cur.next;
      }
      Spliced(pendingRequests, pending, at);
      pending := Without(pending, at);
    }

    /** The vendor's code completes a request; the token may be any pointer it has ever been given.
        `payload` is what the response function returns when there is a response to marshal; `written` says that
        it is not too large and the socket takes it. */
    method OnRequestComplete(t: RequestInfo?, e: int, payload: Option<int>, written: bool)
      requires Valid()
      modifies this, pending
      ensures Valid() && fdCommand == old(fdCommand) && connection == old(connection)
      ensures t == null || t !in old(pending) ==> pending == old(pending) && replies == old(replies)
      ensures forall r :: r in pending ==> r in old(pending)
      ensures t != null && t in old(pending) ==>
                && (exists at :: 0 <= at < |old(pending)| && old(pending)[at] == t
                                 && pending == Without(old(pending), at))
                && replies == (if t.local || old(t.cancelled) || !written then old(replies)
                               else old(replies) + [Reply(t.token, ErrorOf(e, payload), t, connection)])
      ensures |replies| > |old(replies)| ==>
                replies[|old(replies)|].error == if payload == None || payload == Some(0) then e else payload.value
    {
      var found;
      ghost var at;
      found, at := CheckAndDequeue(t);
      if !found {
        return;
      }
      if t.local {
        return;
      }
      if !t.cancelled && written {
        replies := replies + [Reply(t.token, ErrorOf(e, payload), t, connection)];
      }
    }

    /** Marks every request of the list. */
    method CancelAll()
      requires Linked(pendingRequests, pending)
      modifies pending
      ensures Linked(pendingRequests, pending)
      ensures forall i :: 0 <= i < |pending| ==> pending[i].cancelled
    {
      var cur := pendingRequests;
      ghost var n := 0;
      while cur != null
        invariant n <= |pending| && cur == At(pending, n) && Linked(pendingRequests, pending)
        invariant forall i :: 0 <= i < n ==> pending[i].cancelled
        decreases |pending| - n
      {
        cur.cancelled := true;
        cur, n := cur.next, n + 1;
      }
    }

    /** The end of the command socket's stream, or a fatal error on it. */
    method CommandsSocketClosed()
      requires Valid()
      modifies `fdCommand, pending
      ensures Valid() && fdCommand == -1
      ensures forall i :: 0 <= i < |pending| ==> pending[i].cancelled
    {
      fdCommand := -1;
      CancelAll();
    }
  }
}
