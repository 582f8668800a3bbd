/** The line reader of the AT channel: it cuts the modem's byte stream into lines inside one
    fixed buffer, whatever pieces read() happens to deliver the stream in. */
module AtReader {
  import opened Common

  const MAX_AT_RESPONSE: nat := 8 * 1024

  predicate IsEol(c: char) {
    c == '\r' || c == '\n'
  }

  // ---------- the stream as read() delivers it ----------

  /** What is still to be delivered. Each element answers one or more calls of read();
      an empty one, or running out, is end of file or a read error. */
  type Chunks = seq<string>

  predicate AtEnd(chunks: Chunks) {
    chunks == [] || chunks[0] == ""
  }

  /** The text that arrives before the end, however it is cut. */
  function Avail(chunks: Chunks): string {
    if AtEnd(chunks) then "" else chunks[0] + Avail(chunks[1..])
  }

  /** `n` characters have been delivered. */
  function Consume(chunks: Chunks, n: nat): Chunks
    requires !AtEnd(chunks) && n <= |chunks[0]|
  {
    if n == |chunks[0]| then chunks[1..] else [chunks[0][n..]] + chunks[1..]
  }

  lemma {:induction false} ConsumeAvail(chunks: Chunks, n: nat)
    requires !AtEnd(chunks) && n <= |chunks[0]|
    ensures Avail(chunks) == chunks[0][..n] + Avail(Consume(chunks, n))
  {
    var a, b, more := chunks[0][..n], chunks[0][n..], Avail(chunks[1..]);
    assert a + b == chunks[0] && a + (b + more) == (a + b) + more;
    if n < |chunks[0]| {
      assert Consume(chunks, n)[1..] == chunks[1..];
      assert Avail(Consume(chunks, n)) == b + more;
    } else {
      assert a == chunks[0];
    }
  }

  // ---------- the buffer ----------

  /** The buffer contents and the cursor into them. The buffer has MAX_AT_RESPONSE + 1 bytes; the
      one byte behind it is modelled as NUL. CursorLeavesArray says when the cursor reaches it. */
  datatype Buffer = Buffer(mem: string, cur: nat) {
    predicate Valid() {
      |mem| == MAX_AT_RESPONSE + 2 && cur <= MAX_AT_RESPONSE + 1
      && mem[MAX_AT_RESPONSE] == NUL && mem[MAX_AT_RESPONSE + 1] == NUL
    }

    /** The received text not yet handed out: from the cursor to the next NUL. */
    function Pending(): string
      requires Valid()
    {
      mem[cur..TextEnd(mem, cur)]
    }
  }

  predicate Backed(mem: string) {
    |mem| == MAX_AT_RESPONSE + 2 && mem[MAX_AT_RESPONSE] == NUL && mem[MAX_AT_RESPONSE + 1] == NUL
  }

  function TextEnd(mem: string, i: nat): (e: nat)
    requires Backed(mem) && i <= MAX_AT_RESPONSE + 1
    ensures i <= e <= MAX_AT_RESPONSE + 1 && mem[e] == NUL
    ensures i <= MAX_AT_RESPONSE ==> e <= MAX_AT_RESPONSE
    decreases |mem| - i
  {
    if mem[i] == NUL then i else TextEnd(mem, i + 1)
  }

  lemma {:induction false} BeforeTextEnd(mem: string, i: nat)
    requires Backed(mem) && i <= MAX_AT_RESPONSE + 1
    ensures forall k :: i <= k < TextEnd(mem, i) ==> mem[k] != NUL
    decreases |mem| - i
  {
    if mem[i] != NUL {
      BeforeTextEnd(mem, i + 1);
    }
  }

  function SkipAt(mem: string, i: nat): (e: nat)
    requires Backed(mem) && i <= MAX_AT_RESPONSE
    ensures i <= e <= MAX_AT_RESPONSE && !IsEol(mem[e])
    decreases |mem| - i
  {
    if IsEol(mem[i]) then SkipAt(mem, i + 1) else i
  }

  function EolAt(mem: string, i: nat): (e: nat)
    requires Backed(mem) && i <= MAX_AT_RESPONSE
    ensures i <= e <= MAX_AT_RESPONSE && (mem[e] == NUL || IsEol(mem[e]))
    decreases |mem| - i
  {
    if mem[i] == NUL || IsEol(mem[i]) then i else EolAt(mem, i + 1)
  }

  lemma {:induction false} TextEndUnique(mem: string, i: nat, e: nat)
    requires Backed(mem) && i <= e <= MAX_AT_RESPONSE && mem[e] == NUL
    requires forall k :: i <= k < e ==> mem[k] != NUL
    ensures TextEnd(mem, i) == e
    decreases e - i
  {
    if i < e {
      TextEndUnique(mem, i + 1, e);
    }
  }

  lemma {:induction false} SkipUnique(mem: string, i: nat, e: nat)
    requires Backed(mem) && i <= e <= MAX_AT_RESPONSE && !IsEol(mem[e])
    requires forall k :: i <= k < e ==> IsEol(mem[k])
    ensures SkipAt(mem, i) == e
    decreases e - i
  {
    if i < e {
      SkipUnique(mem, i + 1, e);
    }
  }

  lemma {:induction false} EolUnique(mem: string, i: nat, e: nat)
    requires Backed(mem) && i <= e <= MAX_AT_RESPONSE && (mem[e] == NUL || IsEol(mem[e]))
    requires forall k :: i <= k < e ==> mem[k] != NUL && !IsEol(mem[k])
    ensures EolAt(mem, i) == e
    decreases e - i
  {
    if i < e {
      EolUnique(mem, i + 1, e);
    }
  }

  predicate PromptAt(mem: string, i: nat)
    requires Backed(mem) && i <= MAX_AT_RESPONSE
  {
    mem[i] == '>' && mem[i + 1] == ' ' && mem[i + 2] == NUL
  }

  /** The end of the next complete line; the SMS prompt needs no line end. */
  function NextEol(mem: string, i: nat): Option<nat>
    requires Backed(mem) && i <= MAX_AT_RESPONSE
  {
    if PromptAt(mem, i) then Some(i + 2)
    else var e := EolAt(mem, i); if mem[e] == NUL then None else Some(e)
  }

  datatype Outcome =
    | Line(text: string, buffer: Buffer, chunks: Chunks)
    | Closed(chunks: Chunks)

  function Hand(mem: string, c: nat, e: nat, chunks: Chunks): Outcome
    requires Backed(mem) && c <= e <= MAX_AT_RESPONSE
  {
    Line(mem[c..e], Buffer(mem[e := NUL], e + 1), chunks)
  }

  function Poke(mem: string, p: nat, data: string): (r: string)
    requires Backed(mem) && p + |data| <= MAX_AT_RESPONSE
    ensures Backed(r)
  {
    mem[..p] + data + [NUL] + mem[p + |data| + 1..]
  }

  /** How much the next read() may deliver into a buffer filled up to `p`. */
  function Take(p: nat, chunks: Chunks): (n: nat)
    requires p < MAX_AT_RESPONSE && !AtEnd(chunks)
    ensures 0 < n <= |chunks[0]| && p + n <= MAX_AT_RESPONSE
  {
    Min(|chunks[0]|, MAX_AT_RESPONSE - p)
  }

  function Received(mem: string, p: nat, chunks: Chunks): (r: string)
    requires Backed(mem) && p < MAX_AT_RESPONSE && !AtEnd(chunks)
    ensures Backed(r)
  {
    Poke(mem, p, chunks[0][..Take(p, chunks)])
  }

  /** Reading on from position `p` until a line is complete. */
  function Scan(mem: string, cur: nat, p: nat, chunks: Chunks): (r: Outcome)
    requires Backed(mem) && cur <= MAX_AT_RESPONSE && p <= MAX_AT_RESPONSE
    ensures r.Line? ==> r.buffer.Valid() && |Avail(r.chunks)| < |Avail(chunks)|
    decreases |Avail(chunks)|, p
  {
    if p == MAX_AT_RESPONSE then Scan(mem[0 := NUL], 0, 0, chunks)
    else if AtEnd(chunks) then Closed(chunks)
    else
      ConsumeAvail(chunks, Take(p, chunks));
      var m1 := Received(mem, p, chunks);
      var c1 := SkipAt(m1, cur);
      var rest := Consume(chunks, Take(p, chunks));
      match NextEol(m1, c1)
      case Some(e) => Hand(m1, c1, e, rest)
      case None => Scan(m1, c1, p + Take(p, chunks), rest)
  }

  function MoveUp(mem: string, c: nat): string
    requires Backed(mem) && c <= MAX_AT_RESPONSE
  {
    var len := TextEnd(mem, c) - c;
    mem[c..c + len + 1] + mem[len + 1..]
  }

  lemma MoveUpIs(mem: string, c: nat, len: nat, now: string)
    requires Backed(mem) && c <= MAX_AT_RESPONSE && c + len == TextEnd(mem, c) && |now| == |mem|
    requires forall k :: 0 <= k <= len ==> now[k] == mem[c + k]
    requires forall k :: len < k < |mem| ==> now[k] == mem[k]
    ensures now == MoveUp(mem, c)
  {
  }

  /** The buffer as readline has prepared it for its loop: an empty one is reset, a partial line is
      moved up. */
  datatype Start = Start(mem: string, cur: nat, p: nat, eol: Option<nat>)

  function Opening(b: Buffer): (o: Start)
    requires b.Valid()
    ensures Backed(o.mem) && o.cur <= MAX_AT_RESPONSE && o.p <= MAX_AT_RESPONSE
    ensures o.eol != None ==> b.cur <= o.cur <= o.eol.value <= MAX_AT_RESPONSE
  {
    if b.mem[b.cur] == NUL then Start(b.mem[0 := NUL], 0, 0, None)
    else
      var c := SkipAt(b.mem, b.cur);
      var eol := NextEol(b.mem, c);
      if eol != None then Start(b.mem, c, 0, eol)
      else Start(MoveUp(b.mem, c), 0, TextEnd(b.mem, c) - c, None)
  }

  /** One call of readline. */
  function ReadStep(b: Buffer, chunks: Chunks): (r: Outcome)
    requires b.Valid()
    ensures r.Line? ==> r.buffer.Valid()
    ensures r.Line? ==> |Avail(r.chunks)| < |Avail(chunks)| || (r.chunks == chunks && r.buffer.cur > b.cur)
  {
    var o := Opening(b);
    match o.eol
    case Some(e) => Hand(o.mem, o.cur, e, chunks)
    case None => Scan(o.mem, o.cur, o.p, chunks)
  }

  /** Every line readline hands out until the stream ends. */
  function Drain(b: Buffer, chunks: Chunks): seq<string>
    requires b.Valid()
    decreases |Avail(chunks)|, MAX_AT_RESPONSE + 2 - b.cur
  {
    match ReadStep(b, chunks)
    case Closed(_) => []
    case Line(text, b', chunks') => [text] + Drain(b', chunks')
  }

  lemma DrainStep(b: Buffer, chunks: Chunks)
    requires b.Valid()
    ensures Drain(b, chunks) == match ReadStep(b, chunks)
              case Closed(_) => []
              case Line(text, b', chunks') => [text] + Drain(b', chunks')
  {
  }

  // ---------- the meaning, without buffer or chunks ----------

  function Lead(t: string): (n: nat)
    ensures n <= |t| && (n < |t| ==> !IsEol(t[n]))
  {
    if t != "" && IsEol(t[0]) then 1 + Lead(t[1..]) else 0
  }

  lemma {:induction false} BeforeLead(t: string)
    ensures forall k :: 0 <= k < Lead(t) ==> IsEol(t[k])
  {
    if t != "" && IsEol(t[0]) {
      BeforeLead(t[1..]);
      assert forall k :: 1 <= k < Lead(t) ==> t[k] == t[1..][k - 1];
    }
  }

  function RunEnd(t: string, i: nat): (e: nat)
    requires i <= |t|
    ensures i <= e <= |t| && (e < |t| ==> IsEol(t[e]))
    decreases |t| - i
  {
    if i < |t| && !IsEol(t[i]) then RunEnd(t, i + 1) else i
  }

  lemma {:induction false} BeforeRunEnd(t: string, i: nat)
    requires i <= |t|
    ensures forall k :: i <= k < RunEnd(t, i) ==> !IsEol(t[k])
    decreases |t| - i
  {
    if i < |t| && !IsEol(t[i]) {
      BeforeRunEnd(t, i + 1);
    }
  }

  lemma {:induction false} LeadUnique(t: string, n: nat)
    requires n <= |t| && (n < |t| ==> !IsEol(t[n]))
    requires forall k :: 0 <= k < n ==> IsEol(t[k])
    ensures Lead(t) == n
  {
    if n > 0 {
      LeadUnique(t[1..], n - 1);
    }
  }

  datatype Next = Got(line: string, rest: string) | Nothing

  /** The first line of a text. A stretch of MAX_AT_RESPONSE characters in which no line
      is completed overflows the buffer and is thrown away. */
  function NextLine(t: string): Next
    decreases |t|
  {
    var e := RunEnd(t, Lead(t));
    if e < |t| && e < MAX_AT_RESPONSE then Got(t[Lead(t)..e], t[e + 1..])
    else if |t| >= MAX_AT_RESPONSE then NextLine(t[MAX_AT_RESPONSE..])
    else Nothing
  }

  /** No line that NextLine considers begins with the SMS prompt. */
  predicate Promptless(t: string)
    decreases |t|
  {
    var e := RunEnd(t, Lead(t));
    && !("> " <= t[Lead(t)..])
    && (!(e < |t| && e < MAX_AT_RESPONSE) && |t| >= MAX_AT_RESPONSE ==> Promptless(t[MAX_AT_RESPONSE..]))
  }

  predicate NulFree(t: string) {
    NUL !in t
  }

  /** `mem` holds the text `t` at its start. */
  ghost predicate Carries(mem: string, t: string) {
    Backed(mem) && |t| <= MAX_AT_RESPONSE && NulFree(t) && mem[..|t|] == t && mem[|t|] == NUL
  }

  ghost predicate NoLineIn(t: string) {
    RunEnd(t, Lead(t)) == |t|
  }

  lemma LeadOfPrefix(s: string, t: string)
    requires s <= t
    ensures Lead(s) < |s| ==> Lead(t) == Lead(s)
    ensures Lead(s) <= Lead(t)
  {
    assert forall k :: 0 <= k < |s| ==> s[k] == t[k];
    BeforeLead(s);
    if Lead(s) < |s| {
      LeadUnique(t, Lead(s));
    } else {
      LeadAtLeast(t, |s|);
    }
  }

  lemma {:induction false} LeadAtLeast(t: string, n: nat)
    requires n <= |t| && forall k :: 0 <= k < n ==> IsEol(t[k])
    ensures Lead(t) >= n
  {
    if n > 0 {
      LeadAtLeast(t[1..], n - 1);
    }
  }

  lemma {:induction false} RunEndOfPrefix(s: string, t: string, i: nat)
    requires s <= t && i <= |s|
    ensures RunEnd(s, i) < |s| ==> RunEnd(t, i) == RunEnd(s, i)
    ensures RunEnd(s, i) == |s| ==> RunEnd(t, i) >= |s|
    decreases |s| - i
  {
    if i < |s| {
      assert s[i] == t[i];
      RunEndOfPrefix(s, t, i + 1);
    }
  }

  lemma RunOfPrefix(s: string, t: string)
    requires s <= t
    ensures RunEnd(s, Lead(s)) < |s| ==> Lead(t) == Lead(s) && RunEnd(t, Lead(t)) == RunEnd(s, Lead(s))
    ensures RunEnd(s, Lead(s)) == |s| ==> RunEnd(t, Lead(t)) >= |s|
  {
    LeadOfPrefix(s, t);
    RunEndOfPrefix(s, t, Lead(s));
  }

  /** In a buffer carrying `t`, readline's search finds the line of `t`. */
  lemma {:induction false} SearchMeaning(mem: string, cur: nat, t: string)
    requires Carries(mem, t) && cur <= Lead(t) && t[Lead(t)..] != "> "
    ensures SkipAt(mem, cur) == Lead(t)
    ensures NextEol(mem, Lead(t)) == if NoLineIn(t) then None else Some(RunEnd(t, Lead(t)))
  {
    assert forall k :: 0 <= k < |t| ==> mem[k] == mem[..|t|][k];
    var c := Lead(t);
    BeforeLead(t);
    SkipUnique(mem, cur, c);
    var s := t[c..];
    assert |s| == 2 && s[0] == '>' && s[1] == ' ' ==> s == "> ";
    BeforeRunEnd(t, c);
    EolUnique(mem, c, RunEnd(t, c));
  }

  lemma SliceOfPrefix(s: string, n: nat, i: nat, j: nat)
    requires i <= j <= n <= |s|
    ensures s[i..j] == s[..n][i..j]
  {
  }

  /** Handing out a line leaves the text behind its terminator unread. */
  lemma {:induction false} HandPending(mem: string, c: nat, e: nat, end: nat, rest: Chunks)
    requires Backed(mem) && c <= e < end <= MAX_AT_RESPONSE && mem[end] == NUL
    requires forall k :: e < k < end ==> mem[k] != NUL
    ensures var r := Hand(mem, c, e, rest);
            r.buffer.Valid() && r.text == mem[c..e] && r.buffer.Pending() == mem[e + 1..end]
  {
    var m := mem[e := NUL];
    TextEndUnique(m, e + 1, end);
    assert m[e + 1..end] == mem[e + 1..end];
  }

  lemma {:induction false} HandMeaning(mem: string, t: string, rest: Chunks)
    requires Carries(mem, t) && !NoLineIn(t)
    ensures var e := RunEnd(t, Lead(t)); var r := Hand(mem, Lead(t), e, rest);
            r.buffer.Valid() && r.text == t[Lead(t)..e] && r.buffer.Pending() == t[e + 1..]
  {
    var c, e := Lead(t), RunEnd(t, Lead(t));
    assert forall k :: 0 <= k < |t| ==> mem[k] == mem[..|t|][k];
    HandPending(mem, c, e, |t|, rest);
    SliceOfPrefix(mem, |t|, c, e);
    SliceOfPrefix(mem, |t|, e + 1, |t|);
  }

  ghost predicate Delivers(r: Outcome, n: Next)
    requires r.Line? ==> r.buffer.Valid()
  {
    match n
    case Nothing => r.Closed?
    case Got(line, rest) => r.Line? && r.text == line && r.buffer.Pending() + Avail(r.chunks) == rest
  }

  /** One delivery by read(): the buffer goes on carrying the text received so far. */
  lemma {:induction false} PokeCarries(mem: string, t: string, data: string)
    requires Carries(mem, t) && NulFree(data) && |t| + |data| <= MAX_AT_RESPONSE
    ensures Carries(Poke(mem, |t|, data), t + data)
  {
    var m := Poke(mem, |t|, data);
    assert m[..|t| + |data|] == t + data;
  }

  lemma AvailNulFree(chunks: Chunks, n: nat)
    requires NulFree(Avail(chunks)) && !AtEnd(chunks) && n <= |chunks[0]|
    ensures NulFree(chunks[0][..n]) && NulFree(Avail(Consume(chunks, n)))
  {
    ConsumeAvail(chunks, n);
    assert forall c :: c in chunks[0][..n] ==> c in Avail(chunks);
    assert forall c :: c in Avail(Consume(chunks, n)) ==> c in Avail(chunks);
  }

  /** A complete line among the first characters is the line of the whole text. */
  lemma {:induction false} NextOfPrefix(t: string, more: string)
    requires !NoLineIn(t) && |t| <= MAX_AT_RESPONSE
    ensures var e := RunEnd(t, Lead(t)); NextLine(t + more) == Got(t[Lead(t)..e], t[e + 1..] + more)
  {
    var all := t + more;
    RunOfPrefix(t, all);
    var e := RunEnd(t, Lead(t));
    assert all[Lead(t)..e] == t[Lead(t)..e];
    assert all[e + 1..] == t[e + 1..] + more;
  }

  lemma OverflowMeaning(t: string, more: string)
    requires |t| == MAX_AT_RESPONSE && NoLineIn(t) && Promptless(t + more)
    ensures NextLine(t + more) == NextLine(more) && Promptless(more)
  {
    RunOfPrefix(t, t + more);
    assert (t + more)[MAX_AT_RESPONSE..] == more;
  }

  lemma LeadGrows(t: string, data: string)
    ensures Lead(t) <= Lead(t + data)
  {
    LeadOfPrefix(t, t + data);
  }

  lemma PromptSeen(s: string, t: string)
    requires s <= t && !("> " <= t[Lead(t)..])
    ensures s[Lead(s)..] != "> "
  {
    LeadOfPrefix(s, t);
    assert Lead(s) < |s| ==> t[Lead(s)..][..|s| - Lead(s)] == s[Lead(s)..];
  }

  /** One delivery moves a piece of the stream behind the text in the buffer. */
  lemma DeliverText(t: string, chunks: Chunks, all: string)
    returns (data: string, t1: string, rest: Chunks)
    requires |t| < MAX_AT_RESPONSE && !AtEnd(chunks)
    requires all == t + Avail(chunks) && NulFree(Avail(chunks)) && !("> " <= all[Lead(all)..])
    ensures data == chunks[0][..Take(|t|, chunks)] && rest == Consume(chunks, Take(|t|, chunks))
    ensures t1 == t + data && |t1| <= MAX_AT_RESPONSE && all == t1 + Avail(rest)
    ensures NulFree(data) && NulFree(Avail(rest)) && |Avail(rest)| < |Avail(chunks)|
    ensures Lead(t) <= Lead(t1) && t1[Lead(t1)..] != "> "
  {
    var take := Take(|t|, chunks);
    data, rest := chunks[0][..take], Consume(chunks, take);
    t1 := t + data;
    ConsumeAvail(chunks, take);
    AvailNulFree(chunks, take);
    LeadGrows(t, data);
    PromptSeen(t1, all);
  }

  /** Scan's step, written out. */
  lemma {:induction false} ScanUnfold(mem: string, cur: nat, p: nat, chunks: Chunks)
    returns (m1: string, rest: Chunks)
    requires Backed(mem) && cur <= MAX_AT_RESPONSE && p < MAX_AT_RESPONSE && !AtEnd(chunks)
    ensures m1 == Poke(mem, p, chunks[0][..Take(p, chunks)]) && Backed(m1)
    ensures rest == Consume(chunks, Take(p, chunks))
    ensures Scan(mem, cur, p, chunks) == Found(m1, SkipAt(m1, cur), p + Take(p, chunks), rest)
  {
    m1, rest := Received(mem, p, chunks), Consume(chunks, Take(p, chunks));
  }

  function Found(mem: string, c: nat, p: nat, rest: Chunks): Outcome
    requires Backed(mem) && c <= MAX_AT_RESPONSE && p <= MAX_AT_RESPONSE
  {
    match NextEol(mem, c)
    case Some(e) => Hand(mem, c, e, rest)
    case None => Scan(mem, c, p, rest)
  }

  lemma {:induction false} FoundMeaning(mem: string, cur: nat, t: string, rest: Chunks)
    requires Carries(mem, t) && cur <= Lead(t) && t[Lead(t)..] != "> "
    ensures Found(mem, SkipAt(mem, cur), |t|, rest) ==
            if NoLineIn(t) then Scan(mem, Lead(t), |t|, rest) else Hand(mem, Lead(t), RunEnd(t, Lead(t)), rest)
  {
    SearchMeaning(mem, cur, t);
  }

  /** What one delivery brings: more of the same text, searched from where the search stood. */
  lemma {:induction false} Deliver(mem: string, cur: nat, t: string, chunks: Chunks, all: string)
    returns (m1: string, t1: string, rest: Chunks)
    requires Carries(mem, t) && |t| < MAX_AT_RESPONSE && cur <= Lead(t) && !AtEnd(chunks)
    requires all == t + Avail(chunks) && NulFree(Avail(chunks)) && !("> " <= all[Lead(all)..])
    ensures Carries(m1, t1) && NulFree(Avail(rest)) && all == t1 + Avail(rest)
    ensures |Avail(rest)| < |Avail(chunks)|
    ensures Scan(mem, cur, |t|, chunks) ==
            if NoLineIn(t1) then Scan(m1, Lead(t1), |t1|, rest)
            else Hand(m1, Lead(t1), RunEnd(t1, Lead(t1)), rest)
  {
    hide Scan, Found, Poke, Consume, SkipAt, NulFree, Avail;
    var data;
    data, t1, rest := DeliverText(t, chunks, all);
    m1, rest := ScanUnfold(mem, cur, |t|, chunks);
    assert |t1| == |t| + Take(|t|, chunks);
    PokeCarries(mem, t, data);
    FoundMeaning(m1, cur, t1, rest);
  }

  lemma ScanAtEnd(mem: string, cur: nat, t: string, chunks: Chunks)
    requires Carries(mem, t) && cur <= MAX_AT_RESPONSE && NoLineIn(t) && |t| < MAX_AT_RESPONSE && AtEnd(chunks)
    ensures Delivers(Scan(mem, cur, |t|, chunks), NextLine(t))
  {
  }

  lemma {:induction false} LineFound(mem: string, t: string, chunks: Chunks, all: string)
    requires Carries(mem, t) && !NoLineIn(t) && all == t + Avail(chunks)
    ensures Delivers(Hand(mem, Lead(t), RunEnd(t, Lead(t)), chunks), NextLine(all))
  {
    HandMeaning(mem, t, chunks);
    NextOfPrefix(t, Avail(chunks));
  }

  /** Reading on from a partial line `t` finds the first line of `t` and the stream together,
      for every way the stream is cut. */
  lemma {:induction false} ScanMeaning(mem: string, cur: nat, t: string, chunks: Chunks, all: string)
    requires Carries(mem, t) && cur <= Lead(t) && NoLineIn(t)
    requires all == t + Avail(chunks) && NulFree(Avail(chunks)) && Promptless(all)
    ensures Delivers(Scan(mem, cur, |t|, chunks), NextLine(all))
    decreases |Avail(chunks)|, |t|, 1
  {
    if |t| == MAX_AT_RESPONSE {
      OverflowMeaning(t, Avail(chunks));
      ScanRoomMeaning(mem[0 := NUL], 0, "", chunks, Avail(chunks));
    } else {
      ScanRoomMeaning(mem, cur, t, chunks, all);
    }
  }

  lemma {:induction false} ScanRoomMeaning(mem: string, cur: nat, t: string, chunks: Chunks, all: string)
    requires Carries(mem, t) && cur <= Lead(t) && NoLineIn(t) && |t| < MAX_AT_RESPONSE
    requires all == t + Avail(chunks) && NulFree(Avail(chunks)) && Promptless(all)
    ensures Delivers(Scan(mem, cur, |t|, chunks), NextLine(all))
    decreases |Avail(chunks)|, |t|, 0
  {
    if AtEnd(chunks) {
      assert all == t;
      ScanAtEnd(mem, cur, t, chunks);
    } else {
      var m1, t1, rest := Deliver(mem, cur, t, chunks, all);
      if NoLineIn(t1) {
        ScanMeaning(m1, Lead(t1), t1, rest, all);
      } else {
        LineFound(m1, t1, rest, all);
      }
    }
  }

  // ---------- one call of readline ----------

  /** The unread text in the buffer as readline first sees it, leading line ends dropped. */
  function Unread(b: Buffer): string
    requires b.Valid()
  {
    if b.mem[b.cur] == NUL then ""
    else var c := SkipAt(b.mem, b.cur); b.mem[c..TextEnd(b.mem, c)]
  }

  lemma {:induction false} UnreadIsPending(b: Buffer)
    requires b.Valid()
    ensures Unread(b) == b.Pending()[Lead(b.Pending())..]
  {
    if b.mem[b.cur] != NUL {
      var e := TextEnd(b.mem, b.cur);
      var p := b.mem[b.cur..e];
      var d := b.cur + Lead(p);
      BeforeTextEnd(b.mem, b.cur);
      BeforeLead(p);
      assert forall k :: b.cur <= k < e ==> b.mem[k] == p[k - b.cur];
      SkipUnique(b.mem, b.cur, d);
      TextEndUnique(b.mem, d, e);
      assert p[Lead(p)..] == b.mem[d..e];
    }
  }

  lemma {:induction false} MoveUpCarries(mem: string, c: nat)
    requires Backed(mem) && c <= MAX_AT_RESPONSE
    ensures Carries(MoveUp(mem, c), mem[c..TextEnd(mem, c)])
  {
    var t := mem[c..TextEnd(mem, c)];
    BeforeTextEnd(mem, c);
    assert forall k :: 0 <= k < |t| ==> t[k] == mem[c + k] && t[k] != NUL;
    assert MoveUp(mem, c)[..|t|] == t;
  }

  lemma {:induction false} SearchUnread(mem: string, c: nat)
    requires Backed(mem) && c <= MAX_AT_RESPONSE && !IsEol(mem[c])
    ensures var t := mem[c..TextEnd(mem, c)];
            && Lead(t) == 0
            && (t != "> " ==> NextEol(mem, c) == if NoLineIn(t) then None else Some(c + RunEnd(t, 0)))
  {
    var t := mem[c..TextEnd(mem, c)];
    BeforeTextEnd(mem, c);
    assert forall k :: 0 <= k < |t| ==> t[k] == mem[c + k] && t[k] != NUL;
    if PromptAt(mem, c) {
      assert TextEnd(mem, c) == TextEnd(mem, c + 1) == TextEnd(mem, c + 2) == c + 2;
    } else {
      BeforeRunEnd(t, 0);
      EolUnique(mem, c, c + RunEnd(t, 0));
    }
  }

  lemma {:induction false} SubSlice(s: string, c: nat, u: string, i: nat, j: nat)
    requires c + |u| <= |s| && u == s[c..c + |u|] && i <= j <= |u|
    ensures u[i..j] == s[c + i..c + j]
  {
    assert forall k :: 0 <= k < |u| ==> u[k] == s[c + k];
  }

  lemma {:induction false} UnreadHand(mem: string, c: nat, t: string, e: nat, chunks: Chunks)
    requires Backed(mem) && c + |t| <= MAX_AT_RESPONSE && t == mem[c..c + |t|] && mem[c + |t|] == NUL
    requires e < |t| && forall k :: c <= k < c + |t| ==> mem[k] != NUL
    ensures var r := Hand(mem, c, c + e, chunks);
            r.buffer.Valid() && r.text == t[..e] && r.buffer.Pending() == t[e + 1..]
  {
    SubSlice(mem, c, t, 0, e);
    SubSlice(mem, c, t, e + 1, |t|);
    HandPending(mem, c, c + e, c + |t|, chunks);
  }

  lemma PartialStep(b: Buffer, chunks: Chunks, c: nat)
    requires b.Valid() && b.mem[b.cur] != NUL && c == SkipAt(b.mem, b.cur) && NextEol(b.mem, c) == None
    ensures ReadStep(b, chunks) == Scan(MoveUp(b.mem, c), 0, TextEnd(b.mem, c) - c, chunks)
  {
    hide Scan, MoveUp, TextEnd, SkipAt, NextEol;
    assert Opening(b) == Start(MoveUp(b.mem, c), 0, TextEnd(b.mem, c) - c, None);
  }

  lemma {:induction false} ReadPartial(b: Buffer, chunks: Chunks, t: string, all: string)
    requires b.Valid() && b.mem[b.cur] != NUL && t == Unread(b) && NoLineIn(t)
    requires NextEol(b.mem, SkipAt(b.mem, b.cur)) == None
    requires all == t + Avail(chunks) && NulFree(Avail(chunks)) && Promptless(all)
    ensures Delivers(ReadStep(b, chunks), NextLine(all))
  {
    hide ReadStep, Scan, NextLine, Delivers, MoveUp, NoLineIn, NulFree, Promptless, Avail, Carries, EolAt;
    var c := SkipAt(b.mem, b.cur);
    MoveUpCarries(b.mem, c);
    PartialStep(b, chunks, c);
    ScanMeaning(MoveUp(b.mem, c), 0, t, chunks, all);
  }

  lemma {:induction false} ReadComplete(b: Buffer, chunks: Chunks, t: string, all: string)
    requires b.Valid() && b.mem[b.cur] != NUL && t == Unread(b) && !NoLineIn(t) && Lead(t) == 0
    requires NextEol(b.mem, SkipAt(b.mem, b.cur)) == Some(SkipAt(b.mem, b.cur) + RunEnd(t, 0))
    requires all == t + Avail(chunks)
    ensures Delivers(ReadStep(b, chunks), NextLine(all))
  {
    var c := SkipAt(b.mem, b.cur);
    BeforeTextEnd(b.mem, c);
    UnreadHand(b.mem, c, t, RunEnd(t, 0), chunks);
    NextOfPrefix(t, Avail(chunks));
  }

  lemma {:induction false} ReadFresh(b: Buffer, chunks: Chunks, all: string)
    requires b.Valid() && b.mem[b.cur] == NUL
    requires all == Avail(chunks) && NulFree(all) && Promptless(all)
    ensures Delivers(ReadStep(b, chunks), NextLine(all))
  {
    assert all == "" + Avail(chunks);
    ScanMeaning(b.mem[0 := NUL], 0, "", chunks, all);
  }

  /** For every cutting of the stream, readline hands out the first line of the unread text
      followed by the stream, and leaves the rest of it unread. */
  lemma {:induction false} ReadLineMeaning(b: Buffer, chunks: Chunks, all: string)
    requires b.Valid() && all == Unread(b) + Avail(chunks) && NulFree(Avail(chunks)) && Promptless(all)
    ensures Delivers(ReadStep(b, chunks), NextLine(all))
  {
    if b.mem[b.cur] == NUL {
      assert all == Avail(chunks);
      ReadFresh(b, chunks, all);
    } else {
      var t := Unread(b);
      SearchUnread(b.mem, SkipAt(b.mem, b.cur));
      PromptSeen(t, all);
      if NoLineIn(t) {
        ReadPartial(b, chunks, t, all);
      } else {
        ReadComplete(b, chunks, t, all);
      }
    }
  }

  // ---------- a whole run ----------

  /** The maximal non-empty stretches without a line end that a line end follows;
      `run` is the stretch being read. */
  function Terminated(t: string, run: string): seq<string>
    decreases |t|
  {
    if t == "" then []
    else if !IsEol(t[0]) then Terminated(t[1..], run + [t[0]])
    else (if run == "" then [] else [run]) + Terminated(t[1..], "")
  }

  /** A stretch without a line end and the '\r' or '\n' behind it: it is a line unless it is empty, and
      what no line end follows is none. */
  lemma {:induction false} TerminatedExactly(line: string, eol: char, more: string)
    requires '\r' !in line && '\n' !in line && (eol == '\r' || eol == '\n')
    ensures Terminated(line + ([eol] + more), "") == (if line == "" then [] else [line]) + Terminated(more, "")
    ensures Terminated(line, "") == []
  {
    var t := line + ([eol] + more);
    TerminatedRun(t, |line|, "");
    assert t[|line|..] == [eol] + more && "" + t[..|line|] == line;
    assert ([eol] + more)[1..] == more;
    TerminatedRun(line, |line|, "");
  }

  /** Every line, with the line ends before it, is shorter than the buffer; `used` characters
      went before `t`, and `inRun` says that they end inside a line. */
  predicate FitsFrom(t: string, used: nat, inRun: bool)
    decreases |t|
  {
    if t == "" then used < MAX_AT_RESPONSE
    else if !IsEol(t[0]) then FitsFrom(t[1..], used + 1, true)
    else if inRun then used < MAX_AT_RESPONSE && FitsFrom(t[1..], 0, false)
    else FitsFrom(t[1..], used + 1, false)
  }

  predicate Fits(t: string) {
    FitsFrom(t, 0, false)
  }

  /** A text shorter than the buffer fits. */
  lemma {:induction false} ShortFits(t: string, used: nat, inRun: bool)
    requires used + |t| < 8192
    ensures FitsFrom(t, used, inRun)
    decreases |t|
  {
    if t != "" {
      ShortFits(t[1..], used + 1, true);
      ShortFits(t[1..], used + 1, false);
      ShortFits(t[1..], 0, false);
    }
  }

  /** No line begins with the SMS prompt. */
  predicate PromptFree(t: string) {
    forall i :: 0 <= i && i + 1 < |t| && t[i] == '>' && t[i + 1] == ' ' ==> i > 0 && !IsEol(t[i - 1])
  }

  lemma {:induction false} TerminatedLead(t: string, n: nat)
    requires n <= Lead(t)
    ensures Terminated(t, "") == Terminated(t[n..], "")
  {
    if n > 0 {
      TerminatedLead(t[1..], n - 1);
      assert t[1..][n - 1..] == t[n..];
    }
  }

  lemma {:induction false} TerminatedRun(t: string, n: nat, run: string)
    requires n <= |t| && forall k :: 0 <= k < n ==> !IsEol(t[k])
    ensures Terminated(t, run) == Terminated(t[n..], run + t[..n])
  {
    if n == 0 {
      assert run + t[..0] == run && t[0..] == t;
    } else {
      TerminatedRun(t[1..], n - 1, run + [t[0]]);
      assert t[1..][n - 1..] == t[n..];
      assert run + [t[0]] + t[1..][..n - 1] == run + t[..n];
    }
  }

  lemma TerminatedAt(t: string, run: string)
    requires t != "" && IsEol(t[0]) && run != ""
    ensures Terminated(t, run) == [run] + Terminated(t[1..], "")
  {
  }

  lemma TerminatedFirst(t: string, c: nat, e: nat)
    requires c == Lead(t) && e == RunEnd(t, c)
    ensures e < |t| ==> Terminated(t, "") == [t[c..e]] + Terminated(t[e + 1..], "")
    ensures e == |t| ==> Terminated(t, "") == []
  {
    TerminatedLead(t, c);
    BeforeRunEnd(t, c);
    var u := t[c..];
    TerminatedRun(u, e - c, "");
    var v := u[e - c..];
    assert "" + u[..e - c] == t[c..e];
    if e < |t| {
      TerminatedAt(v, t[c..e]);
      assert v[1..] == t[e + 1..];
    }
  }

  lemma NextFits(t: string)
    requires RunEnd(t, Lead(t)) < MAX_AT_RESPONSE
    ensures var c, e := Lead(t), RunEnd(t, Lead(t));
            NextLine(t) == if e < |t| then Got(t[c..e], t[e + 1..]) else Nothing
  {
  }

  /** NextLine peels the lines off one by one. */
  lemma {:induction false} TerminatedNext(t: string, n: Next)
    requires RunEnd(t, Lead(t)) < MAX_AT_RESPONSE && n == NextLine(t)
    ensures n.Nothing? ==> Terminated(t, "") == []
    ensures n.Got? ==> Terminated(t, "") == [n.line] + Terminated(n.rest, "")
  {
    NextFits(t);
    TerminatedFirst(t, Lead(t), RunEnd(t, Lead(t)));
  }

  lemma DropDrop(t: string, n: nat, m: nat)
    requires n + m <= |t|
    ensures t[n..][m..] == t[n + m..]
  {
  }

  lemma PromptFreeMinus(t: string, n: nat)
    requires n <= Lead(t) && PromptFree(t)
    ensures PromptFree(t[n..])
  {
    var u := t[n..];
    BeforeLead(t);
    assert n > 0 ==> IsEol(t[n - 1]);
    forall i | 0 <= i && i + 1 < |u| && u[i] == '>' && u[i + 1] == ' '
      ensures i > 0 && !IsEol(u[i - 1])
    {
      assert t[n + i] == '>' && t[n + i + 1] == ' ';
    }
  }

  lemma {:induction false} FitsLead(t: string, n: nat, used: nat)
    requires n <= Lead(t)
    ensures FitsFrom(t, used, false) == FitsFrom(t[n..], used + n, false)
  {
    if n == 0 {
      assert t[0..] == t;
    } else {
      FitsLead(t[1..], n - 1, used + 1);
      DropDrop(t, 1, n - 1);
    }
  }

  lemma {:induction false} FitsRun(t: string, n: nat, used: nat, inRun: bool)
    requires n <= |t| && forall k :: 0 <= k < n ==> !IsEol(t[k])
    ensures FitsFrom(t, used, inRun) == FitsFrom(t[n..], used + n, inRun || n > 0)
  {
    if n == 0 {
      assert t[0..] == t;
    } else {
      FitsRun(t[1..], n - 1, used + 1, true);
      DropDrop(t, 1, n - 1);
    }
  }

  lemma {:induction false} FitsFewer(t: string, used: nat, used': nat, inRun: bool)
    requires FitsFrom(t, used, inRun) && used' <= used
    ensures FitsFrom(t, used', inRun)
  {
    if t != "" && !IsEol(t[0]) {
      FitsFewer(t[1..], used + 1, used' + 1, true);
    } else if t != "" && !inRun {
      FitsFewer(t[1..], used + 1, used' + 1, false);
    }
  }

  lemma {:induction false} FitsFirst(t: string, c: nat, e: nat)
    requires Fits(t) && c == Lead(t) && e == RunEnd(t, c)
    ensures e < MAX_AT_RESPONSE && (e < |t| ==> Fits(t[e + 1..]))
  {
    FitsLead(t, c, 0);
    BeforeRunEnd(t, c);
    FitsRun(t[c..], e - c, c, false);
    DropDrop(t, c, e - c);
    if e < |t| {
      DropDrop(t, e, 1);
    }
  }

  lemma {:induction false} FitsMinus(t: string, n: nat)
    requires n <= Lead(t) && Fits(t)
    ensures Fits(t[n..])
  {
    FitsLead(t, n, 0);
    FitsFewer(t[n..], n, 0, false);
  }

  /** Dropping leading line ends changes no line. */
  lemma {:induction false} DropLead(t: string, n: nat)
    requires n <= Lead(t) && Fits(t) && PromptFree(t)
    ensures Fits(t[n..]) && PromptFree(t[n..]) && Terminated(t[n..], "") == Terminated(t, "")
  {
    TerminatedLead(t, n);
    PromptFreeMinus(t, n);
    FitsMinus(t, n);
  }

  lemma FitsPromptless(t: string)
    requires Fits(t) && PromptFree(t)
    ensures Promptless(t)
  {
    var c := Lead(t);
    var u := t[c..];
    FitsFirst(t, c, RunEnd(t, c));
    BeforeLead(t);
    assert c > 0 ==> IsEol(t[c - 1]);
    assert |u| >= 2 ==> u[0] == t[c] && u[1] == t[c + 1];
  }

  lemma {:induction false} PromptFreeRest(t: string, e: nat)
    requires e < |t| && IsEol(t[e]) && PromptFree(t)
    ensures PromptFree(t[e + 1..])
  {
    var rest := t[e + 1..];
    assert forall k :: 0 <= k < |rest| ==> rest[k] == t[e + 1 + k];
  }

  lemma {:induction false} RestKeeps(t: string)
    requires Fits(t) && PromptFree(t) && NextLine(t).Got?
    ensures Fits(NextLine(t).rest) && PromptFree(NextLine(t).rest)
  {
    var e := RunEnd(t, Lead(t));
    FitsFirst(t, Lead(t), e);
    NextFits(t);
    PromptFreeRest(t, e);
  }

  /** Line ends dropped by the next call change no line. */
  lemma {:induction false} RestAhead(b: Buffer, chunks: Chunks, rest: string) returns (t: string)
    requires b.Valid() && rest == b.Pending() + Avail(chunks) && Fits(rest) && PromptFree(rest)
    ensures t == Unread(b) + Avail(chunks)
    ensures Fits(t) && PromptFree(t) && Terminated(t, "") == Terminated(rest, "")
  {
    UnreadIsPending(b);
    t := DropPending(b.Pending(), Avail(chunks), rest);
  }

  lemma {:induction false} DropPending(p: string, more: string, rest: string) returns (t: string)
    requires rest == p + more && Fits(rest) && PromptFree(rest)
    ensures t == p[Lead(p)..] + more
    ensures Fits(t) && PromptFree(t) && Terminated(t, "") == Terminated(rest, "")
  {
    LeadGrows(p, more);
    DropLead(rest, Lead(p));
    t := rest[Lead(p)..];
  }

  /** The successive lines are exactly the terminated stretches of the text, in order, with
      nothing lost, repeated or invented, for every cutting of the stream into read() chunks. */
  lemma {:induction false} DrainMeaning(b: Buffer, chunks: Chunks, t: string)
    requires b.Valid() && t == Unread(b) + Avail(chunks)
    requires NulFree(Avail(chunks)) && Fits(t) && PromptFree(t)
    ensures Drain(b, chunks) == Terminated(t, "")
    decreases |Avail(chunks)|, MAX_AT_RESPONSE + 2 - b.cur
  {
    FitsPromptless(t);
    FitsFirst(t, Lead(t), RunEnd(t, Lead(t)));
    ReadLineMeaning(b, chunks, t);
    TerminatedNext(t, NextLine(t));
    if ReadStep(b, chunks).Line? {
      RestKeeps(t);
      ReadNulFree(b, chunks);
      var Line(_, b', chunks') := ReadStep(b, chunks);
      var t' := RestAhead(b', chunks', NextLine(t).rest);
      DrainMeaning(b', chunks', t');
    }
  }

  lemma {:induction false} ScanNulFree(mem: string, cur: nat, p: nat, chunks: Chunks)
    requires Backed(mem) && cur <= MAX_AT_RESPONSE && p <= MAX_AT_RESPONSE && NulFree(Avail(chunks))
    ensures NulFree(Avail(Scan(mem, cur, p, chunks).chunks))
    decreases |Avail(chunks)|, p
  {
    hide Poke, Consume, NulFree, Avail, EolAt;
    if p == MAX_AT_RESPONSE {
      ScanNulFree(mem[0 := NUL], 0, 0, chunks);
    } else if !AtEnd(chunks) {
      var take := Take(p, chunks);
      ConsumeAvail(chunks, take);
      AvailNulFree(chunks, take);
      var m1, rest := ScanUnfold(mem, cur, p, chunks);
      ScanNulFree(m1, SkipAt(m1, cur), p + take, rest);
    }
  }

  lemma {:induction false} ReadNulFree(b: Buffer, chunks: Chunks)
    requires b.Valid() && NulFree(Avail(chunks))
    ensures NulFree(Avail(ReadStep(b, chunks).chunks))
  {
    var o := Opening(b);
    ScanNulFree(o.mem, o.cur, o.p, chunks);
  }

  /** Two receptions of the same text, cut differently, give the same lines. */
  lemma CuttingIrrelevant(chunks: Chunks, chunks': Chunks)
    requires Avail(chunks) == Avail(chunks')
    requires NulFree(Avail(chunks)) && Fits(Avail(chunks)) && PromptFree(Avail(chunks))
    ensures Drain(Opened(), chunks) == Drain(Opened(), chunks') == Terminated(Avail(chunks), "")
  {
    assert Unread(Opened()) + Avail(chunks) == Avail(chunks);
    DrainMeaning(Opened(), chunks, Avail(chunks));
    DrainMeaning(Opened(), chunks', Avail(chunks));
  }

  /** The buffer before anything was received. */
  function Opened(): (b: Buffer)
    ensures b.Valid() && b.Pending() == ""
  {
    Buffer(seq(MAX_AT_RESPONSE + 2, _ => NUL), 0)
  }

  // ---------- the SMS prompt ----------

  /** Wherever the prompt stands in the buffer, it is handed out with the cursor one past its
      terminator: text counts as unread there exactly when the byte is not NUL. */
  lemma PromptHand(mem: string, c: nat, chunks: Chunks)
    requires Backed(mem) && c <= MAX_AT_RESPONSE && PromptAt(mem, c)
    ensures NextEol(mem, c) == Some(c + 2) && c + 2 <= MAX_AT_RESPONSE
    ensures var r := Hand(mem, c, c + 2, chunks);
            && r.text == "> " && r.chunks == chunks && r.buffer.cur == c + 3 && r.buffer.Valid()
            && (r.buffer.Pending() == "" <==> mem[c + 3] == NUL)
  {
    assert mem[c..c + 2] == "> ";
  }

  /** The cursor leaves the array, whose last index is MAX_AT_RESPONSE, exactly when the line is a
      prompt that fills the buffer to its end. */
  lemma CursorLeavesArray(mem: string, c: nat, e: nat, chunks: Chunks)
    requires Backed(mem) && c <= MAX_AT_RESPONSE && NextEol(mem, c) == Some(e)
    ensures Hand(mem, c, e, chunks).buffer.cur > MAX_AT_RESPONSE <==> PromptAt(mem, c) && c == MAX_AT_RESPONSE - 2
  {
    assert mem[MAX_AT_RESPONSE] == NUL;
  }

  /** Streams on which it does: line ends that leave room for nothing but the prompt. */
  lemma {:induction false} PromptAtBufferEnd(eols: string, chunks: Chunks)
    requires |eols| == MAX_AT_RESPONSE - 2 && forall k :: 0 <= k < |eols| ==> IsEol(eols[k])
    requires chunks == [eols + "> "]
    ensures var r := ReadStep(Opened(), chunks);
            r.Line? && r.text == "> " && r.buffer.cur == MAX_AT_RESPONSE + 1
  {
    var mem, c := Opened().mem, MAX_AT_RESPONSE - 2;
    WholeChunk(mem, 0, chunks);
    var m1, rest := ScanUnfold(mem, 0, 0, chunks);
    assert m1 == eols + "> " + [NUL] + mem[MAX_AT_RESPONSE + 1..];
    assert mem[0 := NUL] == mem;
    SkipUnique(m1, 0, c);
    PromptHand(m1, c, rest);
  }

  /** The prompt is handed out at once, but the cursor then stands one past the terminator:
      nothing stale is read again exactly when the byte there is NUL. */
  lemma PromptReturn(b: Buffer, chunks: Chunks)
    requires b.Valid() && b.mem[b.cur] == NUL && chunks != [] && chunks[0] == "> "
    ensures ReadStep(b, chunks) == Line("> ", Buffer(['>', ' ', NUL] + b.mem[3..], 3), chunks[1..])
    ensures ReadStep(b, chunks).buffer.Pending() + Avail(chunks[1..]) == Avail(chunks[1..]) <==> b.mem[3] == NUL
  {
    var m0 := b.mem[0 := NUL];
    var m1 := Received(m0, 0, chunks);
    assert m1 == ['>', ' ', NUL] + b.mem[3..];
    assert m1[2 := NUL] == m1;
    assert m1[0..2] == "> ";
    assert SkipAt(m1, 0) == 0;
    assert Consume(chunks, 2) == chunks[1..];
    var p := Buffer(m1, 3).Pending();
    assert m1[3] == b.mem[3];
    assert |p + Avail(chunks[1..])| == |p| + |Avail(chunks[1..])|;
  }

  // ---------- a prompt between other lines ----------

  /** The state in which the readline starts that finds no more line. */
  function Final(b: Buffer, chunks: Chunks): (Buffer, Chunks)
    requires b.Valid()
    decreases |Avail(chunks)|, MAX_AT_RESPONSE + 2 - b.cur
  {
    match ReadStep(b, chunks)
    case Closed(_) => (b, chunks)
    case Line(_, b', chunks') => Final(b', chunks')
  }

  lemma {:induction false} FinalValid(b: Buffer, chunks: Chunks)
    requires b.Valid()
    ensures Final(b, chunks).0.Valid()
    decreases |Avail(chunks)|, MAX_AT_RESPONSE + 2 - b.cur
  {
    if ReadStep(b, chunks).Line? {
      FinalValid(ReadStep(b, chunks).buffer, ReadStep(b, chunks).chunks);
    }
  }

  lemma FinalStep(b: Buffer, chunks: Chunks)
    requires b.Valid()
    ensures Final(b, chunks) == match ReadStep(b, chunks)
              case Closed(_) => (b, chunks)
              case Line(_, b', chunks') => Final(b', chunks')
  {
  }

  /** read() only looks at the first chunk. */
  lemma FirstLocal(mem: string, p: nat, chunks: Chunks, more: Chunks)
    requires Backed(mem) && p < MAX_AT_RESPONSE && !AtEnd(chunks)
    ensures var all := chunks + more; var n := Take(p, chunks);
            && !AtEnd(all) && Take(p, all) == n && Received(mem, p, all) == Received(mem, p, chunks)
            && Consume(all, n) == Consume(chunks, n) + more
  {
    var all := chunks + more;
    assert all[0] == chunks[0] && all[1..] == chunks[1..] + more;
  }

  /** A line that is complete within some chunks does not depend on what follows them. */
  lemma {:induction false} ScanLocal(mem: string, cur: nat, p: nat, chunks: Chunks, more: Chunks)
    requires Backed(mem) && cur <= MAX_AT_RESPONSE && p <= MAX_AT_RESPONSE && Scan(mem, cur, p, chunks).Line?
    ensures var r := Scan(mem, cur, p, chunks);
            Scan(mem, cur, p, chunks + more) == Line(r.text, r.buffer, r.chunks + more)
    decreases |Avail(chunks)|, p
  {
    hide Received, Consume, NextEol, SkipAt;
    if p == MAX_AT_RESPONSE {
      ScanLocal(mem[0 := NUL], 0, 0, chunks, more);
    } else {
      var n := Take(p, chunks);
      ConsumeAvail(chunks, n);
      FirstLocal(mem, p, chunks, more);
      var m1, rest := Received(mem, p, chunks), Consume(chunks, n);
      if NextEol(m1, SkipAt(m1, cur)) == None {
        ScanLocal(m1, SkipAt(m1, cur), p + n, rest, more);
      }
    }
  }

  lemma ReadLocal(b: Buffer, chunks: Chunks, more: Chunks)
    requires b.Valid() && ReadStep(b, chunks).Line?
    ensures var r := ReadStep(b, chunks);
            ReadStep(b, chunks + more) == Line(r.text, r.buffer, r.chunks + more)
  {
    hide Scan;
    var o := Opening(b);
    if o.eol == None {
      ScanLocal(o.mem, o.cur, o.p, chunks, more);
    }
  }

  /** Once some chunks have been used up, the lines go on with what follows. */
  lemma {:induction false} DrainOver(b: Buffer, chunks: Chunks, more: Chunks)
    requires b.Valid() && Final(b, chunks).1 == []
    ensures Final(b, chunks).0.Valid() && Drain(b, chunks + more) == Drain(b, chunks) + Drain(Final(b, chunks).0, more)
    decreases |Avail(chunks)|, MAX_AT_RESPONSE + 2 - b.cur
  {
    hide ReadStep, Drain, Final, Avail;
    FinalValid(b, chunks);
    FinalStep(b, chunks);
    DrainStep(b, chunks);
    match ReadStep(b, chunks)
    case Closed(_) => assert chunks + more == more;
    case Line(text, b', chunks') =>
      ReadLocal(b, chunks, more);
      DrainStep(b, chunks + more);
      DrainOver(b', chunks', more);
      var rest := Drain(Final(b, chunks).0, more);
      assert [text] + (Drain(b', chunks') + rest) == [text] + Drain(b', chunks') + rest;
  }

  lemma OpeningQuiet(b: Buffer)
    requires b.Valid() && Unread(b) == ""
    ensures var o := Opening(b);
            o.eol == None && o.p == 0 && o.cur == 0 && o.mem[0] == NUL && o.mem[1..] == b.mem[1..]
  {
    if b.mem[b.cur] != NUL {
      var c := SkipAt(b.mem, b.cur);
      assert TextEnd(b.mem, c) == c && b.mem[c] == NUL;
      assert NextEol(b.mem, c) == None;
    }
  }

  /** The buffer that a prompt behind line ends has been read into. */
  lemma PromptPoked(mem: string, eols: string) returns (m1: string)
    requires Backed(mem) && |eols| + 2 <= MAX_AT_RESPONSE && forall k :: 0 <= k < |eols| ==> IsEol(eols[k])
    ensures m1 == Poke(mem, 0, eols + "> ") && Backed(m1)
    ensures SkipAt(m1, 0) == |eols| && PromptAt(m1, |eols|) && m1[|eols| + 3] == mem[|eols| + 3]
  {
    m1 := Poke(mem, 0, eols + "> ");
    assert m1 == eols + "> " + [NUL] + mem[|eols| + 3..];
    assert forall k :: 0 <= k < |eols| ==> m1[k] == eols[k];
    SkipUnique(m1, 0, |eols|);
  }

  /** A prompt that arrives, behind any line ends, when nothing is unread: it is handed out at once,
      and nothing is unread again exactly when the byte behind its terminator is NUL. */
  lemma {:induction false} PromptArrives(b: Buffer, eols: string, rest: Chunks) returns (b2: Buffer)
    requires b.Valid() && Unread(b) == "" && |eols| + 2 <= MAX_AT_RESPONSE
    requires forall k :: 0 <= k < |eols| ==> IsEol(eols[k])
    ensures ReadStep(b, [eols + "> "] + rest) == Line("> ", b2, rest) && b2.Valid() && b2.cur == |eols| + 3
    ensures b2.Pending() == "" <==> b.mem[|eols| + 3] == NUL
  {
    hide Poke, Scan, Consume, SkipAt, TextEnd, Unread;
    var chunks, n, o := [eols + "> "] + rest, |eols|, Opening(b);
    OpeningQuiet(b);
    assert chunks[0] == eols + "> " && chunks[1..] == rest;
    WholeChunk(o.mem, 0, chunks);
    var m1 := PromptPoked(o.mem, eols);
    var m2, more := ScanUnfold(o.mem, 0, 0, chunks);
    assert m2 == m1 && more == rest;
    assert o.mem[n + 3] == o.mem[1..][n + 2] == b.mem[1..][n + 2];
    PromptHand(m1, n, rest);
    b2 := Hand(m1, n, n + 2, rest).buffer;
  }

  /** Once these chunks have been used up nothing is unread, and the byte behind the terminator of a
      prompt that then comes, behind these line ends, is NUL. */
  predicate Quiet(b: Buffer, before: Chunks, eols: string)
    requires b.Valid()
  {
    FinalValid(b, before);
    var b1 := Final(b, before).0;
    && Final(b, before).1 == [] && Unread(b1) == ""
    && |eols| + 2 <= MAX_AT_RESPONSE && (forall k :: 0 <= k < |eols| ==> IsEol(eols[k])) && b1.mem[|eols| + 3] == NUL
  }

  /** A prompt behind line ends, in one chunk between others. */
  function Around(before: Chunks, eols: string, behind: Chunks): Chunks {
    before + ([eols + "> "] + behind)
  }

  /** The lines of two texts and of the prompt between them. */
  function PromptLines(t: string, u: string): seq<string> {
    Terminated(t, "") + (["> "] + Terminated(u, ""))
  }

  /** The premises on a text. */
  predicate Clean(t: string) {
    Fits(t) && PromptFree(t)
  }

  /** Lines, a prompt, and lines again: when the chunks before the prompt have been used up and nothing
      is unread, and the byte behind the prompt's terminator is NUL, the prompt is one line more
      between the terminated stretches before and behind it. */
  lemma {:induction false} PromptBetween(b: Buffer, before: Chunks, eols: string, behind: Chunks, t: string, u: string)
    requires b.Valid() && t == Unread(b) + Avail(before) && NulFree(Avail(before)) && Clean(t)
    requires u == Avail(behind) && NulFree(u) && Clean(u) && Quiet(b, before, eols)
    ensures Drain(b, Around(before, eols, behind)) == PromptLines(t, u)
  {
    hide Drain, ReadStep, Scan, Terminated, Fits, PromptFree, Final, Avail, NulFree;
    var prompt, b1 := [eols + "> "] + behind, Final(b, before).0;
    DrainOver(b, before, prompt);
    DrainMeaning(b, before, t);
    var b2 := PromptArrives(b1, eols, behind);
    DrainStep(b1, prompt);
    UnreadIsPending(b2);
    assert Unread(b2) + u == u;
    DrainMeaning(b2, behind, u);
  }

  /** An invented line: the end of an earlier line is still in the buffer when the prompt
      arrives, and is read again in front of the next one. */
  lemma PromptReplaysStaleText()
    ensures Drain(Opened(), ["abcO\r", "> ", "K\r"]) == ["abcO", "> ", "OK"]
  {
    var chunks := ["abcO\r", "> ", "K\r"];
    var b1 := Buffer("abcO\0\0" + Opened().mem[6..], 5);
    StaleFirst(chunks, b1);
    var b2 := Buffer(['>', ' ', NUL] + b1.mem[3..], 3);
    assert b2.mem[3] == 'O' && b2.mem[4] == NUL;
    PromptReturn(b1, chunks[1..]);
    StaleThird(b2, chunks[2..]);
  }

  lemma {:induction false} WholeChunk(mem: string, p: nat, chunks: Chunks)
    requires Backed(mem) && !AtEnd(chunks) && p + |chunks[0]| <= MAX_AT_RESPONSE
    ensures Received(mem, p, chunks) == Poke(mem, p, chunks[0])
    ensures Consume(chunks, Take(p, chunks)) == chunks[1..]
  {
    assert chunks[0][..|chunks[0]|] == chunks[0];
  }

  lemma {:induction false} StaleText(m1: string)
    requires Backed(m1) && m1[0] == 'a' && m1[1] == 'b' && m1[2] == 'c' && m1[3] == 'O' && m1[4] == '\r'
    ensures SkipAt(m1, 0) == 0 && NextEol(m1, 0) == Some(4)
  {
    EolUnique(m1, 0, 4);
  }

  lemma {:induction false} StaleFirst(chunks: Chunks, b1: Buffer)
    requires chunks != [] && chunks[0] == "abcO\r" && b1 == Buffer("abcO\0\0" + Opened().mem[6..], 5)
    ensures ReadStep(Opened(), chunks) == Line("abcO", b1, chunks[1..])
  {
    var m0 := Opened().mem[0 := NUL];
    WholeChunk(m0, 0, chunks);
    var m1 := Poke(m0, 0, chunks[0]);
    assert m1 == "abcO\r" + [NUL] + m0[6..];
    StaleText(m1);
    assert m1[0..4] == "abcO";
    assert m1[4 := NUL] == b1.mem;
    assert Scan(m0, 0, 0, chunks) == Hand(m1, 0, 4, chunks[1..]);
  }

  lemma {:induction false} StaleThird(b2: Buffer, chunks: Chunks)
    requires b2.Valid() && b2.cur == 3 && b2.mem[3] == 'O' && b2.mem[4] == NUL && chunks == ["K\r"]
    ensures Drain(b2, chunks) == ["OK"]
  {
    var m := b2.mem;
    EolUnique(m, 3, 4);
    TextEndUnique(m, 3, 4);
    var up := MoveUp(m, 3);
    assert up == ['O', NUL] + m[2..];
    var b3 := StaleScan(up, chunks);
    assert ReadStep(b3, []) == Closed([]);
  }

  lemma {:induction false} StaleScan(up: string, chunks: Chunks) returns (b3: Buffer)
    requires Backed(up) && up[0] == 'O' && up[1] == NUL && chunks == ["K\r"]
    ensures b3.Valid() && b3.mem[b3.cur] == NUL && Scan(up, 0, 1, chunks) == Line("OK", b3, [])
  {
    var m1, rest := ScanUnfold(up, 0, 1, chunks);
    assert m1 == "OK\r\0" + up[4..];
    EolUnique(m1, 0, 2);
    assert m1[0..2] == "OK";
    b3 := Buffer(m1[2 := NUL], 3);
  }

  // ---------- the reader itself ----------

  class LineReader {
    const buf: array<char>
    var cur: nat
    var chunks: Chunks

    ghost predicate Valid()
      reads this, buf
    {
      buf.Length == MAX_AT_RESPONSE + 2 && Abs().Valid()
    }

    ghost function Abs(): Buffer
      reads this, buf
    {
      Buffer(buf[..], cur)
    }

    constructor (chunks: Chunks)
      ensures Valid() && Abs() == Opened() && this.chunks == chunks && fresh(buf)
    {
      buf := new char[MAX_AT_RESPONSE + 2](_ => NUL);
      cur := 0;
      this.chunks := chunks;
      new;
      assert buf[..] == Opened().mem;
    }

    /** One successful read(), or 0 for end of file and errors. */
    method Receive(p: nat) returns (count: nat)
      requires Valid() && p < MAX_AT_RESPONSE
      modifies buf, this`chunks
      ensures old(AtEnd(chunks)) ==> count == 0 && buf[..] == old(buf[..]) && chunks == old(chunks)
      ensures !old(AtEnd(chunks)) ==>
                && count == Take(p, old(chunks))
                && buf[..] == Received(old(buf[..]), p, old(chunks))
                && chunks == Consume(old(chunks), count)
    {
      if chunks == [] || chunks[0] == "" {
        return 0;
      }
      count := Take(p, chunks);
      var data := chunks[0][..count];
      forall i | 0 <= i < count {
        buf[p + i] := data[i];
      }
      buf[p + count] := NUL;
      assert buf[..] == Poke(old(buf[..]), p, data);
      chunks := Consume(chunks, count);
    }

    method SkipEols()
      requires Valid() && cur <= MAX_AT_RESPONSE
      modifies this`cur
      ensures cur == SkipAt(buf[..], old(cur))
    {
      while buf[cur] == '\r' || buf[cur] == '\n'
        invariant cur <= MAX_AT_RESPONSE && SkipAt(buf[..], cur) == SkipAt(buf[..], old(cur))
        decreases MAX_AT_RESPONSE - cur
      {
        cur := cur + 1;
      }
    }

    method FindNextEol() returns (eol: Option<nat>)
      requires Valid() && cur <= MAX_AT_RESPONSE
      ensures eol == NextEol(buf[..], cur)
    {
      if buf[cur] == '>' && buf[cur + 1] == ' ' && buf[cur + 2] == NUL {
        return Some(cur + 2);
      }
      var c := cur;
      while buf[c] != NUL && buf[c] != '\r' && buf[c] != '\n'
        invariant c <= MAX_AT_RESPONSE && EolAt(buf[..], c) == EolAt(buf[..], cur)
        decreases MAX_AT_RESPONSE - c
      {
        c := c + 1;
      }
      eol := if buf[c] == NUL then None else Some(c);
    }

    /** Moves the unread text to the start of the buffer. */
    method MoveToFront() returns (len: nat)
      requires Valid() && cur <= MAX_AT_RESPONSE
      modifies buf, this`cur
      ensures cur == 0 && len == TextEnd(old(buf[..]), old(cur)) - old(cur)
      ensures buf[..] == MoveUp(old(buf[..]), old(cur))
    {
      len := 0;
      while buf[cur + len] != NUL
        invariant cur + len <= MAX_AT_RESPONSE && TextEnd(buf[..], cur + len) == TextEnd(buf[..], cur)
        decreases MAX_AT_RESPONSE - cur - len
      {
        len := len + 1;
      }
      ghost var was := buf[..];
      forall i | 0 <= i <= len {
        buf[i] := buf[cur + i];
      }
      ghost var now := buf[..];
      assert forall k :: 0 <= k <= len ==> now[k] == was[cur + k];
      assert forall k :: len < k < |was| ==> now[k] == was[k];
      MoveUpIs(was, cur, len, now);
      cur := 0;
    }

    /** A full buffer is thrown away. */
    method Overflow(p: nat) returns (p': nat)
      requires Valid() && cur <= MAX_AT_RESPONSE && p <= MAX_AT_RESPONSE
      modifies this`cur, buf
      ensures Valid() && cur <= MAX_AT_RESPONSE && p' < MAX_AT_RESPONSE
      ensures Scan(buf[..], cur, p', chunks) == Scan(old(buf[..]), old(cur), p, chunks)
    {
      p' := p;
      if 0 == MAX_AT_RESPONSE - p' {
        ghost var was := buf[..];
        cur := 0;
        buf[cur] := NUL;
        p' := 0;
        assert buf[..] == was[0 := NUL];
      }
    }

    /** One round of readline's loop: overflow check, read(), search. */
    method ReadMore(p: nat) returns (open: bool, p': nat, eol: Option<nat>)
      requires Valid() && cur <= MAX_AT_RESPONSE && p <= MAX_AT_RESPONSE
      modifies this, buf
      ensures Valid()
      ensures !open ==> Scan(old(buf[..]), old(cur), p, old(chunks)) == Closed(chunks)
      ensures open ==>
                && cur <= MAX_AT_RESPONSE && p' <= MAX_AT_RESPONSE && |Avail(chunks)| < |Avail(old(chunks))|
                && eol == NextEol(buf[..], cur)
                && Scan(old(buf[..]), old(cur), p, old(chunks)) == Found(buf[..], cur, p', chunks)
    {
      hide Poke, Consume, Avail, SkipAt, NextEol;
      p' := Overflow(p);
      ghost var m, before := buf[..], chunks;
      var count := Receive(p');
      if count == 0 {
        return false, p', None;
      }
      ConsumeAvail(before, count);
      ghost var m1, rest := ScanUnfold(m, cur, p', before);
      SkipEols();
      eol := FindNextEol();
      return true, p' + count, eol;
    }

    /** Looks for a line in what is left in the buffer, and moves a partial line up. */
    method Resume() returns (p: nat, eol: Option<nat>)
      requires Valid() && buf[cur] != NUL
      modifies this`cur, buf
      ensures Valid() && p <= MAX_AT_RESPONSE
      ensures var m, c := old(buf[..]), SkipAt(old(buf[..]), old(cur));
              && eol == NextEol(m, c)
              && (eol != None ==> cur == c && p == 0 && buf[..] == m)
              && (eol == None ==> cur == 0 && buf[..] == MoveUp(m, c) && p == TextEnd(m, c) - c)
    {
      p := 0;
      SkipEols();
      eol := FindNextEol();
      if eol == None {
        p := MoveToFront();
      }
    }

    /** What readline does before its loop; the state it leaves. */
    method Begin() returns (p: nat, eol: Option<nat>)
      requires Valid()
      modifies this`cur, buf
      ensures Valid() && Opening(old(Abs())) == Start(buf[..], cur, p, eol)
    {
      if buf[cur] == NUL {
        ghost var was := buf[..];
        p, eol := 0, None;
        cur := 0;
        buf[cur] := NUL;
        assert buf[..] == was[0 := NUL];
      } else {
        p, eol := Resume();
      }
    }

    /** Terminates the line and moves on behind it. */
    method HandOut(eol: nat) returns (line: string)
      requires Valid() && cur <= eol <= MAX_AT_RESPONSE
      modifies this`cur, buf
      ensures Valid() && Hand(old(buf[..]), old(cur), eol, chunks) == Line(line, Abs(), chunks)
    {
      line := buf[cur..eol];
      buf[eol] := NUL;
      cur := eol + 1;
    }

    /** Hands out the next line, or nothing when the stream has ended. */
    method ReadLine() returns (line: Option<string>)
      requires Valid()
      modifies this, buf
      ensures Valid()
      ensures match ReadStep(old(Abs()), old(chunks))
              case Closed(rest) => line == None && chunks == rest
              case Line(text, b, rest) => line == Some(text) && Abs() == b && chunks == rest
    {
      ghost var goal := ReadStep(Abs(), chunks);
      var p: nat, eol: Option<nat> := Begin();
      var open := true;
      while eol == None
        invariant Valid() && cur <= MAX_AT_RESPONSE
        invariant eol == None ==> p <= MAX_AT_RESPONSE && Scan(buf[..], cur, p, chunks) == goal
        invariant eol != None ==> cur <= eol.value <= MAX_AT_RESPONSE && Hand(buf[..], cur, eol.value, chunks) == goal
        decreases |Avail(chunks)|, eol == None
      {
        open, p, eol := ReadMore(p);
        if !open {
          return None;
        }
      }
      var text := HandOut(eol.value);
      line := Some(text);
    }

    /** Every line until the stream ends. */
    method ReadAll() returns (lines: seq<string>)
      requires Valid()
      modifies this, buf
      ensures lines == Drain(old(Abs()), old(chunks))
    {
      hide Drain, ReadStep;
      lines := [];
      ghost var goal := Drain(Abs(), chunks);
      var open := true;
      while open
        invariant Valid()
        invariant lines + (if open then Drain(Abs(), chunks) else []) == goal
        decreases open, |Avail(chunks)|, MAX_AT_RESPONSE + 2 - cur
      {
        DrainStep(Abs(), chunks);
        var line := ReadLine();
        match line
        case None => open := false;
        case Some(text) => lines := lines + [text];
      }
    }
  }
}
