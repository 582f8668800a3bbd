/** The AT command channel: the reader thread routes each line of the modem either to the one
    pending command or to the unsolicited handler, and the command thread waits for its final
    result. Everything between two locks of the command mutex is one step. */
module AtChannel {
  import opened Common

  datatype CommandType = NoResult | Numeric | SingleLine | MultiLine

  datatype Status = Ok | Generic | CommandPending | ChannelClosed | Timeout | InvalidResponse

  // ---------- response classes (3GPP TS 27.007, annex B) ----------

  const FINAL_SUCCESS: seq<string> := ["OK", "CONNECT"]
  const FINAL_ERROR: seq<string> :=
    ["ERROR", "+CMS ERROR:", "+CME ERROR:", "NO CARRIER", "NO ANSWER", "NO DIALTONE"]
  const SMS_UNSOLICITED: seq<string> := ["+CMT:", "+CDS:", "+CBM:"]

  predicate StartsWithAny(line: string, prefixes: seq<string>) {
    prefixes != [] && (prefixes[0] <= line || StartsWithAny(line, prefixes[1..]))
  }

  predicate IsFinalSuccess(line: string) {
    StartsWithAny(line, FINAL_SUCCESS)
  }

  predicate IsFinalError(line: string) {
    StartsWithAny(line, FINAL_ERROR)
  }

  predicate IsFinal(line: string) {
    IsFinalSuccess(line) || IsFinalError(line)
  }

  predicate IsSmsUnsolicited(line: string) {
    StartsWithAny(line, SMS_UNSOLICITED)
  }

  /** The classes by their texts: no line is in two of them. */
  lemma ResponseClasses(line: string)
    ensures IsFinalSuccess(line) <==> "OK" <= line || "CONNECT" <= line
    ensures IsFinalError(line) <==>
              || "ERROR" <= line || "+CMS ERROR:" <= line || "+CME ERROR:" <= line
              || "NO CARRIER" <= line || "NO ANSWER" <= line || "NO DIALTONE" <= line
    ensures IsSmsUnsolicited(line) <==> "+CMT:" <= line || "+CDS:" <= line || "+CBM:" <= line
    ensures !(IsFinalSuccess(line) && IsFinalError(line)) && !(IsFinal(line) && IsSmsUnsolicited(line))
  {
    AnyOf(line, FINAL_SUCCESS);
    AnyOf(line, FINAL_ERROR);
    AnyOf(line, SMS_UNSOLICITED);
    assert FINAL_SUCCESS[0] == "OK" && FINAL_SUCCESS[1] == "CONNECT";
    assert FINAL_ERROR[0] == "ERROR" && FINAL_ERROR[1] == "+CMS ERROR:" && FINAL_ERROR[2] == "+CME ERROR:"
        && FINAL_ERROR[3] == "NO CARRIER" && FINAL_ERROR[4] == "NO ANSWER" && FINAL_ERROR[5] == "NO DIALTONE";
    assert IsFinalSuccess(line) ==> line[0] in "OC";
    assert IsFinalError(line) ==> line[0] in "EN" || (line[2] == 'M' && line[3] in "SE");
    assert SMS_UNSOLICITED[0] == "+CMT:" && SMS_UNSOLICITED[1] == "+CDS:" && SMS_UNSOLICITED[2] == "+CBM:";
  }

  lemma {:induction false} AnyOf(line: string, prefixes: seq<string>)
    ensures StartsWithAny(line, prefixes) <==> exists i :: 0 <= i < |prefixes| && prefixes[i] <= line
  {
    if prefixes != [] {
      var rest := prefixes[1..];
      AnyOf(line, rest);
      if i :| 0 <= i < |rest| && rest[i] <= line {
        assert prefixes[i + 1] <= line;
      }
      if i :| 0 <= i < |prefixes| && prefixes[i] <= line {
        assert i == 0 || rest[i - 1] <= line;
      }
    }
  }

  predicate StartsWithDigit(line: string) {
    line != "" && '0' <= line[0] <= '9'
  }

  // ---------- the protocol as a state machine ----------

  /** The command being waited for. `inter` is in the order of arrival. */
  datatype Pending = Pending(
    kind: CommandType, prefix: string, pdu: Option<string>,
    inter: seq<string>, final: Option<string>, success: bool)

  datatype Unsolicited = Unsolicited(line: string, pdu: Option<string>)

  datatype Channel = Channel(
    closed: bool, pending: Option<Pending>,
    unsol: seq<Unsolicited>, accepted: seq<string>, finals: seq<string>, answered: seq<string>)

  datatype Event =
    | Line(text: string)
    | Sms(header: string, body: string)
    | Send(kind: CommandType, prefix: string, pdu: Option<string>, written: bool)
    | Wakeup
    | TimedOut
    | Close

  datatype Reply = Reply(success: bool, final: Option<string>, inter: seq<string>)

  datatype Result = Result(status: Status, reply: Option<Reply>)

  datatype Dest = ToHandler | ToReply | ToFinal | ToPrompt

  predicate Accepts(kind: CommandType, prefix: string, line: string) {
    match kind
    case NoResult => false
    case Numeric => StartsWithDigit(line)
    case SingleLine => prefix <= line
    case MultiLine => prefix <= line
  }

  /** Where processLine sends a line. */
  function Route(pending: Option<Pending>, line: string): Dest {
    match pending
    case None => ToHandler
    case Some(p) =>
      if IsFinal(line) then ToFinal
      else if p.pdu != None && line == "> " then ToPrompt
      else if Accepts(p.kind, p.prefix, line) && (p.kind == MultiLine || p.inter == []) then ToReply
      else ToHandler
  }

  function ProcessLine(c: Channel, line: string): Channel {
    match Route(c.pending, line)
    case ToHandler => c.(unsol := c.unsol + [Unsolicited(line, None)])
    case ToFinal =>
      c.(pending := Some(c.pending.value.(final := Some(line), success := IsFinalSuccess(line))),
         finals := c.finals + [line])
    case ToPrompt =>
      c.(pending := Some(c.pending.value.(pdu := None)), answered := c.answered + [line])
    case ToReply =>
      c.(pending := Some(c.pending.value.(inter := c.pending.value.inter + [line])),
         accepted := c.accepted + [line])
  }

  /** The waiting loop of the command thread has nothing left to wait for. */
  predicate Settled(c: Channel) {
    c.pending != None && (c.pending.value.final != None || c.closed)
  }

  function Step(c: Channel, e: Event): (Channel, Option<Result>) {
    match e
    case Line(text) => (ProcessLine(c, text), None)
    case Sms(h, b) => (c.(unsol := c.unsol + [Unsolicited(h, Some(b))]), None)
    case Send(kind, prefix, pdu, written) =>
      if c.pending != None then (c.(pending := None), Some(Result(CommandPending, None)))
      else if c.closed then (c, Some(Result(ChannelClosed, None)))
      else if !written then (c, Some(Result(Generic, None)))
      else (c.(pending := Some(Pending(kind, prefix, pdu, [], None, false))), None)
    case Wakeup =>
      if !Settled(c) then (c, None)
      else
        var p := c.pending.value;
        (c.(pending := None),
         Some(Result(if c.closed then ChannelClosed else Ok, Some(Reply(p.success, p.final, p.inter)))))
    case TimedOut =>
      if c.pending == None then (c, None) else (c.(pending := None), Some(Result(Timeout, None)))
    case Close => (c.(closed := true), None)
  }

  /** What one line does while a command waits, told from the text: it ends the command, answers the
      prompt, or joins the reply; and any other line leaves the command alone. */
  lemma LineExactly(c: Channel, p: Pending, line: string)
    requires c.pending == Some(p)
    ensures var succeeds := "OK" <= line || "CONNECT" <= line;
            var fails := "ERROR" <= line || "+CMS ERROR:" <= line || "+CME ERROR:" <= line
                         || "NO CARRIER" <= line || "NO ANSWER" <= line || "NO DIALTONE" <= line;
            var prefixed := |p.prefix| <= |line| && line[..|p.prefix|] == p.prefix;
            var joins := (p.kind == MultiLine && prefixed)
                         || (p.kind == SingleLine && prefixed && p.inter == [])
                         || (p.kind == Numeric && line != "" && line[0] in "0123456789" && p.inter == []);
            ProcessLine(c, line) ==
            if succeeds || fails then
              c.(pending := Some(p.(final := Some(line), success := succeeds)), finals := c.finals + [line])
            else if line == "> " && p.pdu != None then
              c.(pending := Some(p.(pdu := None)), answered := c.answered + [line])
            else if joins then
              c.(pending := Some(p.(inter := p.inter + [line])), accepted := c.accepted + [line])
            else
              c.(unsol := c.unsol + [Unsolicited(line, None)])
  {
    hide IsFinalSuccess, IsFinalError;
    ResponseClasses(line);
  }

  function Run(c: Channel, es: seq<Event>): Channel {
    if es == [] then c else Step(Run(c, es[..|es| - 1]), es[|es| - 1]).0
  }

  function Opened(): Channel {
    Channel(false, None, [], [], [], [])
  }

  // ---------- one destination for every line ----------

  function Received(es: seq<Event>): seq<string> {
    if es == [] then []
    else
      Received(es[..|es| - 1]) + EventLines(es[|es| - 1])
  }

  function EventLines(e: Event): seq<string> {
    match e
    case Line(t) => [t]
    case Sms(h, b) => [h, b]
    case _ => []
  }

  /** Every received line with the one place it went to, in the order of arrival. */
  function Trace(c: Channel, es: seq<Event>): seq<(string, Dest)> {
    if es == [] then []
    else
      var before := es[..|es| - 1];
      Trace(c, before) + Sent(Run(c, before), es[|es| - 1])
  }

  function Sent(c: Channel, e: Event): seq<(string, Dest)> {
    match e
    case Line(t) => [(t, Route(c.pending, t))]
    case Sms(h, b) => [(h, ToHandler), (b, ToHandler)]
    case _ => []
  }

  function Pick(trace: seq<(string, Dest)>, d: Dest): seq<string> {
    if trace == [] then []
    else
      var n := |trace| - 1;
      Pick(trace[..n], d) + if trace[n].1 == d then [trace[n].0] else []
  }

  function Texts(trace: seq<(string, Dest)>): seq<string> {
    seq(|trace|, i requires 0 <= i < |trace| => trace[i].0)
  }

  function HandlerTexts(unsol: seq<Unsolicited>): seq<string> {
    if unsol == [] then []
    else
      var u := unsol[|unsol| - 1];
      HandlerTexts(unsol[..|unsol| - 1]) + if u.pdu == None then [u.line] else [u.line, u.pdu.value]
  }

  lemma {:induction false} PickSnoc(trace: seq<(string, Dest)>, x: (string, Dest), d: Dest)
    ensures Pick(trace + [x], d) == Pick(trace, d) + if x.1 == d then [x.0] else []
  {
    assert (trace + [x])[..|trace|] == trace;
  }

  lemma {:induction false} PickSms(trace: seq<(string, Dest)>, h: string, b: string, d: Dest)
    ensures Pick(trace + [(h, ToHandler), (b, ToHandler)], d)
         == Pick(trace, d) + if d == ToHandler then [h, b] else []
  {
    PickSnoc(trace, (h, ToHandler), d);
    PickSnoc(trace + [(h, ToHandler)], (b, ToHandler), d);
    assert trace + [(h, ToHandler), (b, ToHandler)] == trace + [(h, ToHandler)] + [(b, ToHandler)];
  }

  lemma {:induction false} HandlerSnoc(unsol: seq<Unsolicited>, u: Unsolicited)
    ensures HandlerTexts(unsol + [u]) == HandlerTexts(unsol) + if u.pdu == None then [u.line] else [u.line, u.pdu.value]
  {
    assert (unsol + [u])[..|unsol|] == unsol;
  }

  /** The logs of the four destinations agree with the trace. */
  ghost predicate Logged(c: Channel, trace: seq<(string, Dest)>) {
    && HandlerTexts(c.unsol) == Pick(trace, ToHandler)
    && c.accepted == Pick(trace, ToReply)
    && c.finals == Pick(trace, ToFinal)
    && c.answered == Pick(trace, ToPrompt)
  }

  lemma {:induction false} LogLine(c: Channel, trace: seq<(string, Dest)>, t: string)
    requires Logged(c, trace)
    ensures Logged(ProcessLine(c, t), trace + [(t, Route(c.pending, t))])
  {
    var x := (t, Route(c.pending, t));
    PickSnoc(trace, x, ToHandler);
    PickSnoc(trace, x, ToReply);
    PickSnoc(trace, x, ToFinal);
    PickSnoc(trace, x, ToPrompt);
    HandlerSnoc(c.unsol, Unsolicited(t, None));
  }

  lemma {:induction false} LogSms(c: Channel, trace: seq<(string, Dest)>, h: string, b: string)
    requires Logged(c, trace)
    ensures Logged(Step(c, Sms(h, b)).0, trace + [(h, ToHandler), (b, ToHandler)])
  {
    PickSms(trace, h, b, ToHandler);
    PickSms(trace, h, b, ToReply);
    PickSms(trace, h, b, ToFinal);
    PickSms(trace, h, b, ToPrompt);
    HandlerSnoc(c.unsol, Unsolicited(h, Some(b)));
  }

  lemma {:induction false} LogStep(c: Channel, trace: seq<(string, Dest)>, e: Event)
    requires Logged(c, trace)
    ensures Logged(Step(c, e).0, trace + Sent(c, e))
  {
    match e
    case Line(t) => LogLine(c, trace, t);
    case Sms(h, b) => LogSms(c, trace, h, b);
    case _ => assert trace + [] == trace;
  }

  lemma {:induction false} TextsSnoc(c: Channel, trace: seq<(string, Dest)>, e: Event)
    ensures Texts(trace + Sent(c, e)) == Texts(trace) + EventLines(e)
  {
  }

  /** In every interleaving each line goes to exactly one of the handler, the reply, the final
      result and the prompt, and each of these gets its lines in the order of arrival. */
  lemma {:induction false} OneDestination(es: seq<Event>)
    ensures Texts(Trace(Opened(), es)) == Received(es)
    ensures Logged(Run(Opened(), es), Trace(Opened(), es))
  {
    if es != [] {
      var before, e := es[..|es| - 1], es[|es| - 1];
      OneDestination(before);
      var c, trace := Run(Opened(), before), Trace(Opened(), before);
      LogStep(c, trace, e);
      TextsSnoc(c, trace, e);
    }
  }

  // ---------- what the reader loop makes of the lines ----------

  /** An SMS header goes with the line after it. */
  function Group(lines: seq<string>): seq<Event> {
    if lines == [] then []
    else if !IsSmsUnsolicited(lines[0]) then [Line(lines[0])] + Group(lines[1..])
    else if |lines| == 1 then []
    else [Sms(lines[0], lines[1])] + Group(lines[2..])
  }

  /** The header that the stream ends on before its second line came. */
  function Dangling(lines: seq<string>): seq<string> {
    if lines == [] then []
    else if !IsSmsUnsolicited(lines[0]) then Dangling(lines[1..])
    else if |lines| == 1 then lines
    else Dangling(lines[2..])
  }

  lemma {:induction false} ReceivedCons(e: Event, es: seq<Event>)
    ensures Received([e] + es) == EventLines(e) + Received(es)
  {
    var all, n := [e] + es, |es|;
    if es == [] {
      assert all[..0] == [];
    } else {
      assert all[..n] == [e] + es[..n - 1];
      ReceivedCons(e, es[..n - 1]);
    }
  }

  lemma {:induction false} GroupJoin(e: Event, es: seq<Event>, dangling: seq<string>, lines: seq<string>, n: nat)
    requires n <= |lines| && EventLines(e) == lines[..n] && Received(es) + dangling == lines[n..]
    ensures Received([e] + es) + dangling == lines
  {
    ReceivedCons(e, es);
    assert EventLines(e) + Received(es) + dangling == EventLines(e) + (Received(es) + dangling);
    assert lines == lines[..n] + lines[n..];
  }

  /** Every line is handed on, in order, except an SMS header without its second line. */
  lemma {:induction false} GroupKeepsLines(lines: seq<string>)
    ensures Received(Group(lines)) + Dangling(lines) == lines
    ensures |Dangling(lines)| <= 1
  {
    if lines != [] && !IsSmsUnsolicited(lines[0]) {
      GroupKeepsLines(lines[1..]);
      GroupJoin(Line(lines[0]), Group(lines[1..]), Dangling(lines[1..]), lines, 1);
    } else if |lines| > 1 {
      GroupKeepsLines(lines[2..]);
      GroupJoin(Sms(lines[0], lines[1]), Group(lines[2..]), Dangling(lines[2..]), lines, 2);
    }
  }

  /** An SMS header comes with a second line, any other line comes alone. */
  predicate Paired(e: Event) {
    match e
    case Line(t) => !IsSmsUnsolicited(t)
    case Sms(h, b) => IsSmsUnsolicited(h)
    case _ => false
  }

  predicate AllPaired(es: seq<Event>) {
    forall i :: 0 <= i < |es| ==> Paired(es[i])
  }

  lemma {:induction false} GroupPairs(lines: seq<string>)
    ensures AllPaired(Group(lines))
  {
    if lines != [] && !IsSmsUnsolicited(lines[0]) {
      GroupPairs(lines[1..]);
    } else if |lines| > 1 {
      GroupPairs(lines[2..]);
    }
  }

  lemma {:induction false} ReceivedFrom(e: Event, es: seq<Event>, dangling: seq<string>, lines: seq<string>)
    requires Received([e] + es) + dangling == lines
    ensures |EventLines(e)| <= |lines| && EventLines(e) == lines[..|EventLines(e)|]
    ensures Received(es) + dangling == lines[|EventLines(e)|..]
  {
    ReceivedCons(e, es);
    var head, rest := EventLines(e), Received(es) + dangling;
    assert head + Received(es) + dangling == head + rest;
  }

  lemma PairedStart(es: seq<Event>, lines: seq<string>, dangling: seq<string>)
    requires es != [] && AllPaired(es) && Received(es) + dangling == lines
    ensures es == [es[0]] + es[1..] && Paired(es[0]) && AllPaired(es[1..]) && lines != []
    ensures es[0].Line? ==> es[0].text == lines[0] && Received(es[1..]) + dangling == lines[1..]
    ensures es[0].Sms? ==>
              && |lines| > 1 && es[0].header == lines[0] && es[0].body == lines[1]
              && Received(es[1..]) + dangling == lines[2..]
  {
    var e := es[0];
    assert es == [e] + es[1..] && Paired(e);
    ReceivedFrom(e, es[1..], dangling, lines);
    var n := |EventLines(e)|;
    assert lines[0] == lines[..n][0];
    assert e.Sms? ==> lines[1] == lines[..n][1];
  }

  /** No other grouping keeps the pairs and every line but a header that ends the stream. */
  lemma {:induction false} GroupUnique(es: seq<Event>, lines: seq<string>, dangling: seq<string>)
    requires AllPaired(es) && Received(es) + dangling == lines
    requires dangling == [] || (|dangling| == 1 && IsSmsUnsolicited(dangling[0]))
    ensures es == Group(lines) && dangling == Dangling(lines)
  {
    if es == [] {
      assert lines == dangling;
    } else {
      PairedStart(es, lines, dangling);
      assert Paired(es[0]);
      GroupUnique(es[1..], if es[0].Line? then lines[1..] else lines[2..], dangling);
    }
  }

  // ---------- the reader's lines among everything else ----------

  /** The part of an interleaving that the reader thread contributes. */
  function ReaderEvents(es: seq<Event>): seq<Event> {
    if es == [] then []
    else
      var e := es[|es| - 1];
      ReaderEvents(es[..|es| - 1]) + if e.Line? || e.Sms? then [e] else []
  }

  lemma {:induction false} ReceivedSnoc(es: seq<Event>, e: Event)
    ensures Received(es + [e]) == Received(es) + EventLines(e)
  {
    assert (es + [e])[..|es|] == es;
  }

  lemma {:induction false} ReaderReceived(es: seq<Event>)
    ensures Received(ReaderEvents(es)) == Received(es)
  {
    if es != [] {
      var before, e := es[..|es| - 1], es[|es| - 1];
      ReaderReceived(before);
      if e.Line? || e.Sms? {
        ReceivedSnoc(ReaderEvents(before), e);
      } else {
        assert ReaderEvents(es) == ReaderEvents(before) && Received(before) + [] == Received(before);
      }
    }
  }

  lemma {:induction false} ReceivedPrefix(es: seq<Event>, all: seq<Event>)
    requires es <= all
    ensures Received(es) <= Received(all)
    decreases |all|
  {
    if |es| < |all| {
      var before := all[..|all| - 1];
      assert es <= before;
      ReceivedPrefix(es, before);
    } else {
      assert es == all;
    }
  }

  /** The handler is given a second line exactly with an SMS header, and no header goes anywhere
      else. */
  ghost predicate HeadersKept(c: Channel) {
    && (forall i :: 0 <= i < |c.unsol| ==> (c.unsol[i].pdu != None <==> IsSmsUnsolicited(c.unsol[i].line)))
    && (forall t :: t in c.accepted || t in c.finals || t in c.answered ==> !IsSmsUnsolicited(t))
  }

  lemma {:induction false} HeadersStep(c: Channel, e: Event)
    requires HeadersKept(c) && (e.Line? || e.Sms? ==> Paired(e))
    ensures HeadersKept(Step(c, e).0)
  {
  }

  lemma {:induction false} HeadersRun(es: seq<Event>)
    requires AllPaired(ReaderEvents(es))
    ensures HeadersKept(Run(Opened(), es))
  {
    if es != [] {
      var before, e := es[..|es| - 1], es[|es| - 1];
      var r, all := ReaderEvents(before), ReaderEvents(es);
      assert forall i :: 0 <= i < |r| ==> r[i] == all[i];
      assert e.Line? || e.Sms? ==> all[|r|] == e;
      HeadersRun(before);
      HeadersStep(Run(Opened(), before), e);
    }
  }

  /** The reader at any point of its stream, among any commands, wake-ups, timeouts and a close:
      the lines it has handed on are the first ones of the stream, each with one destination, each
      destination in the order of arrival, and a header reaches the handler with the line after it. */
  lemma {:induction false} EveryLineOneDestination(es: seq<Event>, lines: seq<string>)
    requires ReaderEvents(es) <= Group(lines)
    ensures var c, trace := Run(Opened(), es), Trace(Opened(), es);
            && Texts(trace) <= lines
            && (ReaderEvents(es) == Group(lines) ==> Texts(trace) + Dangling(lines) == lines)
            && Logged(c, trace)
            && HeadersKept(c)
  {
    OneDestination(es);
    ReaderReceived(es);
    GroupKeepsLines(lines);
    ReceivedPrefix(ReaderEvents(es), Group(lines));
    GroupPairs(lines);
    assert forall i :: 0 <= i < |ReaderEvents(es)| ==> ReaderEvents(es)[i] == Group(lines)[i];
    HeadersRun(es);
  }

  // ---------- one command, from its start to its end ----------

  /** The events while a command waits: no other command starts, nothing completes it. */
  predicate Waiting(c: Channel, es: seq<Event>) {
    forall i :: 0 <= i < |es| ==>
      !es[i].Send? && !es[i].TimedOut? && (es[i].Wakeup? ==> !Settled(Run(c, es[..i])))
  }

  function LinesOf(es: seq<Event>): seq<string> {
    if es == [] then []
    else LinesOf(es[..|es| - 1]) + if es[|es| - 1].Line? then [es[|es| - 1].text] else []
  }

  function Select(lines: seq<string>, keep: string -> bool): seq<string> {
    if lines == [] then []
    else
      var n := |lines| - 1;
      Select(lines[..n], keep) + if keep(lines[n]) then [lines[n]] else []
  }

  /** The lines without the first "> ", which answers the prompt of a command with a PDU. */
  function WithoutPrompt(lines: seq<string>): seq<string> {
    if lines == [] then []
    else
      var n := |lines| - 1;
      WithoutPrompt(lines[..n]) + if lines[n] == "> " && "> " !in lines[..n] then [] else [lines[n]]
  }

  function FirstOnly(lines: seq<string>): seq<string> {
    if lines == [] then [] else [lines[0]]
  }

  /** The text of an intermediate response to this kind of command. */
  predicate Fits(kind: CommandType, prefix: string, line: string) {
    && kind != NoResult
    && (kind == Numeric ==> line != "" && line[0] in "0123456789")
    && (kind != Numeric ==> |prefix| <= |line| && line[..|prefix|] == prefix)
  }

  function Intermediate(kind: CommandType, prefix: string): string -> bool {
    line => !IsFinal(line) && Fits(kind, prefix, line)
  }

  /** The intermediate responses a command should report, told from the lines alone. */
  function Intermediates(kind: CommandType, prefix: string, pdu: Option<string>, lines: seq<string>): seq<string> {
    var heard := if pdu == None then lines else WithoutPrompt(lines);
    var accepted := Select(heard, Intermediate(kind, prefix));
    if kind == MultiLine then accepted else FirstOnly(accepted)
  }

  function LastFinal(lines: seq<string>): Option<string> {
    var finals := Select(lines, IsFinal);
    if finals == [] then None else Some(finals[|finals| - 1])
  }

  lemma {:induction false} SelectSnoc(lines: seq<string>, x: string, keep: string -> bool)
    ensures Select(lines + [x], keep) == Select(lines, keep) + if keep(x) then [x] else []
  {
    assert (lines + [x])[..|lines|] == lines;
  }

  lemma {:induction false} WithoutPromptSnoc(lines: seq<string>, x: string)
    ensures WithoutPrompt(lines + [x]) == WithoutPrompt(lines) + if x == "> " && "> " !in lines then [] else [x]
  {
    assert (lines + [x])[..|lines|] == lines;
  }

  /** The record of a command that has heard `lines`. */
  function Expected(send: Event, lines: seq<string>): Pending
    requires send.Send?
  {
    var final := LastFinal(lines);
    Pending(send.kind, send.prefix, if "> " in lines then None else send.pdu,
            Intermediates(send.kind, send.prefix, send.pdu, lines),
            final, final != None && IsFinalSuccess(final.value))
  }

  lemma PromptIsNotFinal()
    ensures !IsFinal("> ")
  {
    StartsWithOther("> ", FINAL_SUCCESS);
    StartsWithOther("> ", FINAL_ERROR);
  }

  lemma {:induction false} StartsWithOther(line: string, prefixes: seq<string>)
    requires line != "" && forall i :: 0 <= i < |prefixes| ==> prefixes[i] != "" && prefixes[i][0] != line[0]
    ensures !StartsWithAny(line, prefixes)
  {
    if prefixes != [] {
      StartsWithOther(line, prefixes[1..]);
    }
  }

  lemma AcceptsFitting(kind: CommandType, prefix: string, line: string)
    ensures Accepts(kind, prefix, line) <==> Fits(kind, prefix, line)
  {
  }

  /** One more line, seen from the lines alone. */
  lemma {:induction false} IntermediatesSnoc(kind: CommandType, prefix: string, pdu: Option<string>,
                                             lines: seq<string>, x: string)
    ensures var old' := Intermediates(kind, prefix, pdu, lines);
            var heard := pdu == None || x != "> " || "> " in lines;
            Intermediates(kind, prefix, pdu, lines + [x]) ==
            if heard && !IsFinal(x) && Accepts(kind, prefix, x) && (kind == MultiLine || old' == [])
            then old' + [x] else old'
  {
    hide Fits, Accepts, IsFinalSuccess, IsFinalError;
    AcceptsFitting(kind, prefix, x);
    var keep := Intermediate(kind, prefix);
    SelectSnoc(lines, x, keep);
    WithoutPromptSnoc(lines, x);
    SelectSnoc(WithoutPrompt(lines), x, keep);
    assert WithoutPrompt(lines) + [] == WithoutPrompt(lines);
  }

  lemma {:induction false} LastFinalSnoc(lines: seq<string>, x: string)
    ensures LastFinal(lines + [x]) == if IsFinal(x) then Some(x) else LastFinal(lines)
  {
    SelectSnoc(lines, x, IsFinal);
    assert Select(lines, IsFinal) + [] == Select(lines, IsFinal);
  }

  lemma {:induction false} ExpectedSnoc(send: Event, lines: seq<string>, x: string)
    requires send.Send?
    ensures var p := Expected(send, lines);
            var heard := p.pdu == None || x != "> ";
            Expected(send, lines + [x]) ==
            if IsFinal(x) then p.(final := Some(x), success := IsFinalSuccess(x))
            else if !heard then p.(pdu := None)
            else if Accepts(p.kind, p.prefix, x) && (p.kind == MultiLine || p.inter == [])
            then p.(inter := p.inter + [x])
            else p
  {
    PromptIsNotFinal();
    IntermediatesSnoc(send.kind, send.prefix, send.pdu, lines, x);
    LastFinalSnoc(lines, x);
    assert "> " in lines + [x] <==> "> " in lines || x == "> ";
  }

  lemma {:induction false} WindowLine(send: Event, lines: seq<string>, x: string, c: Channel)
    requires send.Send? && c.pending == Some(Expected(send, lines))
    ensures ProcessLine(c, x).pending == Some(Expected(send, lines + [x]))
  {
    hide Expected, IsFinalSuccess, IsFinalError;
    ExpectedSnoc(send, lines, x);
  }

  /** While the command waits, its record is what the lines so far call for. */
  lemma {:induction false} WindowState(c: Channel, send: Event, es: seq<Event>)
    requires c.pending == None && !c.closed && send.Send? && send.written
    requires Waiting(Step(c, send).0, es)
    ensures Run(Step(c, send).0, es).pending == Some(Expected(send, LinesOf(es)))
  {
    var c0 := Step(c, send).0;
    if es != [] {
      var n := |es| - 1;
      var before := es[..n];
      forall i | 0 <= i < n ensures es[..i] == before[..i] {}
      WindowState(c, send, before);
      if es[n].Line? {
        WindowLine(send, LinesOf(before), es[n].text, Run(c0, before));
      } else {
        assert LinesOf(es) == LinesOf(before);
      }
    }
  }

  lemma {:induction false} SelectedOnly(lines: seq<string>, keep: string -> bool)
    ensures forall x :: x in Select(lines, keep) ==> keep(x) && x in lines
  {
    if lines != [] {
      var n := |lines| - 1;
      SelectedOnly(lines[..n], keep);
      assert forall x :: x in lines[..n] ==> x in lines;
    }
  }

  lemma {:induction false} ClosedStays(c: Channel, es: seq<Event>)
    ensures Run(c, es).closed <==> c.closed || Close in es
  {
    if es != [] {
      var n := |es| - 1;
      ClosedStays(c, es[..n]);
      assert es == es[..n] + [es[n]];
    }
  }

  /** What at_send_command_full reports for a command started on an idle, open channel. A wake-up ends
      it exactly when a final line has arrived or the channel is closed, a timeout always; the result is
      then a timeout, a closed channel, or the final line with exactly the intermediate lines that
      arrived while the command was pending. */
  lemma {:induction false} CommandResult(c: Channel, send: Event, es: seq<Event>, last: Event)
    requires c.pending == None && !c.closed && send.Send? && send.written
    requires Waiting(Step(c, send).0, es)
    requires last == TimedOut || last == Wakeup
    ensures var lines := LinesOf(es);
            var now := Run(Step(c, send).0, es);
            var r := Step(now, last).1;
            var final := LastFinal(lines);
            && (r != None <==> last == TimedOut || final != None || Close in es)
            && Step(now, last).0 == (if r == None then now else now.(pending := None))
            && (last == TimedOut ==> r.value == Result(Timeout, None))
            && (last == Wakeup && r != None ==>
                  && r.value.status == (if Close in es then ChannelClosed else Ok)
                  && r.value.reply == Some(Reply(final != None && IsFinalSuccess(final.value), final,
                                                 Intermediates(send.kind, send.prefix, send.pdu, lines))))
            && (r != None && r.value.status == Ok ==>
                  final != None && IsFinal(final.value) && final.value in lines)
  {
    var lines := LinesOf(es);
    WindowState(c, send, es);
    ClosedStays(Step(c, send).0, es);
    SelectedOnly(lines, IsFinal);
  }

  /** The check that the singleline, numeric and sms wrappers add. */
  function RequireIntermediate(r: Result): Result {
    if r.status == Ok && r.reply != None && r.reply.value.success && r.reply.value.inter == []
    then Result(InvalidResponse, None)
    else r
  }

  /** A successful singleline, numeric or sms command reports exactly one intermediate line, the
      first acceptable one; it is refused exactly when there was none. */
  lemma {:induction false} SingleResult(c: Channel, send: Event, es: seq<Event>)
    requires c.pending == None && !c.closed && send.Send? && send.written
    requires send.kind == SingleLine || send.kind == Numeric
    requires Waiting(Step(c, send).0, es) && LastFinal(LinesOf(es)) != None && Close !in es
    ensures var lines := LinesOf(es);
            var heard := if send.pdu == None then lines else WithoutPrompt(lines);
            var accepted := Select(heard, Intermediate(send.kind, send.prefix));
            var out := Step(Run(Step(c, send).0, es), Wakeup).1;
            var success := IsFinalSuccess(LastFinal(lines).value);
            && out != None && var r := RequireIntermediate(out.value);
            && (r.status == Ok || r.status == InvalidResponse)
            && (r.status == InvalidResponse <==> success && accepted == [])
            && (r.status == Ok && success ==> r.reply.value.inter == [accepted[0]])
  {
    CommandResult(c, send, es, Wakeup);
  }

  /** A second command sent while one is pending is refused, but takes the first one's record with
      it: whatever arrives later, the first command can no longer be completed. */
  lemma SecondSendDropsFirst(c: Channel, send: Event, es: seq<Event>)
    requires c.pending != None && send.Send? && (forall i :: 0 <= i < |es| ==> !es[i].Send?)
    ensures Step(c, send).1 == Some(Result(CommandPending, None))
    ensures Run(Step(c, send).0, es).pending == None && !Settled(Run(Step(c, send).0, es))
  {
    IdleStays(Step(c, send).0, es);
  }

  /** A command is refused exactly when another one waits, the channel is closed or the modem does not
      take it, with a status in this order; then none waits afterwards, whatever lines come. */
  lemma SendRefused(c: Channel, send: Event, es: seq<Event>)
    requires send.Send? && forall i :: 0 <= i < |es| ==> !es[i].Send?
    ensures var next, r := Step(c, send).0, Step(c, send).1;
            && (r == None <==> c.pending == None && !c.closed && send.written)
            && (r == None ==> next == c.(pending := Some(Pending(send.kind, send.prefix, send.pdu, [], None, false))))
            && (r != None ==>
                  && r.value.reply == None && next == c.(pending := None)
                  && r.value.status == (if c.pending != None then CommandPending
                                        else if c.closed then ChannelClosed else Generic)
                  && Run(next, es).pending == None)
  {
    var (next, r) := Step(c, send);
    if r != None {
      IdleStays(next, es);
    }
  }

  lemma {:induction false} IdleStays(c: Channel, es: seq<Event>)
    requires c.pending == None && forall i :: 0 <= i < |es| ==> !es[i].Send?
    ensures Run(c, es).pending == None
  {
    if es != [] {
      IdleStays(c, es[..|es| - 1]);
    }
  }

  lemma {:induction false} RunCons(c: Channel, e: Event, es: seq<Event>)
    ensures Run(c, [e] + es) == Run(Step(c, e).0, es)
  {
    var all := [e] + es;
    var n := |all| - 1;
    if es == [] {
      assert all[..n] == [];
    } else {
      assert all[..n] == [e] + es[..|es| - 1];
      RunCons(c, e, es[..|es| - 1]);
    }
  }
}

/** The channel's static variables, its response objects, and the functions that update them. */
module AtChannelCode {
  import opened Common
  import opened AtChannel

  class AtLine {
    const line: string
    var next: AtLine?

    constructor (line: string, next: AtLine?)
      ensures this.line == line && this.next == next
    {
      this.line := line;
      this.next := next;
    }
  }

  ghost function At(nodes: seq<AtLine>, i: int): AtLine? {
    if 0 <= i < |nodes| then nodes[i] else null
  }

  /** The list starting at `head` runs through `nodes`, each once. */
  ghost predicate Linked(head: AtLine?, nodes: seq<AtLine>)
    reads nodes
  {
    && (forall i, j :: 0 <= i < j < |nodes| ==> nodes[i] != nodes[j])
    && head == At(nodes, 0)
    && (forall i {:trigger nodes[i].next} :: 0 <= i < |nodes| ==> nodes[i].next == At(nodes, i + 1))
  }

  ghost function Lines(nodes: seq<AtLine>): seq<string> {
    seq(|nodes|, i requires 0 <= i < |nodes| => nodes[i].line)
  }

  ghost function Reversed<T>(s: seq<T>): (r: seq<T>)
    ensures |r| == |s|
  {
    seq(|s|, i requires 0 <= i < |s| => s[|s| - 1 - i])
  }

  lemma ReversedAt<T>(s: seq<T>, k: nat)
    requires k < |s|
    ensures Reversed(s)[k] == s[|s| - 1 - k]
  {
  }

  lemma ReversedOnce<T>(s: seq<T>, i: nat, j: nat)
    requires i < j < |s| && forall i, j :: 0 <= i < j < |s| ==> s[i] != s[j]
    ensures Reversed(s)[i] != Reversed(s)[j]
  {
    hide Reversed;
    ReversedAt(s, i);
    ReversedAt(s, j);
  }

  lemma ReversedNext(all: seq<AtLine>, k: nat)
    requires k < |all| && all[|all| - 1 - k].next == At(all, |all| - 2 - k)
    ensures Reversed(all)[k].next == At(Reversed(all), k + 1)
  {
    hide Reversed;
    ReversedAt(all, k);
    if k + 1 < |all| {
      ReversedAt(all, k + 1);
    }
  }

  /** Links that lead from each node to the one before it make the reversed list. */
  lemma LinkedBackwards(head: AtLine?, all: seq<AtLine>)
    requires forall i, j :: 0 <= i < j < |all| ==> all[i] != all[j]
    requires head == At(all, |all| - 1)
    requires forall i {:trigger all[i].next} :: 0 <= i < |all| ==> all[i].next == At(all, i - 1)
    ensures Linked(head, Reversed(all))
  {
    hide Reversed;
    var t := Reversed(all);
    if |all| > 0 {
      ReversedAt(all, 0);
    }
    forall i | 0 <= i < |t|
      ensures t[i].next == At(t, i + 1)
    {
      ReversedNext(all, i);
    }
    forall i, j | 0 <= i < j < |t|
      ensures t[i] != t[j]
    {
      ReversedOnce(all, i, j);
    }
  }

  class AtResponse {
    var success: bool
    var finalResponse: Option<string>
    var intermediates: AtLine?
    ghost var nodes: seq<AtLine>

    constructor ()
      ensures !success && finalResponse == None && intermediates == null && nodes == []
    {
      success := false;
      finalResponse := None;
      intermediates := null;
      nodes := [];
    }

    ghost predicate Valid()
      reads this, nodes
    {
      Linked(intermediates, nodes)
    }

    method AddIntermediate(line: string)
      requires Valid()
      modifies this
      ensures Valid() && Lines(nodes) == [line] + Lines(old(nodes))
      ensures nodes[1..] == old(nodes) && fresh(nodes[0])
      ensures unchanged(`success, `finalResponse)
    {
      var added := new AtLine(line, intermediates);
      intermediates := added;
      nodes := [added] + nodes;
    }

    /** Flips the list in place. */
    method ReverseIntermediates()
      requires Valid()
      modifies this`intermediates, this`nodes, nodes
      ensures Valid() && nodes == Reversed(old(nodes))
      ensures unchanged(`success, `finalResponse)
    {
      ghost var all := nodes;
      var cur := intermediates;
      intermediates := null;
      ghost var k := 0;
      while cur != null
        invariant 0 <= k <= |all| && nodes == all
        invariant forall i, j :: 0 <= i < j < |all| ==> all[i] != all[j]
        invariant cur == At(all, k) && intermediates == At(all, k - 1)
        invariant forall i {:trigger all[i].next} :: k <= i < |all| ==> all[i].next == At(all, i + 1)
        invariant forall i {:trigger all[i].next} :: 0 <= i < k ==> all[i].next == At(all, i - 1)
        decreases |all| - k
      {
        var next := cur.next;
        cur.next := intermediates;
        intermediates := cur;
        cur := next;
        k := k + 1;
      }
      LinkedBackwards(intermediates, all);
      nodes := Reversed(all);
    }
  }

  class AtState {
    var sType: CommandType
    var responsePrefix: string
    var smsPdu: Option<string>
    var response: AtResponse?
    var readerClosed: bool
    ghost var unsol: seq<Unsolicited>
    ghost var accepted: seq<string>
    ghost var finals: seq<string>
    ghost var answered: seq<string>

    ghost predicate Valid()
      reads this, response, if response == null then [] else response.nodes
    {
      response != null ==> response.Valid()
    }

    ghost function Abs(): Channel
      reads this, response
    {
      Channel(readerClosed,
              if response == null then None
              else Some(Pending(sType, responsePrefix, smsPdu, Reversed(Lines(response.nodes)),
                                response.finalResponse, response.success)),
              unsol, accepted, finals, answered)
    }

    /** at_open. */
    constructor ()
      ensures Valid() && Abs() == Opened()
    {
      sType := NoResult;
      responsePrefix := "";
      smsPdu := None;
      response := null;
      readerClosed := false;
      unsol, accepted, finals, answered := [], [], [], [];
    }

    method HandleFinalResponse(line: string)
      requires response != null
      modifies this`finals, response`finalResponse
      ensures response.finalResponse == Some(line) && finals == old(finals) + [line]
    {
      response.finalResponse := Some(line);
      finals := finals + [line];
    }

    method HandleUnsolicited(line: string)
      modifies this`unsol
      ensures unsol == old(unsol) + [Unsolicited(line, None)]
    {
      unsol := unsol + [Unsolicited(line, None)];
    }

    method AddIntermediate(line: string)
      requires Valid() && response != null
      modifies this`accepted, response
      ensures Valid() && accepted == old(accepted) + [line]
      ensures Reversed(Lines(response.nodes)) == Reversed(Lines(old(response.nodes))) + [line]
      ensures response.success == old(response.success) && response.finalResponse == old(response.finalResponse)
    {
      response.AddIntermediate(line);
      accepted := accepted + [line];
    }

    /** The switch on the command type, for lines that are neither final nor a prompt. */
    method RouteByType(line: string)
      requires Valid() && response != null
      modifies this`unsol, this`accepted, response
      ensures Valid()
      ensures var p := old(Abs()).pending.value;
              if Fits(p.kind, p.prefix, line) && (p.kind == MultiLine || p.inter == [])
              then Abs() == old(Abs()).(pending := Some(p.(inter := p.inter + [line])),
                                        accepted := old(accepted) + [line])
              else Abs() == old(Abs()).(unsol := old(unsol) + [Unsolicited(line, None)])
    {
      AcceptsFitting(sType, responsePrefix, line);
      ghost var had := Reversed(Lines(response.nodes));
      assert had == [] <==> response.intermediates == null;
      match sType
      case NoResult => HandleUnsolicited(line);
      case Numeric =>
        if response.intermediates == null && StartsWithDigit(line) {
          AddIntermediate(line);
        } else {
          HandleUnsolicited(line);
        }
      case SingleLine =>
        if response.intermediates == null && responsePrefix <= line {
          AddIntermediate(line);
        } else {
          HandleUnsolicited(line);
        }
      case MultiLine =>
        if responsePrefix <= line {
          AddIntermediate(line);
        } else {
          HandleUnsolicited(line);
        }
    }

    method ProcessLine(line: string)
      requires Valid()
      modifies this, response
      ensures Valid() && response == old(response)
      ensures Abs() == AtChannel.ProcessLine(old(Abs()), line)
    {
      if response == null {
        HandleUnsolicited(line);
      } else if IsFinalSuccess(line) {
        response.success := true;
        HandleFinalResponse(line);
      } else if IsFinalError(line) {
        response.success := false;
        HandleFinalResponse(line);
      } else if smsPdu != None && line == "> " {
        smsPdu := None;
        answered := answered + [line];
      } else {
        AcceptsFitting(sType, responsePrefix, line);
        RouteByType(line);
      }
    }

    method ClearPendingCommand()
      modifies this
      ensures Valid() && response == null && readerClosed == old(readerClosed)
      ensures Abs() == old(Abs()).(pending := None)
    {
      response := null;
      responsePrefix := "";
      smsPdu := None;
    }

    /** The part of at_send_command_full_nolock before its waiting loop. `written` says whether
        the modem took the command. Nothing is returned while the command waits. */
    method StartCommand(kind: CommandType, prefix: string, pdu: Option<string>, written: bool)
      returns (refused: Option<Status>)
      requires Valid()
      modifies this
      ensures Valid()
      ensures var (c, r) := Step(old(Abs()), Send(kind, prefix, pdu, written));
              Abs() == c && (r == None <==> refused == None) && (r != None ==> r.value.status == refused.value)
    {
      if response != null {
        ClearPendingCommand();
        return Some(CommandPending);
      }
      if readerClosed {
        ClearPendingCommand();
        return Some(ChannelClosed);
      }
      if !written {
        ClearPendingCommand();
        return Some(Generic);
      }
      sType := kind;
      responsePrefix := prefix;
      smsPdu := pdu;
      response := new AtResponse();
      assert Reversed(Lines(response.nodes)) == [];
      return None;
    }

    /** The waiting loop has been woken: either it goes on waiting or the command ends. `wanted`
        says whether the caller asked for the response; otherwise it is freed. */
    method Woken(wanted: bool) returns (done: bool, status: Status, out: AtResponse?)
      requires Valid() && response != null
      modifies this, response, response.nodes
      ensures Valid()
      ensures Abs() == Step(old(Abs()), Wakeup).0
      ensures done <==> Step(old(Abs()), Wakeup).1 != None
      ensures done ==> status == Step(old(Abs()), Wakeup).1.value.status
      ensures out != null <==> done && wanted
      ensures out != null ==>
                && out.Valid()
                && Step(old(Abs()), Wakeup).1.value.reply
                   == Some(Reply(out.success, out.finalResponse, Lines(out.nodes)))
    {
      if response.finalResponse == None && !readerClosed {
        return false, Ok, null;
      }
      out := null;
      if wanted {
        response.ReverseIntermediates();
        out := response;
        assert Lines(out.nodes) == old(Reversed(Lines(response.nodes)));
      }
      response := null;
      status := if readerClosed then ChannelClosed else Ok;
      ClearPendingCommand();
      done := true;
    }

    method WaitTimedOut() returns (status: Status)
      requires Valid() && response != null
      modifies this
      ensures Valid() && Abs() == Step(old(Abs()), TimedOut).0
      ensures Step(old(Abs()), TimedOut).1 == Some(Result(status, None))
    {
      ClearPendingCommand();
      status := Timeout;
    }

    method AtClose()
      requires Valid()
      modifies this`readerClosed
      ensures Valid() && Abs() == Step(old(Abs()), Close).0
    {
      readerClosed := true;
    }

    method HandleSms(header: string, body: string)
      requires Valid()
      modifies this`unsol
      ensures Valid() && Abs() == Step(old(Abs()), Sms(header, body)).0
    {
      unsol := unsol + [Unsolicited(header, Some(body))];
    }
  }
}
