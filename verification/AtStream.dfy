/** The reader thread: what the modem's byte stream becomes for the commands and the handler. */
module AtStream {
  import AtReader
  import opened AtChannel
  import opened AtChannelCode

  /** From bytes to destinations, for every way of cutting the stream into read() chunks and every
      interleaving of the reader with commands, wake-ups, timeouts and a close: the texts that have
      reached a destination are the first terminated stretches of the stream, each once; once the
      reader has got to the end they are all of them but a last header without its second line. */
  lemma BytesToDestinations(chunks: AtReader.Chunks, es: seq<Event>)
    requires var t := AtReader.Avail(chunks);
             AtReader.NulFree(t) && AtReader.Fits(t) && AtReader.PromptFree(t)
    requires ReaderEvents(es) <= Group(AtReader.Drain(AtReader.Opened(), chunks))
    ensures var stretches := AtReader.Terminated(AtReader.Avail(chunks), "");
            var c, trace := Run(Opened(), es), Trace(Opened(), es);
            && Texts(trace) <= stretches
            && (ReaderEvents(es) == Group(stretches) ==> Texts(trace) + Dangling(stretches) == stretches)
            && Logged(c, trace)
            && HeadersKept(c)
  {
    AtReader.CuttingIrrelevant(chunks, chunks);
    EveryLineOneDestination(es, AtReader.Drain(AtReader.Opened(), chunks));
  }

  /** The same across the prompt of an SMS, from any state of the reader: lines, a prompt that arrives
      when the chunks before it have been used up and nothing is unread, with a NUL behind its
      terminator, and lines again. The prompt is then one text more, between the others. */
  lemma PromptToDestinations(b: AtReader.Buffer, before: AtReader.Chunks, eols: string, behind: AtReader.Chunks,
                             t: string, u: string, es: seq<Event>)
    requires b.Valid() && t == AtReader.Unread(b) + AtReader.Avail(before) && u == AtReader.Avail(behind)
    requires AtReader.NulFree(AtReader.Avail(before)) && AtReader.Clean(t)
    requires AtReader.NulFree(u) && AtReader.Clean(u) && AtReader.Quiet(b, before, eols)
    requires ReaderEvents(es) <= Group(AtReader.Drain(b, AtReader.Around(before, eols, behind)))
    ensures var lines := AtReader.PromptLines(t, u);
            var c, trace := Run(Opened(), es), Trace(Opened(), es);
            && Texts(trace) <= lines
            && (ReaderEvents(es) == Group(lines) ==> Texts(trace) + Dangling(lines) == lines)
            && Logged(c, trace)
            && HeadersKept(c)
  {
    AtReader.PromptBetween(b, before, eols, behind, t, u);
    EveryLineOneDestination(es, AtReader.Drain(b, AtReader.Around(before, eols, behind)));
  }

  /** The state of the channel once everything still to be read has been handed on. */
  ghost function AtEndOfStream(c: Channel, b: AtReader.Buffer, chunks: AtReader.Chunks): Channel
    requires b.Valid()
  {
    Run(c, Group(AtReader.Drain(b, chunks)))
  }

  lemma {:induction false} AloneStep(c: Channel, line: string, rest: seq<string>)
    requires !IsSmsUnsolicited(line)
    ensures Run(c, Group([line] + rest)) == Run(Step(c, Line(line)).0, Group(rest))
  {
    assert ([line] + rest)[1..] == rest;
    RunCons(c, Line(line), Group(rest));
  }

  lemma {:induction false} PairStep(c: Channel, header: string, body: string, rest: seq<string>)
    requires IsSmsUnsolicited(header)
    ensures Run(c, Group([header] + ([body] + rest))) == Run(Step(c, Sms(header, body)).0, Group(rest))
  {
    assert ([header] + ([body] + rest))[2..] == rest;
    RunCons(c, Sms(header, body), Group(rest));
  }

  /** The line after an SMS header. */
  method HandOnPair(reader: AtReader.LineReader, at: AtState, header: string) returns (open: bool)
    requires reader.Valid() && at.Valid() && IsSmsUnsolicited(header)
    modifies reader, reader.buf, at`unsol
    ensures reader.Valid() && at.Valid()
    ensures var lines := AtReader.Drain(old(reader.Abs()), old(reader.chunks));
            var was, c := Run(old(at.Abs()), Group([header] + lines)), at.Abs();
            was == if open then AtEndOfStream(c, reader.Abs(), reader.chunks) else c
    ensures open ==> Shorter(reader.Abs(), reader.chunks, old(reader.Abs()), old(reader.chunks))
  {
    ghost var c := at.Abs();
    var body := reader.ReadLine();
    if body.None? {
      return false;
    }
    PairStep(c, header, body.value, AtReader.Drain(reader.Abs(), reader.chunks));
    at.HandleSms(header, body.value);
    open := true;
  }

  ghost predicate Shorter(b: AtReader.Buffer, chunks: AtReader.Chunks, b': AtReader.Buffer, chunks': AtReader.Chunks) {
    || |AtReader.Avail(chunks)| < |AtReader.Avail(chunks')|
    || (|AtReader.Avail(chunks)| == |AtReader.Avail(chunks')| && b.cur > b'.cur)
  }

  /** One round of the loop, unless the stream has ended. */
  method HandOn(reader: AtReader.LineReader, at: AtState) returns (open: bool)
    requires reader.Valid() && at.Valid()
    modifies reader, reader.buf, at, at.response
    ensures reader.Valid() && at.Valid() && at.response == old(at.response)
    ensures var c := at.Abs();
            AtEndOfStream(old(at.Abs()), old(reader.Abs()), old(reader.chunks))
            == if open then AtEndOfStream(c, reader.Abs(), reader.chunks) else c
    ensures open ==> Shorter(reader.Abs(), reader.chunks, old(reader.Abs()), old(reader.chunks))
  {
    ghost var c := at.Abs();
    var line := reader.ReadLine();
    if line.None? {
      return false;
    }
    if IsSmsUnsolicited(line.value) {
      open := HandOnPair(reader, at, line.value);
    } else {
      AloneStep(c, line.value, AtReader.Drain(reader.Abs(), reader.chunks));
      at.ProcessLine(line.value);
      open := true;
    }
  }

  /** readerLoop, run without interruption until the stream ends. */
  method ReaderLoop(reader: AtReader.LineReader, at: AtState)
    requires reader.Valid() && at.Valid()
    modifies reader, reader.buf, at, at.response
    ensures at.Valid()
    ensures at.Abs() == Step(Run(old(at.Abs()), Group(AtReader.Drain(old(reader.Abs()), old(reader.chunks)))), Close).0
  {
    ghost var goal := AtEndOfStream(at.Abs(), reader.Abs(), reader.chunks);
    var open := true;
    while open
      invariant reader.Valid() && at.Valid() && at.response == old(at.response)
      invariant goal == if open then AtEndOfStream(at.Abs(), reader.Abs(), reader.chunks) else at.Abs()
      decreases open, |AtReader.Avail(reader.chunks)|, AtReader.MAX_AT_RESPONSE + 2 - reader.cur
    {
      open := HandOn(reader, at);
    }
    at.AtClose();
  }
}
