/** The tokenizer for AT response lines. It moves a cursor along the line and writes terminators
    into it. */
module AtTok {
  import opened Common

  /** isspace in the C locale. */
  predicate IsSpace(c: char) {
    c == ' ' || '\t' <= c <= '\r'
  }

  // ---------- on the text after the cursor ----------

  function SkipSpace(t: string): string {
    if t != "" && IsSpace(t[0]) then SkipSpace(t[1..]) else t
  }

  /** The position of the first c, or the length of the text. */
  function Find(t: string, c: char): (n: nat)
    ensures n <= |t| && (n < |t| ==> t[n] == c)
  {
    if t == "" || t[0] == c then 0 else 1 + Find(t[1..], c)
  }

  /** strsep with one separator: the token, and the text behind the separator if there was one. */
  function Split(t: string, c: char): (string, Option<string>) {
    var n := Find(t, c);
    (t[..n], if n < |t| then Some(t[n + 1..]) else None)
  }

  function SkipNextComma(t: Option<string>): Option<string> {
    if t == None then None
    else var n := Find(t.value, ','); Some(if n < |t.value| then t.value[n + 1..] else "")
  }

  function NextTok(t: string): (string, Option<string>) {
    var u := SkipSpace(t);
    if u != "" && u[0] == '"' then
      var (tok, rest) := Split(u[1..], '"');
      (tok, SkipNextComma(rest))
    else Split(u, ',')
  }

  /** at_tok_start: the text behind the first colon. */
  function Start(line: string): Option<string> {
    Split(line, ':').1
  }

  /** n calls of at_tok_nextstr; a call fails once the cursor is NULL. */
  function Tokens(t: Option<string>, n: nat): (r: Option<seq<string>>)
    ensures r != None ==> |r.value| == n
    decreases n
  {
    if n == 0 then Some([])
    else if t == None then None
    else
      var (tok, rest) := NextTok(t.value);
      var more := Tokens(rest, n - 1);
      if more == None then None else Some([tok] + more.value)
  }

  // ---------- fields ----------

  datatype Field = Quoted(text: string) | Bare(text: string)

  /** What a field may contain to be read back. */
  predicate Readable(f: Field) {
    match f
    case Quoted(s) => '"' !in s
    case Bare(s) => ',' !in s && (s != "" ==> !IsSpace(s[0]) && s[0] != '"')
  }

  function Render(f: Field): string {
    match f
    case Quoted(s) => "\"" + s + "\""
    case Bare(s) => s
  }

  function Join(fields: seq<Field>): string {
    if fields == [] then ""
    else if |fields| == 1 then Render(fields[0])
    else Render(fields[0]) + "," + Join(fields[1..])
  }

  function Texts(fields: seq<Field>): seq<string> {
    if fields == [] then [] else [fields[0].text] + Texts(fields[1..])
  }

  lemma {:induction false} FindAbsent(s: string, c: char, more: string)
    requires c !in s
    ensures Find(s + more, c) == |s| + Find(more, c)
  {
    if s == "" {
      assert s + more == more;
    } else {
      assert (s + more)[1..] == s[1..] + more;
      FindAbsent(s[1..], c, more);
    }
  }

  lemma SplitAt(s: string, c: char, more: string)
    requires c !in s && (more == "" || more[0] == c)
    ensures Split(s + more, c) == (s, if more == "" then None else Some(more[1..]))
  {
    FindAbsent(s, c, more);
    assert (s + more)[..|s|] == s;
    if more != "" {
      assert (s + more)[|s| + 1..] == more[1..];
    }
  }

  lemma {:induction false} BareField(s: string, more: string, t: string)
    requires Readable(Bare(s)) && (more == "" || more[0] == ',') && t == s + more
    ensures NextTok(t) == (s, if more == "" then None else Some(more[1..]))
  {
    SplitAt(s, ',', more);
    assert t != "" ==> t[0] == if s == "" then more[0] else s[0];
    NoLeadingSpace(t);
  }

  lemma {:induction false} QuotedField(s: string, more: string, t: string)
    requires Readable(Quoted(s)) && (more == "" || more[0] == ',') && t == "\"" + s + "\"" + more
    ensures NextTok(t) == (s, Some(if more == "" then "" else more[1..]))
  {
    var after := "\"" + more;
    assert t[0] == '"' && t[1..] == s + after;
    NoLeadingSpace(t);
    SplitAt(s, '"', after);
    assert after[1..] == more;
    CommaNext(more);
  }

  lemma NoLeadingSpace(t: string)
    requires t != "" ==> !IsSpace(t[0])
    ensures SkipSpace(t) == t
  {
  }

  lemma CommaNext(more: string)
    requires more == "" || more[0] == ','
    ensures SkipNextComma(Some(more)) == Some(if more == "" then "" else more[1..])
  {
  }

  /** One field is read back whole, and the cursor stands behind its comma. */
  lemma {:induction false} OneField(f: Field, more: string, t: string)
    requires Readable(f) && (more == "" || more[0] == ',') && t == Render(f) + more
    ensures NextTok(t).0 == f.text
    ensures more != "" ==> NextTok(t).1 == Some(more[1..])
  {
    match f
    case Bare(s) => BareField(s, more, t);
    case Quoted(s) => QuotedField(s, more, t);
  }

  lemma {:induction false} TokensCons(t: string, n: nat, tok: string, rest: Option<string>, toks: seq<string>)
    requires NextTok(t) == (tok, rest) && Tokens(rest, n) == Some(toks)
    ensures Tokens(Some(t), n + 1) == Some([tok] + toks)
  {
  }

  lemma {:induction false} FirstField(fields: seq<Field>, n: nat) returns (tail: Option<string>)
    requires fields != [] && Readable(fields[0])
    ensures |fields| > 1 ==> tail == Some(Join(fields[1..]))
    ensures Tokens(tail, n) != None ==>
      Tokens(Some(Join(fields)), n + 1) == Some([fields[0].text] + Tokens(tail, n).value)
  {
    var more := if |fields| == 1 then "" else "," + Join(fields[1..]);
    var t := Join(fields);
    assert t == Render(fields[0]) + more;
    OneField(fields[0], more, t);
    if |fields| > 1 {
      assert more[1..] == Join(fields[1..]);
    }
    tail := NextTok(t).1;
    if Tokens(tail, n) != None {
      TokensCons(t, n, fields[0].text, tail, Tokens(tail, n).value);
    }
  }

  /** Any list of readable fields is read back exactly. */
  lemma {:induction false} JoinRoundTrip(fields: seq<Field>)
    requires forall i :: 0 <= i < |fields| ==> Readable(fields[i])
    ensures Tokens(Some(Join(fields)), |fields|) == Some(Texts(fields))
  {
    if fields != [] {
      var rest := fields[1..];
      var tail := FirstField(fields, |rest|);
      if rest != [] {
        JoinRoundTrip(rest);
      }
    }
  }

  lemma {:induction false} LeadingSpace(t: string, n: nat)
    ensures Tokens(Some(" " + t), n) == Tokens(Some(t), n)
  {
    assert (" " + t)[1..] == t;
  }

  lemma {:induction false} AfterPrefix(prefix: string, rest: string)
    requires ':' !in prefix
    ensures Start("+" + prefix + ":" + rest) == Some(rest)
  {
    var p := "+" + prefix;
    SplitAt(p, ':', ":" + rest);
    assert p + ":" + rest == p + (":" + rest);
    assert (":" + rest)[1..] == rest;
  }

  /** Blanks of any of the six kinds before a field do not matter. */
  lemma {:induction false} BlanksIgnored(blanks: string, t: string)
    requires forall i :: 0 <= i < |blanks| ==> blanks[i] in " \t\n\U{000b}\U{000c}\r"
    ensures NextTok(blanks + t) == NextTok(t)
  {
    if blanks == "" {
      assert blanks + t == t;
    } else {
      assert (blanks + t)[1..] == blanks[1..] + t;
      BlanksIgnored(blanks[1..], t);
    }
  }

  lemma {:induction false} CommaBehind(junk: string, more: string)
    requires ',' !in junk
    ensures SkipNextComma(Some(junk + ("," + more))) == Some(more)
  {
    FindAbsent(junk, ',', "," + more);
    assert (junk + ("," + more))[|junk| + 1..] == more;
  }

  /** What stands between a closing quote and the next comma is passed over. */
  lemma {:induction false} JunkSkipped(s: string, junk: string, more: string)
    requires '"' !in s && ',' !in junk
    ensures var after := "\"" + (junk + ("," + more));
            NextTok("\"" + (s + after)) == (s, Some(more))
  {
    hide Find, Split, SkipNextComma;
    var rest := junk + ("," + more);
    var after := "\"" + rest;
    var t := "\"" + (s + after);
    assert t[0] == '"' && t[1..] == s + after && after[1..] == rest;
    NoLeadingSpace(t);
    SplitAt(s, '"', after);
    CommaBehind(junk, more);
  }

  lemma {:induction false} NoColon(line: string)
    requires ':' !in line
    ensures Start(line) == None
  {
    FindAbsent(line, ':', "");
    assert line + "" == line;
  }

  lemma {:induction false} TokensFail(t: string, n: nat)
    requires Tokens(NextTok(t).1, n) == None
    ensures Tokens(Some(t), n + 1) == None
  {
  }

  lemma {:induction false} FieldAlone(f: Field)
    requires Readable(f)
    ensures NextTok(Render(f)) == (f.text, if f.Bare? then None else Some(""))
    ensures NextTok("") == ("", None)
  {
    assert Render(f) == Render(f) + "";
    match f
    case Bare(s) => BareField(s, "", Render(f));
    case Quoted(s) => QuotedField(s, "", Render(f));
  }

  lemma {:induction false} LastField(f: Field)
    requires Readable(f)
    ensures Tokens(Some(Render(f)), 2) == if f.Bare? then None else Some([f.text, ""])
  {
    hide NextTok, Readable, Render;
    FieldAlone(f);
    if f.Bare? {
      assert Tokens(None, 1) == None;
      TokensFail(Render(f), 1);
    } else {
      TokensCons("", 0, "", None, []);
      assert [""] + [] == [""] && [f.text] + [""] == [f.text, ""];
      TokensCons(Render(f), 1, f.text, Some(""), [""]);
    }
  }

  /** One call more than there are fields: it fails behind a bare field, but behind a quoted one it
      hands out an empty field that is not there. */
  lemma {:induction false} OneCallMore(fields: seq<Field>)
    requires fields != [] && forall i :: 0 <= i < |fields| ==> Readable(fields[i])
    ensures Tokens(Some(Join(fields)), |fields| + 1)
         == if fields[|fields| - 1].Bare? then None else Some(Texts(fields) + [""])
  {
    hide NextTok, Readable, Render, Tokens;
    var f, rest := fields[0], fields[1..];
    if rest == [] {
      LastField(f);
      assert Join(fields) == Render(f) && fields[|fields| - 1] == f;
      assert Texts(fields) == [f.text] + Texts(rest) && Texts(rest) == [];
      assert Texts(fields) + [""] == [f.text, ""];
    } else {
      var more := "," + Join(rest);
      assert more[1..] == Join(rest);
      OneField(f, more, Join(fields));
      OneCallMore(rest);
      assert rest[|rest| - 1] == fields[|fields| - 1];
      if rest[|rest| - 1].Bare? {
        TokensFail(Join(fields), |rest| + 1);
      } else {
        TokensCons(Join(fields), |rest| + 1, f.text, Some(Join(rest)), Texts(rest) + [""]);
      }
      assert [f.text] + (Texts(rest) + [""]) == Texts(fields) + [""];
    }
  }

  /** A response line "+PREFIX: " with its fields: at_tok_start and then one call of
      at_tok_nextstr for each field give back exactly the fields. */
  lemma {:induction false} ResponseRoundTrip(prefix: string, fields: seq<Field>)
    requires ':' !in prefix && forall i :: 0 <= i < |fields| ==> Readable(fields[i])
    ensures var rest := Start("+" + prefix + ":" + (" " + Join(fields)));
            rest != None && Tokens(rest, |fields|) == Some(Texts(fields))
  {
    AfterPrefix(prefix, " " + Join(fields));
    LeadingSpace(Join(fields), |fields|);
    JoinRoundTrip(fields);
  }

  // ---------- on the line itself ----------

  class Line {
    const buf: array<char>
    var cur: Option<nat>

    /** The line ends with its last character, and the text after the cursor holds no terminator. */
    ghost predicate Valid()
      reads this, buf
    {
      && buf.Length > 0 && buf[buf.Length - 1] == NUL
      && (cur != None ==> cur.value < buf.Length && NUL !in buf[cur.value..buf.Length - 1])
    }

    ghost function Rest(): Option<string>
      requires Valid()
      reads this, buf
    {
      if cur == None then None else Some(buf[cur.value..buf.Length - 1])
    }

    constructor (line: string)
      requires NUL !in line
      ensures Valid() && Rest() == Some(line) && fresh(buf)
    {
      buf := new char[|line| + 1](i => if 0 <= i < |line| then line[i] else NUL);
      cur := Some(0);
      new;
      assert buf[0..buf.Length - 1] == line;
    }

    /** The cursor goes on to the first c, or to the end of the line. */
    method Seek(from: nat, c: char) returns (p: nat)
      requires Valid() && from < buf.Length && NUL !in buf[from..buf.Length - 1] && c != NUL
      ensures from <= p < buf.Length && p - from == Find(buf[from..buf.Length - 1], c)
    {
      p := from;
      while buf[p] != NUL && buf[p] != c
        invariant from <= p < buf.Length
        invariant Find(buf[from..buf.Length - 1], c) == p - from + Find(buf[p..buf.Length - 1], c)
        decreases buf.Length - p
      {
        assert buf[p..buf.Length - 1][1..] == buf[p + 1..buf.Length - 1];
        p := p + 1;
      }
      if p < buf.Length - 1 {
        assert buf[p] == buf[from..buf.Length - 1][p - from];
      }
    }

    /** at_tok_start. */
    method TokStart() returns (ok: bool)
      requires Valid()
      modifies this`cur
      ensures Valid()
      ensures old(Rest()) == None ==> !ok && cur == None
      ensures old(Rest()) != None ==> Rest() == Start(old(Rest()).value) && (ok <==> Rest() != None)
    {
      if cur == None {
        return false;
      }
      ghost var t := Rest().value;
      var p := Seek(cur.value, ':');
      if buf[p] == NUL {
        cur := None;
        return false;
      }
      assert buf[p + 1..buf.Length - 1] == t[p - cur.value + 1..];
      cur := Some(p + 1);
      return true;
    }

    method SkipWhiteSpace()
      requires Valid() && cur != None
      modifies this`cur
      ensures Valid() && cur != None && cur.value >= old(cur).value
      ensures Rest().value == SkipSpace(old(Rest()).value)
    {
      while buf[cur.value] != NUL && IsSpace(buf[cur.value])
        invariant Valid() && cur != None && cur.value >= old(cur).value
        invariant SkipSpace(Rest().value) == SkipSpace(old(Rest()).value)
        decreases buf.Length - cur.value
      {
        ghost var t := Rest().value;
        assert buf[cur.value + 1..buf.Length - 1] == t[1..];
        cur := Some(cur.value + 1);
      }
    }

    method SkipComma()
      requires Valid() && cur != None
      modifies this`cur
      ensures Valid() && cur != None && cur.value >= old(cur).value
      ensures Rest() == SkipNextComma(old(Rest()))
    {
      hide Find;
      ghost var t := Rest().value;
      var p := Seek(cur.value, ',');
      ghost var n := p - cur.value;
      assert n == Find(t, ',');
      assert p < buf.Length - 1 ==> t[n] == buf[p] != NUL;
      if buf[p] == ',' {
        assert n < |t| && buf[p + 1..buf.Length - 1] == t[n + 1..];
        p := p + 1;
      } else {
        assert n == |t| && buf[p..buf.Length - 1] == "";
      }
      cur := Some(p);
    }

    /** strsep: the token starts at `start` and ends with a terminator; everything before it and
        everything behind that terminator stays as it was. */
    method Strsep(sep: char) returns (start: nat, ghost end: nat)
      requires Valid() && cur != None && sep != NUL
      modifies this`cur, buf
      ensures Valid() && start == old(cur).value && start <= end < buf.Length && buf[end] == NUL
      ensures (buf[start..end], Rest()) == Split(old(Rest()).value, sep)
      ensures forall i :: 0 <= i < buf.Length && i != end ==> buf[i] == old(buf[i])
      ensures cur != None ==> end < cur.value
    {
      start := cur.value;
      ghost var t := Rest().value;
      var p := Seek(start, sep);
      end := p;
      assert buf[start..p] == t[..p - start];
      if buf[p] == NUL {
        cur := None;
      } else {
        assert buf[p + 1..buf.Length - 1] == t[p - start + 1..];
        buf[p] := NUL;
        cur := Some(p + 1);
      }
    }

    /** The next token. It lies between the old cursor and the new one, so later calls, which
        write only behind the cursor, never change it. */
    method NextToken() returns (start: nat, ghost end: nat)
      requires Valid() && cur != None
      modifies this`cur, buf
      ensures Valid() && old(cur).value <= start <= end < buf.Length && buf[end] == NUL
      ensures (buf[start..end], Rest()) == NextTok(old(Rest()).value)
      ensures forall i :: 0 <= i < buf.Length && i != end ==> buf[i] == old(buf[i])
      ensures cur != None ==> end < cur.value
    {
      SkipWhiteSpace();
      if buf[cur.value] == '"' {
        start, end := QuotedToken();
      } else {
        start, end := Strsep(',');
      }
    }

    method QuotedToken() returns (start: nat, ghost end: nat)
      requires Valid() && cur != None && buf[cur.value] == '"'
      modifies this`cur, buf
      ensures Valid() && old(cur).value <= start <= end < buf.Length && buf[end] == NUL
      ensures var (tok, rest) := Split(old(Rest()).value[1..], '"');
              buf[start..end] == tok && Rest() == SkipNextComma(rest)
      ensures forall i :: 0 <= i < buf.Length && i != end ==> buf[i] == old(buf[i])
      ensures cur != None ==> end < cur.value
    {
      ghost var u := Rest().value;
      cur := Some(cur.value + 1);
      assert u[1..] == Rest().value;
      start, end := Strsep('"');
      if cur != None {
        SkipComma();
      }
    }

    /** at_tok_nextstr. The token stands in front of the new cursor, and nothing in front of the
        old cursor changes, so tokens handed out earlier stay what they were. */
    method NextStr() returns (ok: bool, start: nat, ghost tok: string)
      requires Valid()
      modifies this`cur, buf
      ensures Valid() && (ok <==> old(cur) != None)
      ensures ok ==> (tok, Rest()) == NextTok(old(Rest()).value) && Holds(start, tok)
      ensures ok && cur != None ==> old(cur).value <= start + |tok| < cur.value
      ensures !ok ==> cur == None
      ensures forall i :: 0 <= i < buf.Length && (old(cur) == None || i < old(cur).value) ==> buf[i] == old(buf[i])
    {
      if cur == None {
        return false, 0, "";
      }
      ghost var end;
      start, end := NextToken();
      tok := buf[start..end];
      ok := true;
    }

    /** The token `tok` stands at `start`, with its terminator. */
    ghost predicate Holds(start: nat, tok: string)
      reads buf
    {
      && start + |tok| < buf.Length && buf[start + |tok|] == NUL
      && forall j :: 0 <= j < |tok| ==> buf[start + j] == tok[j]
    }

    /** All tokens so far stand where they were handed out, in front of the cursor. */
    ghost predicate Standing(starts: seq<nat>, toks: seq<string>)
      reads this, buf
    {
      |starts| == |toks| && forall k :: 0 <= k < |toks| ==>
        Holds(starts[k], toks[k]) && (cur != None ==> starts[k] + |toks[k]| < cur.value)
    }

    /** One more token leaves the others standing. */
    method NextField(starts: seq<nat>, ghost toks: seq<string>) returns (ok: bool, more: seq<nat>, ghost tok: string)
      requires Valid() && Standing(starts, toks)
      modifies this`cur, buf
      ensures Valid() && (ok <==> old(cur) != None)
      ensures ok ==> (tok, Rest()) == NextTok(old(Rest()).value) && Standing(more, toks + [tok])
      ensures ok ==> starts <= more
    {
      more, tok := starts, "";
      ghost var before := cur;
      var start;
      ok, start, tok := NextStr();
      if ok {
        forall k | 0 <= k < |toks|
          ensures Holds(starts[k], toks[k]) && (cur != None ==> starts[k] + |toks[k]| < cur.value)
        {
          assert starts[k] + |toks[k]| < before.value;
        }
        more := starts + [start];
      }
    }

    /** n calls of at_tok_nextstr: they fail as one, or hand out the n fields, and all of these still
        stand in the line at the end. */
    method ReadFields(n: nat) returns (ok: bool, starts: seq<nat>, ghost toks: seq<string>)
      requires Valid()
      modifies this`cur, buf
      ensures Valid() && (ok <==> Tokens(old(Rest()), n) != None)
      ensures ok ==> Tokens(old(Rest()), n) == Some(toks) && |toks| == n && Standing(starts, toks)
    {
      hide Prefixed, NextTok, Holds;
      ghost var goal := Tokens(Rest(), n);
      starts, toks := [], [];
      PrefixedEnds(goal, toks);
      for m := 0 to n
        invariant Valid() && |toks| == m && Standing(starts, toks)
        invariant goal == Prefixed(toks, Tokens(Rest(), n - m))
      {
        ghost var rest := Rest();
        ghost var tok;
        ok, starts, tok := NextField(starts, toks);
        if !ok {
          PrefixedEnds(None, toks);
          return false, starts, toks;
        }
        PrefixedMore(toks, rest.value, n - m);
        toks := toks + [tok];
      }
      PrefixedEnds(None, toks);
      ok := true;
    }
  }

  function Prefixed(toks: seq<string>, more: Option<seq<string>>): Option<seq<string>> {
    if more == None then None else Some(toks + more.value)
  }

  lemma PrefixedEnds(all: Option<seq<string>>, toks: seq<string>)
    ensures Prefixed([], all) == all && Prefixed(toks, Some([])) == Some(toks) && Prefixed(toks, None) == None
  {
    assert toks + [] == toks;
    assert all != None ==> [] + all.value == all.value;
  }

  lemma PrefixedMore(toks: seq<string>, t: string, n: nat)
    requires n > 0
    ensures var (tok, rest) := NextTok(t);
            Prefixed(toks, Tokens(Some(t), n)) == Prefixed(toks + [tok], Tokens(rest, n - 1))
  {
    var (tok, rest) := NextTok(t);
    var more := Tokens(rest, n - 1);
    if more != None {
      TokensCons(t, n - 1, tok, rest, more.value);
      assert toks + ([tok] + more.value) == toks + [tok] + more.value;
    }
  }
}
