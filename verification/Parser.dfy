/** The parser of init's configuration files: a lexer that rewrites the text in place, and the
    line dispatch it drives. */
module Lexer {
  import opened Common

  const SVC_MAXARGS: nat := 64

  predicate IsBlank(c: char) {
    c == ' ' || c == '\t' || c == '\r'
  }

  // ---------- tokens of a text ----------

  /** `newline` says that a line end came with the word and is to be reported next. */
  datatype Token =
    | EndOfFile
    | NewLine(rest: string)
    | Word(text: string, rest: string, newline: bool)

  function SkipLine(t: string): (r: string)
    ensures |r| <= |t|
  {
    if t == "" || t[0] == '\n' then t else SkipLine(t[1..])
  }

  function SkipIndent(t: string): (r: string)
    ensures |r| <= |t|
  {
    if t != "" && (t[0] == ' ' || t[0] == '\t') then SkipIndent(t[1..]) else t
  }

  function NextToken(t: string): (k: Token)
    ensures k.NewLine? ==> |k.rest| < |t|
    ensures k.Word? ==> |k.rest| < |t|
  {
    if t == "" then EndOfFile
    else if t[0] == '\n' then NewLine(t[1..])
    else if IsBlank(t[0]) then NextToken(t[1..])
    else if t[0] == '#' then NewLine(SkipLine(t[1..]))
    else WordFrom(t, "")
  }

  /** What a backslash before `t` writes, and the text to go on with. The escapes \n, \r, \t and
      \\ write their character but leave the letter to be read again. */
  function Escape(t: string): (r: (string, string))
    ensures |r.1| <= |t|
  {
    if t == "" then ("", "")
    else if t[0] == 'n' then ("\n", t)
    else if t[0] == 'r' then ("\r", t)
    else if t[0] == 't' then ("\t", t)
    else if t[0] == '\\' then ("\\", t)
    else if t[0] == '\r' && !(|t| > 1 && t[1] == '\n') then ("", t[1..])
    else if t[0] == '\r' || t[0] == '\n' then ("", SkipIndent(t[1..]))
    else ([t[0]], t[1..])
  }

  /** The word that continues with `t` when `acc` has been written so far. */
  function WordFrom(t: string, acc: string): (k: Token)
    ensures !k.NewLine? && (k.Word? && t != "" ==> |k.rest| < |t|) && (k.Word? ==> |k.rest| <= |t|)
    decreases |t|
  {
    if t == "" then Word(acc, "", false)
    else if IsBlank(t[0]) then Word(acc, t[1..], false)
    else if t[0] == '\n' then Word(acc, t[1..], true)
    else if t[0] == '"' then Quoted(t[1..], acc)
    else if t[0] == '\\' then WordFrom(Escape(t[1..]).1, acc + Escape(t[1..]).0)
    else WordFrom(t[1..], acc + [t[0]])
  }

  function Quoted(t: string, acc: string): (k: Token)
    ensures !k.NewLine? && (k.Word? ==> |k.rest| <= |t|)
    decreases |t|
  {
    if t == "" then EndOfFile
    else if t[0] == '"' then WordFrom(t[1..], acc)
    else Quoted(t[1..], acc + [t[0]])
  }

  // ---------- what parse_config makes of the tokens ----------

  datatype Event = EndSection | Section(args: seq<string>) | Line(args: seq<string>)

  /** The two keywords that open a section. */
  predicate IsSection(keyword: string) {
    keyword == "service" || keyword == "on"
  }

  function Dispatch(args: seq<string>): seq<Event> {
    if args == [] then []
    else if IsSection(args[0]) then [EndSection, Section(args)]
    else [Line(args)]
  }

  function AddArg(args: seq<string>, s: string): seq<string> {
    if |args| < SVC_MAXARGS then args + [s] else args
  }

  /** `newline` is a line end still to be reported. Arguments of an unfinished last line are lost. */
  function Config(t: string, newline: bool, args: seq<string>): seq<Event>
    decreases |t|, newline
  {
    if newline then Dispatch(args) + Config(t, false, [])
    else
      match NextToken(t)
      case EndOfFile => [EndSection]
      case NewLine(rest) => Dispatch(args) + Config(rest, false, [])
      case Word(s, rest, nl) => Config(rest, nl, AddArg(args, s))
  }

  // ---------- round trip ----------

  function RenderWord(w: string): string {
    "\"" + w + "\""
  }

  function RenderLine(words: seq<string>): string {
    if words == [] then "\n"
    else if |words| == 1 then RenderWord(words[0]) + "\n"
    else RenderWord(words[0]) + " " + RenderLine(words[1..])
  }

  function Render(lines: seq<seq<string>>): string {
    if lines == [] then "" else RenderLine(lines[0]) + Render(lines[1..])
  }

  function FirstArgs(words: seq<string>): seq<string> {
    if |words| <= SVC_MAXARGS then words else words[..SVC_MAXARGS]
  }

  function Expected(lines: seq<seq<string>>): seq<Event> {
    if lines == [] then [] else Dispatch(FirstArgs(lines[0])) + Expected(lines[1..])
  }

  predicate Quotable(w: string) {
    '"' !in w && NUL !in w
  }

  lemma {:induction false} QuotedWhole(w: string, acc: string, more: string)
    requires Quotable(w)
    ensures Quoted(w + ("\"" + more), acc) == WordFrom(more, acc + w)
  {
    var t := w + ("\"" + more);
    if w == "" {
      assert t == "\"" + more && t[1..] == more && acc + w == acc;
    } else {
      assert t[1..] == w[1..] + ("\"" + more);
      assert acc + [w[0]] + w[1..] == acc + w;
      QuotedWhole(w[1..], acc + [w[0]], more);
    }
  }

  /** A quoted word is read back whole, whatever it contains besides quotes. */
  lemma {:induction false} WordWhole(w: string, more: string)
    requires Quotable(w)
    ensures NextToken(RenderWord(w) + more) == WordFrom(more, w)
  {
    var t := RenderWord(w) + more;
    assert t[1..] == w + ("\"" + more);
    QuotedWhole(w, "", more);
    assert "" + w == w;
  }

  lemma {:induction false} WordThenBlank(w: string, more: string)
    requires Quotable(w)
    ensures NextToken(RenderWord(w) + (" " + more)) == Word(w, more, false)
  {
    WordWhole(w, " " + more);
    assert (" " + more)[1..] == more;
  }

  lemma {:induction false} WordThenLineEnd(w: string, more: string)
    requires Quotable(w)
    ensures NextToken(RenderWord(w) + ("\n" + more)) == Word(w, more, true)
  {
    WordWhole(w, "\n" + more);
    assert ("\n" + more)[1..] == more;
  }

  function AddArgs(args: seq<string>, words: seq<string>): seq<string>
    decreases |words|
  {
    if words == [] then args else AddArgs(AddArg(args, words[0]), words[1..])
  }

  lemma {:induction false} LineWhole(words: seq<string>, args: seq<string>, more: string)
    requires forall i :: 0 <= i < |words| ==> Quotable(words[i])
    ensures Config(RenderLine(words) + more, false, args) == Dispatch(AddArgs(args, words)) + Config(more, false, [])
  {
    var t := RenderLine(words) + more;
    if words == [] {
      assert t[0] == '\n' && t[1..] == more;
    } else if |words| == 1 {
      assert t == RenderWord(words[0]) + ("\n" + more);
      WordThenLineEnd(words[0], more);
      assert words[1..] == [];
    } else {
      var rest := RenderLine(words[1..]) + more;
      assert t == RenderWord(words[0]) + (" " + rest);
      WordThenBlank(words[0], rest);
      LineWhole(words[1..], AddArg(args, words[0]), more);
    }
  }

  lemma {:induction false} AddArgsFirst(args: seq<string>, words: seq<string>)
    requires |args| <= SVC_MAXARGS
    ensures AddArgs(args, words) == FirstArgs(args + words)
    decreases |words|
  {
    if words == [] {
      assert args + words == args;
    } else {
      AddArgsFirst(AddArg(args, words[0]), words[1..]);
      assert args + [words[0]] + words[1..] == args + words;
      if |args| == SVC_MAXARGS {
        assert (args + words[1..])[..SVC_MAXARGS] == args == (args + words)[..SVC_MAXARGS];
      }
    }
  }

  predicate AllQuotable(lines: seq<seq<string>>) {
    forall i, j :: 0 <= i < |lines| && 0 <= j < |lines[i]| ==> Quotable(lines[i][j])
  }

  lemma Assoc<T>(a: seq<T>, b: seq<T>, c: seq<T>)
    ensures (a + b) + c == a + (b + c)
  {
  }

  lemma {:induction false} FirstLineWhole(words: seq<string>, more: string)
    requires forall i :: 0 <= i < |words| ==> Quotable(words[i])
    ensures Config(RenderLine(words) + more, false, []) == Dispatch(FirstArgs(words)) + Config(more, false, [])
  {
    LineWhole(words, [], more);
    AddArgsFirst([], words);
    assert [] + words == words;
  }

  lemma {:induction false} LinesWhole(lines: seq<seq<string>>, more: string)
    requires AllQuotable(lines)
    ensures Config(Render(lines) + more, false, []) == Expected(lines) + Config(more, false, [])
  {
    if lines == [] {
      assert Render(lines) + more == more;
      assert Expected(lines) + Config(more, false, []) == Config(more, false, []);
    } else {
      Assoc(RenderLine(lines[0]), Render(lines[1..]), more);
      FirstLineWhole(lines[0], Render(lines[1..]) + more);
      LinesWhole(lines[1..], more);
      Assoc(Dispatch(FirstArgs(lines[0])), Expected(lines[1..]), Config(more, false, []));
    }
  }

  /** Any lines of quoted words come back as the same argument lists, of each line at most the
      first 64; the line end that `read_file` adds to every file makes no difference. */
  lemma {:induction false} ConfigRoundTrip(lines: seq<seq<string>>)
    requires AllQuotable(lines)
    ensures Config(Render(lines), false, []) == Expected(lines) + [EndSection]
    ensures Config(Render(lines) + "\n", false, []) == Expected(lines) + [EndSection]
  {
    LinesWhole(lines, "");
    assert Render(lines) + "" == Render(lines);
    LinesWhole(lines, "\n");
    assert "\n"[1..] == "";
    assert Config("\n", false, []) == Dispatch([]) + Config("", false, []);
  }

  /** Which calls a line leads to. */
  lemma DispatchExactly(args: seq<string>)
    ensures args == [] ==> Dispatch(args) == []
    ensures args != [] && (args[0] == "service" || args[0] == "on") ==> Dispatch(args) == [EndSection, Section(args)]
    ensures args != [] && args[0] != "service" && args[0] != "on" ==> Dispatch(args) == [Line(args)]
  {
  }

  lemma {:induction false} RenderJoin(a: seq<seq<string>>, b: seq<seq<string>>)
    ensures Render(a + b) == Render(a) + Render(b)
  {
    if a == [] {
      assert a + b == b;
    } else {
      assert (a + b)[0] == a[0] && (a + b)[1..] == a[1..] + b;
      RenderJoin(a[1..], b);
      Assoc(RenderLine(a[0]), Render(a[1..]), Render(b));
    }
  }

  /** One line among others, each word in quotes: a line that begins with "service" or "on" ends the
      section before it and opens one with its first 64 words, any other line with words goes to the
      section that is open, and an empty line goes nowhere. The lines before and after it lead to the
      calls they lead to alone, and the end of the text ends the last section. */
  lemma {:induction false} LineAmongOthers(before: seq<seq<string>>, words: seq<string>, after: seq<seq<string>>)
    requires AllQuotable(before) && AllQuotable([words]) && AllQuotable(after)
    ensures var whole := Config(Render(before + [words] + after), false, []);
            var first, last := Config(Render(before), false, []), Config(Render(after), false, []);
            var args := if |words| > 64 then words[..64] else words;
            var calls := if words == [] then []
                         else if words[0] == "service" || words[0] == "on" then [EndSection, Section(args)]
                         else [Line(args)];
            && first != [] && first[|first| - 1] == EndSection
            && whole == first[..|first| - 1] + calls + last
    ensures Config("", false, []) == [EndSection]
  {
    hide Config, Dispatch, FirstArgs;
    var line, rest := RenderLine(words), Render(after);
    var args := if |words| > 64 then words[..64] else words;
    OneLine(words, rest);
    DispatchExactly(args);
    ConfigRoundTrip(before);
    LinesWhole(before, line + rest);
    RenderJoin([words], after);
    RenderJoin(before, [words] + after);
    RenderOne(words);
    assert before + [words] + after == before + ([words] + after);
    Assoc(Expected(before), Dispatch(args), Config(rest, false, []));
    NoText();
  }

  lemma RenderOne(words: seq<string>)
    ensures Render([words]) == RenderLine(words)
  {
    assert [words][1..] == [];
    assert RenderLine(words) + "" == RenderLine(words);
  }

  lemma OneLine(words: seq<string>, more: string)
    requires AllQuotable([words])
    ensures var args := if |words| > 64 then words[..64] else words;
            Config(RenderLine(words) + more, false, []) == Dispatch(args) + Config(more, false, [])
  {
    forall i | 0 <= i < |words|
      ensures Quotable(words[i])
    {
      assert Quotable([words][0][i]);
    }
    FirstLineWhole(words, more);
  }

  lemma NoText()
    ensures Config("", false, []) == [EndSection]
  {
  }

  // ---------- words without quotes, and comments ----------

  predicate Plain(w: string) {
    forall i :: 0 <= i < |w| ==> w[i] !in " \t\r\n\"\\"
  }

  lemma {:induction false} PlainRead(w: string, acc: string, more: string)
    requires Plain(w)
    ensures WordFrom(w + more, acc) == WordFrom(more, acc + w)
  {
    if w == "" {
      assert w + more == more && acc + w == acc;
    } else {
      assert (w + more)[1..] == w[1..] + more;
      assert acc + [w[0]] + w[1..] == acc + w;
      PlainRead(w[1..], acc + [w[0]], more);
    }
  }

  /** A word without quotes and backslashes is read whole up to the next blank or line end, however
      many blanks stand before it; only at its start is '#' no part of it. */
  lemma {:induction false} PlainWord(blanks: string, w: string, stop: char, more: string)
    requires forall i :: 0 <= i < |blanks| ==> blanks[i] in " \t\r"
    requires Plain(w) && w != "" && w[0] != '#' && stop in " \t\r\n"
    ensures NextToken(blanks + (w + ([stop] + more))) == Word(w, more, stop == '\n')
    decreases |blanks|
  {
    var t := w + ([stop] + more);
    if blanks == "" {
      assert blanks + t == t && t[0] == w[0];
      PlainRead(w, "", [stop] + more);
      assert "" + w == w && ([stop] + more)[1..] == more;
    } else {
      assert (blanks + t)[1..] == blanks[1..] + t;
      PlainWord(blanks[1..], w, stop, more);
    }
  }

  lemma {:induction false} CommentSkipped(comment: string, more: string)
    requires '\n' !in comment
    ensures SkipLine(comment + ("\n" + more)) == "\n" + more
  {
    var t := comment + ("\n" + more);
    if comment == "" {
      assert t == "\n" + more;
    } else {
      assert t[1..] == comment[1..] + ("\n" + more);
      CommentSkipped(comment[1..], more);
    }
  }

  /** A comment ends its line and leaves no trace, whatever it holds. */
  lemma {:induction false} CommentDropped(comment: string, more: string, args: seq<string>)
    requires '\n' !in comment
    ensures Config("#" + (comment + ("\n" + more)), false, args) == Config("\n" + more, false, args)
    ensures Config("\n" + more, false, args) == Dispatch(args) + Config(more, false, [])
  {
    var rest := "\n" + more;
    var t := "#" + (comment + rest);
    assert t[1..] == comment + rest && rest[1..] == more;
    CommentSkipped(comment, more);
    assert NextToken(t) == NewLine(rest) && NextToken(rest) == NewLine(more);
    assert [] + Config(more, false, []) == Config(more, false, []);
  }

  /** A last line without a line end is lost. */
  lemma {:induction false} UnfinishedLineLost(w: string, args: seq<string>)
    requires Quotable(w)
    ensures Config(RenderWord(w), false, args) == [EndSection]
  {
    WordWhole(w, "");
    assert RenderWord(w) + "" == RenderWord(w);
  }

  /** The letter of an escape for n, r or t is read again and stays in the word. */
  lemma EscapeKeepsLetter(c: char, rest: string, acc: string)
    requires c in "nrt"
    ensures var written := if c == 'n' then '\n' else if c == 'r' then '\r' else '\t';
            WordFrom("\\" + [c] + rest, acc) == WordFrom(rest, acc + [written, c])
  {
    var t := "\\" + [c] + rest;
    var written := if c == 'n' then '\n' else if c == 'r' then '\r' else '\t';
    assert t[1..] == [c] + rest && t[1..][1..] == rest;
    assert WordFrom(t, acc) == WordFrom(t[1..], acc + [written]);
    assert acc + [written] + [c] == acc + [written, c];
  }

  /** A backslash before a line end continues the word on the next line, without its indentation. */
  lemma {:induction false} LineContinued(indent: string, rest: string, acc: string)
    requires forall i :: 0 <= i < |indent| ==> indent[i] == ' ' || indent[i] == '\t'
    requires rest != "" ==> rest[0] != ' ' && rest[0] != '\t'
    ensures WordFrom("\\\n" + (indent + rest), acc) == WordFrom(rest, acc)
  {
    var t := "\\\n" + (indent + rest);
    assert t[1..] == "\n" + (indent + rest) && t[1..][1..] == indent + rest;
    IndentSkipped(indent, rest);
    assert acc + "" == acc;
  }

  lemma {:induction false} IndentSkipped(indent: string, rest: string)
    requires forall i :: 0 <= i < |indent| ==> indent[i] == ' ' || indent[i] == '\t'
    requires rest != "" ==> rest[0] != ' ' && rest[0] != '\t'
    ensures SkipIndent(indent + rest) == rest
  {
    if indent == "" {
      assert indent + rest == rest;
    } else {
      assert (indent + rest)[1..] == indent[1..] + rest;
      IndentSkipped(indent[1..], rest);
    }
  }

  /** The second of two backslashes is read again and starts an escape of its own. */
  lemma BackslashStartsAgain(rest: string, acc: string)
    ensures WordFrom("\\\\" + rest, acc) == WordFrom("\\" + rest, acc + "\\")
  {
    assert ("\\\\" + rest)[1..] == "\\" + rest;
  }

  /** An escaped line end with a carriage return ends the word and the line. */
  lemma EscapedReturnEndsWord(rest: string, acc: string)
    ensures WordFrom("\\\r\n" + rest, acc) == Word(acc, rest, true)
  {
    var t := "\\\r\n" + rest;
    assert t[1..] == "\r\n" + rest && t[1..][1..] == "\n" + rest && ("\n" + rest)[1..] == rest;
    assert acc + "" == acc;
  }
}

/** The same over the buffer: the lexer reads with one index and writes with another. */
module ParserCode {
  import opened Common
  import opened Lexer

  datatype TokenType = T_EOF | T_NEWLINE | T_TEXT

  class ParseState {
    const buf: array<char>
    /** The terminator of the text. */
    ghost const end: nat
    var ptr: nat
    var text: nat
    var nextNewline: bool
    /** The calls made to the line handlers. */
    var calls: seq<Event>

    constructor (data: array<char>, ghost size: nat)
      requires size < data.Length && data[size] == NUL && NUL !in data[..size]
      ensures Valid() && buf == data && end == size && ptr == 0 && !nextNewline && calls == []
    {
      buf, end := data, size;
      ptr, text, nextNewline, calls := 0, 0, false, [];
    }

    ghost predicate Valid()
      reads this, buf
    {
      ptr <= end < buf.Length && buf[end] == NUL && NUL !in buf[ptr..end]
    }

    /** The text still to be read. */
    ghost function Rest(): string
      requires Valid()
      reads this, buf
    {
      buf[ptr..end]
    }

    /** A word the lexer has returned: it lies behind the read position, at most its terminator
        being that of the text. */
    ghost predicate Held(i: nat, w: string)
      requires Valid()
      reads this, buf
    {
      && i + |w| <= ptr && (i + |w| < ptr || ptr == end)
      && buf[i..i + |w|] == w && buf[i + |w|] == NUL && NUL !in w
    }

    /** x is the read index, s the write index of the word that starts at `start`. */
    ghost predicate Writing(start: nat, s: nat, x: nat)
      reads buf
    {
      && start <= s <= x <= end < buf.Length && buf[end] == NUL
      && NUL !in buf[start..s] && NUL !in buf[x..end]
    }

    method Put(start: nat, s: nat, x: nat, c: char)
      requires start <= s < x <= end < buf.Length
      modifies buf
      ensures buf[start..s + 1] == old(buf[start..s]) + [c]
      ensures buf[..start] == old(buf[..start]) && buf[x..] == old(buf[x..])
      ensures buf[x..end] == old(buf[x..end])
    {
      buf[s] := c;
      assert buf[x..end] == buf[x..][..end - x];
    }

    /** Leaves everything before `from` and everything behind `to` as it was. */
    twostate predicate OnlyBetween(from: nat, to: nat)
      requires from <= to <= buf.Length
      reads buf
    {
      buf[..from] == old(buf[..from]) && buf[to..] == old(buf[to..])
    }

    method SkipComment(x0: nat) returns (x: nat)
      requires Valid() && ptr <= x0 <= end
      ensures x0 <= x <= end && buf[x..end] == SkipLine(buf[x0..end])
    {
      x := x0;
      while buf[x] != NUL && buf[x] != '\n'
        invariant x0 <= x <= end
        invariant SkipLine(buf[x..end]) == SkipLine(buf[x0..end])
        decreases end - x
      {
        assert buf[x..end][1..] == buf[x + 1..end];
        x := x + 1;
      }
    }

    method SkipBlanks(start: nat, s: nat, x0: nat) returns (x: nat)
      requires Writing(start, s, x0)
      ensures x0 <= x && Writing(start, s, x) && buf[x..end] == SkipIndent(buf[x0..end])
    {
      x := x0;
      while buf[x] == ' ' || buf[x] == '\t'
        invariant x0 <= x && Writing(start, s, x)
        invariant SkipIndent(buf[x..end]) == SkipIndent(buf[x0..end])
        decreases end - x
      {
        assert buf[x..end][1..] == buf[x + 1..end];
        x := x + 1;
      }
    }

    /** The characters up to the closing quote; false when there is none. */
    method CopyQuoted(start: nat, s0: nat, x0: nat) returns (closed: bool, s: nat, x: nat)
      requires Writing(start, s0, x0) && s0 < x0
      modifies buf
      ensures Writing(start, s, x) && x0 <= x && OnlyBetween(start, x)
      ensures old(Quoted(buf[x0..end], buf[start..s0]))
              == if closed then WordFrom(buf[x..end], buf[start..s]) else EndOfFile
      ensures closed ==> s < x
      ensures !closed ==> x == end
    {
      s, x := s0, x0;
      ghost var goal := Quoted(buf[x..end], buf[start..s]);
      while buf[x] != NUL && buf[x] != '"'
        invariant Writing(start, s, x) && s < x && x0 <= x && OnlyBetween(start, x)
        invariant Quoted(buf[x..end], buf[start..s]) == goal
        decreases end - x
      {
        s, x := CopyChar(start, s, x);
      }
      closed := buf[x] == '"';
      if closed {
        assert buf[x..end][1..] == buf[x + 1..end];
        x := x + 1;
      }
    }

    /** An escape that writes its character before the letter is read again. */
    method EscapeLetter(start: nat, s0: nat, x0: nat) returns (s: nat)
      requires Writing(start, s0, x0) && s0 < x0 < end && buf[x0] in "nrt\\"
      modifies buf
      ensures Writing(start, s, x0) && OnlyBetween(start, x0)
      ensures buf[start..s] == old(buf[start..s0]) + Lexer.Escape(old(buf[x0..end])).0
      ensures buf[x0..end] == Lexer.Escape(old(buf[x0..end])).1
    {
      ghost var t := buf[x0..end];
      var c := buf[x0];
      assert t[0] == c && Lexer.Escape(t).1 == t;
      var w := if c == 'n' then '\n' else if c == 'r' then '\r' else if c == 't' then '\t' else '\\';
      assert Lexer.Escape(t).0 == [w];
      Put(start, s0, x0, w);
      s := s0 + 1;
    }

    /** An escaped line end. */
    method EscapeLine(start: nat, s: nat, x0: nat) returns (x: nat)
      requires Writing(start, s, x0) && s < x0 < end && (buf[x0] == '\r' || buf[x0] == '\n')
      ensures Writing(start, s, x) && x0 <= x
      ensures Lexer.Escape(buf[x0..end]) == ("", buf[x..end])
    {
      ghost var t := buf[x0..end];
      assert t[0] == buf[x0] && t[1..] == buf[x0 + 1..end];
      assert x0 + 1 < end ==> t[1] == buf[x0 + 1];
      x := x0 + 1;
      if buf[x0] == '\n' || buf[x0 + 1] == '\n' {
        x := SkipBlanks(start, s, x0 + 1);
      }
    }

    /** The rest of an escape whose backslash has been read. */
    method EscapeAt(start: nat, s0: nat, x0: nat) returns (s: nat, x: nat)
      requires Writing(start, s0, x0) && s0 < x0
      modifies buf
      ensures Writing(start, s, x) && x0 <= x && OnlyBetween(start, x)
      ensures buf[start..s] == old(buf[start..s0]) + Lexer.Escape(old(buf[x0..end])).0
      ensures buf[x..end] == Lexer.Escape(old(buf[x0..end])).1
    {
      s, x := s0, x0;
      var c := buf[x];
      if c == NUL {
        assert buf[x..end] == "";
      } else if c in "nrt\\" {
        s := EscapeLetter(start, s, x);
      } else if c == '\r' || c == '\n' {
        x := EscapeLine(start, s, x);
      } else {
        ghost var t := buf[x..end];
        assert t[0] == c && Lexer.Escape(t) == ([c], t[1..]);
        s, x := CopyChar(start, s, x);
      }
    }

    /** textdone: ends the word at s and moves on to x. */
    method TextDone(start: nat, s: nat, x: nat, newline: bool)
      requires Writing(start, s, x) && (s < x || x == end)
      modifies buf, `ptr, `text, `nextNewline
      ensures Valid() && ptr == x && text == start && nextNewline == newline && OnlyBetween(start, x)
      ensures Rest() == old(buf[x..end]) && Held(start, old(buf[start..s]))
    {
      buf[s] := NUL;
      ptr, text, nextNewline := x, start, newline;
    }

    method CopyChar(start: nat, s0: nat, x0: nat) returns (s: nat, x: nat)
      requires Writing(start, s0, x0) && x0 < end
      modifies buf
      ensures Writing(start, s, x) && s == s0 + 1 && x == x0 + 1 && OnlyBetween(start, x)
      ensures buf[start..s] == old(buf[start..s0]) + [old(buf[x0])] && buf[x..end] == old(buf[x0..end])[1..]
    {
      Put(start, s0, x0 + 1, buf[x0]);
      s, x := s0 + 1, x0 + 1;
    }

    /** One turn of the word loop on a character that does not end the word; false at an
        unterminated quote. */
    method Continue(start: nat, s0: nat, x0: nat) returns (ok: bool, s: nat, x: nat)
      requires Writing(start, s0, x0) && x0 < end && !IsBlank(buf[x0]) && buf[x0] != '\n'
      modifies buf
      ensures Writing(start, s, x) && x0 < x && OnlyBetween(start, x)
      ensures old(WordFrom(buf[x0..end], buf[start..s0]))
              == if ok then WordFrom(buf[x..end], buf[start..s]) else EndOfFile
      ensures !ok ==> x == end
    {
      ghost var t, acc := buf[x0..end], buf[start..s0];
      assert t[0] == buf[x0] && t[1..] == buf[x0 + 1..end];
      ok := true;
      if buf[x0] == '"' {
        ok, s, x := CopyQuoted(start, s0, x0 + 1);
      } else if buf[x0] == '\\' {
        s, x := EscapeAt(start, s0, x0 + 1);
      } else {
        s, x := CopyChar(start, s0, x0);
      }
    }

    /** The character at x ends the word. */
    method EndWord(start: nat, s: nat, x: nat)
      requires Writing(start, s, x) && (x == end || IsBlank(buf[x]) || buf[x] == '\n')
      modifies buf, `ptr, `text, `nextNewline
      ensures Valid() && x <= ptr && OnlyBetween(start, ptr)
      ensures var k := old(WordFrom(buf[x..end], buf[start..s]));
              k.Word? && Held(start, k.text) && Rest() == k.rest && nextNewline == k.newline && text == start
    {
      assert x < end ==> buf[x..end][0] == buf[x] && buf[x..end][1..] == buf[x + 1..end];
      if buf[x] == NUL {
        TextDone(start, s, x, false);
      } else {
        TextDone(start, s, x + 1, buf[x] == '\n');
      }
    }

    /** The text part of next_token; false at an unterminated quote. */
    method ReadWord(start: nat) returns (ok: bool)
      requires Valid() && ptr <= start < end && !nextNewline
      modifies buf, `ptr, `text, `nextNewline
      ensures Valid() && start <= ptr && OnlyBetween(start, ptr)
      ensures old(WordFrom(buf[start..end], "")).Word? == ok
      ensures !ok ==> ptr == end && !nextNewline
      ensures ok ==> var k := old(WordFrom(buf[start..end], ""));
                     Held(start, k.text) && Rest() == k.rest && nextNewline == k.newline && text == start
    {
      var s, x := start, start;
      ghost var goal := WordFrom(buf[x..end], "");
      assert buf[start..start] == "";
      while buf[x] != NUL && !IsBlank(buf[x]) && buf[x] != '\n'
        invariant Writing(start, s, x) && OnlyBetween(start, x)
        invariant WordFrom(buf[x..end], buf[start..s]) == goal
        invariant ptr == old(ptr) && !nextNewline
        decreases end - x
      {
        ok, s, x := Continue(start, s, x);
        if !ok {
          ptr := x;
          return;
        }
      }
      ok := true;
      EndWord(start, s, x);
    }

    /** The outcome of a call that found no line end waiting. */
    ghost predicate Matches(k: Token, r: TokenType)
      requires Valid()
      reads this, buf
    {
      match k
      case EndOfFile => r == T_EOF && ptr == end && !nextNewline
      case NewLine(rest) => r == T_NEWLINE && Rest() == rest && !nextNewline
      case Word(w, rest, nl) => r == T_TEXT && Rest() == rest && nextNewline == nl && Held(text, w)
    }

    method NextToken() returns (r: TokenType)
      requires Valid()
      modifies buf, `ptr, `text, `nextNewline
      ensures Valid() && old(ptr) <= ptr && OnlyBetween(old(ptr), ptr)
      ensures old(nextNewline) ==> r == T_NEWLINE && !nextNewline && ptr == old(ptr) && Rest() == old(Rest())
      ensures !old(nextNewline) ==> Matches(Lexer.NextToken(old(Rest())), r)
      ensures r == T_TEXT ==> old(ptr) <= text
    {
      if nextNewline {
        nextNewline := false;
        return T_NEWLINE;
      }
      var x := ptr;
      while buf[x] != NUL && IsBlank(buf[x])
        invariant ptr <= x <= end
        invariant Lexer.NextToken(buf[x..end]) == Lexer.NextToken(Rest())
        decreases end - x
      {
        assert buf[x..end][1..] == buf[x + 1..end];
        x := x + 1;
      }
      assert x < end ==> buf[x..end][0] == buf[x] && buf[x..end][1..] == buf[x + 1..end];
      if buf[x] == NUL {
        ptr, r := x, T_EOF;
      } else if buf[x] == '\n' {
        ptr, r := x + 1, T_NEWLINE;
      } else if buf[x] == '#' {
        assert SkipLine(buf[x..end]) == SkipLine(buf[x..end][1..]);
        x := SkipComment(x);
        ptr, r := x, T_NEWLINE;
      } else {
        var ok := ReadWord(x);
        r := if ok then T_TEXT else T_EOF;
      }
    }

    // ---------- parse_config ----------

    ghost predicate AllHeld(args: seq<nat>, words: seq<string>)
      requires Valid()
      reads this, buf
    {
      |args| == |words| && forall k :: 0 <= k < |args| ==> Held(args[k], words[k])
    }

    /** Fetching a token leaves the words returned before it alone. */
    method Fetch(args: seq<nat>, ghost words: seq<string>) returns (r: TokenType)
      requires Valid() && AllHeld(args, words)
      modifies buf, `ptr, `text, `nextNewline
      ensures Valid() && AllHeld(args, words)
      ensures old(nextNewline) ==> r == T_NEWLINE && !nextNewline && Rest() == old(Rest())
      ensures !old(nextNewline) ==> Matches(Lexer.NextToken(old(Rest())), r)
    {
      ghost var p, was := ptr, buf[..];
      r := NextToken();
      forall k | 0 <= k < |args|
        ensures Held(args[k], words[k])
      {
        var i, n := args[k], |words[k]|;
        assert buf[..p] == was[..p];
        assert buf[i..i + n] == buf[..p][i..i + n] == was[i..i + n];
        assert i + n < p ==> buf[i + n] == buf[..p][i + n] == was[i + n];
      }
    }

    method ReadString(i: nat, ghost w: string) returns (s: string)
      requires Valid() && Held(i, w)
      ensures s == w
    {
      s := "";
      var j := i;
      while buf[j] != NUL
        invariant i <= j <= i + |w| && s == w[..j - i]
        decreases i + |w| - j
      {
        assert buf[i..i + |w|][j - i] == buf[j] == w[j - i];
        s, j := s + [buf[j]], j + 1;
      }
    }

    method ReadStrings(args: seq<nat>, ghost words: seq<string>) returns (r: seq<string>)
      requires Valid() && AllHeld(args, words)
      ensures r == words
    {
      r := [];
      for k := 0 to |args|
        invariant r == words[..k]
      {
        var s := ReadString(args[k], words[k]);
        r := r + [s];
      }
    }

    /** A line end: calls the handlers for the line's arguments, if it has any. */
    method EndLine(args: seq<nat>, ghost words: seq<string>)
      requires Valid() && AllHeld(args, words)
      modifies `calls
      ensures calls == old(calls) + Dispatch(words)
    {
      if |args| != 0 {
        var strings := ReadStrings(args, words);
        if IsSection(strings[0]) {
          calls := calls + [EndSection];
          calls := calls + [Section(strings)];
        } else {
          calls := calls + [Line(strings)];
        }
      }
    }

    method ParseConfig()
      requires Valid() && !nextNewline
      modifies this, buf
      ensures calls == old(calls) + Config(old(Rest()), false, [])
    {
      var args: seq<nat> := [];
      ghost var words: seq<string> := [];
      ghost var goal := calls + Config(Rest(), false, []);
      while true
        invariant Valid() && AllHeld(args, words)
        invariant calls + Config(Rest(), nextNewline, words) == goal
        decreases end - ptr, nextNewline
      {
        ghost var t, before := Rest(), calls;
        var r := Fetch(args, words);
        match r
        case T_EOF =>
          calls := calls + [EndSection];
          return;
        case T_NEWLINE =>
          EndLine(args, words);
          Assoc(before, Dispatch(words), Config(Rest(), false, []));
          args, words := [], [];
        case T_TEXT =>
          if |args| < SVC_MAXARGS {
            args, words := args + [text], words + [Lexer.NextToken(t).text];
          }
      }
    }
  }
}
