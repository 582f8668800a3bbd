/** How the lexer reads escapes, against how they are meant: a backslash and n, r, t or a second
    backslash stand for one character, and a backslash at a line end, with or without a carriage
    return, continues the line. */
module Escapes {
  import opened Lexer

  /** What the text behind a backslash is meant to write, and the text to go on with. */
  function MeantEscape(t: string): (r: (string, string))
    ensures |r.1| <= |t|
  {
    if t == "" then ("", "")
    else if t[0] == 'n' then ("\n", t[1..])
    else if t[0] == 'r' then ("\r", t[1..])
    else if t[0] == 't' then ("\t", t[1..])
    else if t[0] == '\\' then ("\\", t[1..])
    else if t[0] == '\r' && |t| > 1 && t[1] == '\n' then ("", SkipIndent(t[2..]))
    else if t[0] == '\r' then ("", t[1..])
    else if t[0] == '\n' then ("", SkipIndent(t[1..]))
    else ([t[0]], t[1..])
  }

  /** The word as it is meant. */
  function Meant(t: string, acc: string): (k: Token)
    ensures !k.NewLine? && (k.Word? ==> |k.rest| <= |t| && (t != "" ==> |k.rest| < |t|))
    decreases |t|
  {
    if t == "" then Word(acc, "", false)
    else if IsBlank(t[0]) then Word(acc, t[1..], false)
    else if t[0] == '\n' then Word(acc, t[1..], true)
    else if t[0] == '"' then MeantQuoted(t[1..], acc)
    else if t[0] == '\\' then Meant(MeantEscape(t[1..]).1, acc + MeantEscape(t[1..]).0)
    else Meant(t[1..], acc + [t[0]])
  }

  function MeantQuoted(t: string, acc: string): (k: Token)
    ensures !k.NewLine? && (k.Word? ==> |k.rest| < |t|)
    decreases |t|
  {
    if t == "" then EndOfFile
    else if t[0] == '"' then Meant(t[1..], acc)
    else MeantQuoted(t[1..], acc + [t[0]])
  }

  /** The text behind two backslashes is read as it is meant: they end the text, or an ordinary
      character follows, or a carriage return ends the text. */
  predicate Spared(t: string) {
    t == "" || t == "\r" || t[0] !in "nrt\\\" \t\r\n"
  }

  /** The word has none of the escapes for n, r and t, no escaped line end with a carriage return, and
      only what is spared behind two backslashes. */
  predicate Harmless(t: string)
    decreases |t|
  {
    if t == "" || IsBlank(t[0]) || t[0] == '\n' then true
    else if t[0] == '"' then HarmlessQuoted(t[1..])
    else if t[0] != '\\' || |t| == 1 then Harmless(t[1..])
    else if t[1] in "nrt" then false
    else if t[1] == '\\' then Spared(t[2..]) && Harmless(t[2..])
    else if t[1] == '\r' && |t| > 2 && t[2] == '\n' then false
    else Harmless(MeantEscape(t[1..]).1)
  }

  predicate HarmlessQuoted(t: string)
    decreases |t|
  {
    t == "" || if t[0] == '"' then Harmless(t[1..]) else HarmlessQuoted(t[1..])
  }

  // ---------- harmless words are read as meant ----------

  lemma {:induction false} HarmlessRead(t: string, acc: string)
    requires Harmless(t)
    ensures WordFrom(t, acc) == Meant(t, acc)
    decreases |t|
  {
    if t == "" || IsBlank(t[0]) || t[0] == '\n' {
    } else if t[0] == '"' {
      HarmlessQuotedRead(t[1..], acc);
    } else if t[0] != '\\' {
      HarmlessRead(t[1..], acc + [t[0]]);
    } else if |t| == 1 {
    } else if t[1] == '\\' {
      TwoBackslashes(t, acc);
      if t[2..] != "" && t[2..] != "\r" {
        HarmlessRead(t[3..], acc + "\\" + [t[2]]);
        assert t[2..][1..] == t[3..];
      }
    } else {
      assert Escape(t[1..]) == MeantEscape(t[1..]);
      HarmlessRead(MeantEscape(t[1..]).1, acc + MeantEscape(t[1..]).0);
    }
  }

  lemma {:induction false} HarmlessQuotedRead(t: string, acc: string)
    requires HarmlessQuoted(t)
    ensures Quoted(t, acc) == MeantQuoted(t, acc)
    decreases |t|
  {
    if t != "" {
      if t[0] == '"' {
        HarmlessRead(t[1..], acc);
      } else {
        HarmlessQuotedRead(t[1..], acc + [t[0]]);
      }
    }
  }

  /** Both readings of two backslashes: the second is read again as the start of an escape. */
  lemma {:induction false} TwoBackslashes(t: string, acc: string)
    requires |t| > 1 && t[0] == '\\' && t[1] == '\\'
    ensures Meant(t, acc) == Meant(t[2..], acc + "\\")
    ensures WordFrom(t, acc) == WordFrom(Escape(t[2..]).1, acc + "\\" + Escape(t[2..]).0)
  {
    var u := t[1..];
    assert u[1..] == t[2..] && u[0] == '\\';
    assert Escape(u) == ("\\", u) && MeantEscape(u) == ("\\", t[2..]);
    assert WordFrom(t, acc) == WordFrom(u, acc + "\\");
  }

  // ---------- and no others ----------

  /** A word keeps what has been written of it. */
  lemma {:induction false} WordKeeps(t: string, acc: string)
    requires WordFrom(t, acc).Word?
    ensures acc <= WordFrom(t, acc).text
    decreases |t|
  {
    if t != "" && !IsBlank(t[0]) && t[0] != '\n' {
      if t[0] == '"' {
        QuotedKeeps(t[1..], acc);
      } else if t[0] == '\\' {
        WordKeeps(Escape(t[1..]).1, acc + Escape(t[1..]).0);
      } else {
        WordKeeps(t[1..], acc + [t[0]]);
      }
    }
  }

  lemma {:induction false} QuotedKeeps(t: string, acc: string)
    requires Quoted(t, acc).Word?
    ensures acc <= Quoted(t, acc).text
    decreases |t|
  {
    if t != "" && t[0] == '"' {
      WordKeeps(t[1..], acc);
    } else if t != "" {
      QuotedKeeps(t[1..], acc + [t[0]]);
    }
  }

  lemma {:induction false} MeantKeeps(t: string, acc: string)
    requires Meant(t, acc).Word?
    ensures acc <= Meant(t, acc).text
    decreases |t|
  {
    if t != "" && !IsBlank(t[0]) && t[0] != '\n' {
      if t[0] == '"' {
        MeantQuotedKeeps(t[1..], acc);
      } else if t[0] == '\\' {
        MeantKeeps(MeantEscape(t[1..]).1, acc + MeantEscape(t[1..]).0);
      } else {
        MeantKeeps(t[1..], acc + [t[0]]);
      }
    }
  }

  lemma {:induction false} MeantQuotedKeeps(t: string, acc: string)
    requires MeantQuoted(t, acc).Word?
    ensures acc <= MeantQuoted(t, acc).text
    decreases |t|
  {
    if t != "" && t[0] == '"' {
      MeantKeeps(t[1..], acc);
    } else if t != "" {
      MeantQuotedKeeps(t[1..], acc + [t[0]]);
    }
  }

  /** The quotes a word has been given. */
  function Quotes(s: string): nat {
    if s == "" then 0 else Quotes(s[..|s| - 1]) + if s[|s| - 1] == '"' then 1 else 0
  }

  lemma {:induction false} QuotesSnoc(s: string, c: char)
    ensures Quotes(s + [c]) == Quotes(s) + if c == '"' then 1 else 0
  {
    assert (s + [c])[..|s|] == s;
  }

  lemma {:induction false} QuotesPrefix(a: string, b: string)
    requires a <= b
    ensures Quotes(a) <= Quotes(b)
    decreases |b|
  {
    if |a| < |b| {
      QuotesPrefix(a, b[..|b| - 1]);
    } else {
      assert a == b;
    }
  }

  /** Of two beginnings of one word the longer has the more quotes. */
  lemma {:induction false} MoreQuotes(a: string, b: string, whole: string)
    requires a <= whole && b <= whole
    ensures |a| >= |b| ==> Quotes(a) >= Quotes(b)
    ensures Quotes(a) > Quotes(b) ==> |a| > |b|
  {
    if |a| <= |b| {
      assert a <= b;
      QuotesPrefix(a, b);
    }
    if |a| >= |b| {
      assert b <= a;
      QuotesPrefix(b, a);
    }
  }

  /** Where one reading adds a backslash and the other a quote, the one that had more quotes before
      is ahead. */
  lemma {:induction false} QuoteBehind(a: string, b: string, whole: string)
    requires a + "\\" <= whole && b + "\"" <= whole && Quotes(a) > Quotes(b)
    ensures |a| > |b|
  {
    QuotesSnoc(a, '\\');
    QuotesSnoc(b, '"');
    MoreQuotes(a, b, whole);
  }

  /** An escaped line end skips an indentation that a quoted part would copy. */
  lemma {:induction false} QuotedIndent(t: string, acc: string)
    ensures exists more :: Quotes(acc + more) == Quotes(acc) && Quoted(t, acc) == Quoted(SkipIndent(t), acc + more)
  {
    if t != "" && (t[0] == ' ' || t[0] == '\t') {
      QuotedIndent(t[1..], acc + [t[0]]);
      var more :| Quotes(acc + [t[0]] + more) == Quotes(acc + [t[0]])
                  && Quoted(t[1..], acc + [t[0]]) == Quoted(SkipIndent(t[1..]), acc + [t[0]] + more);
      QuotesSnoc(acc, t[0]);
      assert acc + [t[0]] + more == acc + ([t[0]] + more);
    } else {
      assert acc + "" == acc;
    }
  }

  lemma {:induction false} MeantQuotedIndent(t: string, acc: string)
    ensures exists more ::
              Quotes(acc + more) == Quotes(acc) && MeantQuoted(t, acc) == MeantQuoted(SkipIndent(t), acc + more)
  {
    if t != "" && (t[0] == ' ' || t[0] == '\t') {
      MeantQuotedIndent(t[1..], acc + [t[0]]);
      var more :| Quotes(acc + [t[0]] + more) == Quotes(acc + [t[0]])
                  && MeantQuoted(t[1..], acc + [t[0]]) == MeantQuoted(SkipIndent(t[1..]), acc + [t[0]] + more);
      QuotesSnoc(acc, t[0]);
      assert acc + [t[0]] + more == acc + ([t[0]] + more);
    } else {
      assert acc + "" == acc;
    }
  }

  /** Both readings of this word agree, though one may have written more so far. */
  predicate Agree(k: Token, m: Token) {
    k.Word? && k == m
  }

  /** If the lexer has written at least as much as is meant and both end up with one word, then it has
      written no more, and reads nothing differently. */
  lemma {:induction false} OnlyHarmless(t: string, a: string, b: string)
    requires Agree(WordFrom(t, a), Meant(t, b)) && |a| >= |b|
    ensures |a| == |b| && Harmless(t)
    decreases |t|
  {
    if t == "" || IsBlank(t[0]) || t[0] == '\n' {
    } else if t[0] == '"' {
      OnlyHarmlessQuoted(t[1..], a, b);
    } else if t[0] != '\\' {
      OnlyHarmless(t[1..], a + [t[0]], b + [t[0]]);
    } else if |t| == 1 {
      LoneBackslash(t, a);
      LoneBackslash(t, b);
    } else if t[1] == '\\' {
      OnlySpared(t, a, b);
    } else if t[1] in "nrt" {
      LetterAdds(t, a);
      OnlyHarmless(t[2..], a + MeantEscape(t[1..]).0 + [t[1]], b + MeantEscape(t[1..]).0);
    } else if t[1] == '\r' && |t| > 2 && t[2] == '\n' {
      CarriageReturnEnds(t, a);
      MeantContinues(t, b);
    } else {
      assert Escape(t[1..]) == MeantEscape(t[1..]);
      OnlyHarmless(MeantEscape(t[1..]).1, a + MeantEscape(t[1..]).0, b + MeantEscape(t[1..]).0);
    }
  }

  lemma {:induction false} LoneBackslash(t: string, acc: string)
    requires |t| == 1 && t[0] == '\\'
    ensures WordFrom(t, acc) == Meant(t, acc) == Word(acc, "", false)
  {
    assert t[1..] == "" && acc + "" == acc;
    assert Escape("") == ("", "") == MeantEscape("");
  }

  lemma {:induction false} MeantQuotedShorter(t: string, acc: string)
    requires |t| > 2 && t[0] != '"' && t[1] != '"' && t[2] != '"' && MeantQuoted(t, acc).Word?
    ensures |MeantQuoted(t, acc).rest| < |t| - 3
  {
    assert t[1..][1..] == t[2..] && t[2..][1..] == t[3..];
    assert MeantQuoted(t, acc) == MeantQuoted(t[1..], acc + [t[0]]) == MeantQuoted(t[2..], acc + [t[0]] + [t[1]]);
  }

  /** The letter of an escape for n, r or t is written once more. */
  lemma {:induction false} LetterAdds(t: string, acc: string)
    requires |t| > 1 && t[0] == '\\' && t[1] in "nrt"
    ensures WordFrom(t, acc) == WordFrom(t[2..], acc + MeantEscape(t[1..]).0 + [t[1]])
  {
    var u := t[1..];
    assert Escape(u) == (MeantEscape(u).0, u) && u[1..] == t[2..];
    assert WordFrom(t, acc) == WordFrom(u, acc + MeantEscape(u).0);
  }

  /** An escaped carriage return and line feed end the word. */
  lemma {:induction false} CarriageReturnEnds(t: string, acc: string)
    requires |t| > 2 && t[0] == '\\' && t[1] == '\r' && t[2] == '\n'
    ensures WordFrom(t, acc) == Word(acc, t[3..], true)
  {
    var u := t[2..];
    assert t[1..][1..] == u && u[0] == '\n' && u[1..] == t[3..] && SkipIndent(u) == u;
    assert Escape(t[1..]) == ("", u);
    assert acc + "" == acc;
  }

  /** They are meant to continue the line. */
  lemma {:induction false} MeantContinues(t: string, acc: string)
    requires |t| > 2 && t[0] == '\\' && t[1] == '\r' && t[2] == '\n'
    ensures Meant(t, acc) == Meant(SkipIndent(t[3..]), acc)
  {
    var u := t[1..];
    assert u[2..] == t[3..] && u[0] == '\r' && u[1] == '\n';
    assert MeantEscape(u) == ("", SkipIndent(t[3..]));
    assert acc + "" == acc;
  }

  lemma {:induction false} OnlyHarmlessQuoted(t: string, a: string, b: string)
    requires Agree(Quoted(t, a), MeantQuoted(t, b)) && |a| >= |b|
    ensures |a| == |b| && HarmlessQuoted(t)
    decreases |t|
  {
    if t != "" {
      if t[0] == '"' {
        OnlyHarmless(t[1..], a, b);
      } else {
        OnlyHarmlessQuoted(t[1..], a + [t[0]], b + [t[0]]);
      }
    }
  }

  /** What may follow two backslashes. */
  lemma {:induction false} OnlySpared(t: string, a: string, b: string)
    requires |t| > 1 && t[0] == '\\' && t[1] == '\\'
    requires Agree(WordFrom(t, a), Meant(t, b)) && |a| >= |b|
    ensures |a| == |b| && Spared(t[2..]) && Harmless(t[2..])
    decreases |t|, 0
  {
    TwoBackslashes(t, a);
    TwoBackslashes(t, b);
    var u, a', b' := t[2..], a + "\\", b + "\\";
    assert u != "" ==> u[1..] == t[3..];
    if u == "" {
      assert a' + "" == a';
    } else if u[0] == '\\' {
      assert Escape(u) == ("\\", u);
      assert false by {
        OnlyHarmless(u, a' + "\\", b');
      }
    } else if u[0] in "nrt" {
      var w := MeantEscape(u).0;
      assert Escape(u) == (w, u);
      assert WordFrom(u, a' + w) == WordFrom(t[3..], a' + w + [u[0]]);
      OnlyHarmless(t[3..], a' + w + [u[0]], b' + [u[0]]);
    } else if u[0] == '"' {
      assert Escape(u) == ("\"", t[3..]);
      WordKeeps(t[3..], a' + "\"");
      MeantKeeps(t, b);
      MoreQuotes(a, b, WordFrom(t, a).text);
      QuotesSnoc(a, '\\');
      QuotesSnoc(a', '"');
      QuotesSnoc(b, '\\');
      Ahead(t[3..], a' + "\"", b');
    } else if IsBlank(u[0]) || u[0] == '\n' {
      EndMissed(u, a', b');
    } else {
      assert Escape(u) == ([u[0]], t[3..]);
      OnlyHarmless(t[3..], a' + [u[0]], b' + [u[0]]);
    }
  }

  /** The second backslash makes the lexer read over the end of the word, unless it is a carriage return
      at the end of the text. */
  lemma {:induction false} EndMissed(u: string, a: string, b: string)
    requires u != "" && (IsBlank(u[0]) || u[0] == '\n') && |a| >= |b|
    requires Agree(WordFrom(Escape(u).1, a + Escape(u).0), Meant(u, b))
    ensures |a| == |b| && u == "\r"
  {
    assert a + "" == a;
  }

  /** The lexer reads on unquoted where a quoted part is meant, and has written more quotes. */
  lemma {:induction false} Ahead(t: string, a: string, b: string)
    requires Agree(WordFrom(t, a), MeantQuoted(t, b)) && Quotes(a) > Quotes(b)
    ensures false
    decreases |t|, 2
  {
    if t == "" || IsBlank(t[0]) || t[0] == '\n' {
    } else if t[0] == '"' {
      Behind(t[1..], a, b);
    } else if t[0] != '\\' {
      QuotesSnoc(a, t[0]);
      QuotesSnoc(b, t[0]);
      Ahead(t[1..], a + [t[0]], b + [t[0]]);
    } else if |t| == 1 {
    } else {
      AheadEscape(t, a, b);
    }
  }

  lemma {:induction false} AheadEscape(t: string, a: string, b: string)
    requires |t| > 1 && t[0] == '\\'
    requires Agree(WordFrom(t, a), MeantQuoted(t, b)) && Quotes(a) > Quotes(b)
    ensures false
    decreases |t|, 1
  {
    if t[1] == '\r' || t[1] == '\n' {
      AheadLine(t, a, b);
    } else if t[1] == '"' {
      AheadQuote(t, a, b);
      OnlyHarmless(t[2..], a + "\"", b + "\\");
    } else {
      var u, b' := t[1..], b + "\\";
      QuotesSnoc(b, '\\');
      assert MeantQuoted(t, b) == MeantQuoted(u, b');
      var (w, v) := Escape(u);
      assert WordFrom(t, a) == WordFrom(v, a + w);
      assert w == [w[0]] && w[0] != '"' && (v == u || v == u[1..]);
      QuotesSnoc(a, w[0]);
      if v == u {
        Ahead(u, a + w, b');
      } else {
        QuotesSnoc(b', t[1]);
        assert MeantQuoted(u, b') == MeantQuoted(u[1..], b' + [t[1]]);
        Ahead(u[1..], a + w, b' + [t[1]]);
      }
    }
  }

  lemma {:induction false} AheadQuote(t: string, a: string, b: string)
    requires |t| > 1 && t[0] == '\\' && t[1] == '"'
    requires Agree(WordFrom(t, a), MeantQuoted(t, b)) && Quotes(a) > Quotes(b)
    ensures |a| > |b| && Agree(WordFrom(t[2..], a + "\""), Meant(t[2..], b + "\\"))
  {
    var u, a', b' := t[1..], a + "\"", b + "\\";
    QuotesSnoc(a, '"');
    QuotesSnoc(b, '\\');
    assert u[0] == '"' && u[1..] == t[2..] && Escape(u) == ("\"", t[2..]);
    assert MeantQuoted(t, b) == MeantQuoted(u, b') == Meant(t[2..], b');
    assert WordFrom(t, a) == WordFrom(t[2..], a');
    WordKeeps(t[2..], a');
    MeantKeeps(t[2..], b');
    MoreQuotes(a', b', WordFrom(t, a).text);
  }

  lemma {:induction false} AheadLine(t: string, a: string, b: string)
    requires |t| > 1 && t[0] == '\\' && (t[1] == '\r' || t[1] == '\n')
    requires Agree(WordFrom(t, a), MeantQuoted(t, b)) && Quotes(a) > Quotes(b)
    ensures false
    decreases |t|, 0
  {
    if t[1] == '\r' && |t| > 2 && t[2] == '\n' {
      CarriageReturnEnds(t, a);
      MeantQuotedShorter(t, b);
    } else {
      var u, b' := t[1..], b + "\\" + [t[1]];
      QuotesSnoc(b, '\\');
      QuotesSnoc(b + "\\", t[1]);
      assert u[0] == t[1] && u[1..] == t[2..] && a + "" == a;
      assert MeantQuoted(t, b) == MeantQuoted(u, b + "\\") == MeantQuoted(t[2..], b');
      assert WordFrom(t, a) == WordFrom(Escape(u).1, a);
      if t[1] == '\n' {
        MeantQuotedIndent(t[2..], b');
        var more :| Quotes(b' + more) == Quotes(b')
                    && MeantQuoted(t[2..], b') == MeantQuoted(SkipIndent(t[2..]), b' + more);
        Ahead(SkipIndent(t[2..]), a, b' + more);
      } else {
        Ahead(t[2..], a, b');
      }
    }
  }

  /** The lexer reads a quoted part where none is meant, and has written more quotes. */
  lemma {:induction false} Behind(t: string, a: string, b: string)
    requires Agree(Quoted(t, a), Meant(t, b)) && Quotes(a) > Quotes(b)
    ensures false
    decreases |t|, 2
  {
    if t == "" || IsBlank(t[0]) || t[0] == '\n' {
      QuotedShorter(t, a);
    } else if t[0] == '"' {
      Ahead(t[1..], a, b);
    } else if t[0] != '\\' {
      QuotesSnoc(a, t[0]);
      QuotesSnoc(b, t[0]);
      Behind(t[1..], a + [t[0]], b + [t[0]]);
    } else if |t| == 1 {
    } else {
      BehindEscape(t, a, b);
    }
  }

  lemma {:induction false} QuotedShorter(t: string, acc: string)
    requires Quoted(t, acc).Word?
    ensures |Quoted(t, acc).rest| < |t|
    ensures t != "" && t[0] != '"' ==> |Quoted(t, acc).rest| < |t| - 1
    decreases |t|
  {
    if t != "" && t[0] != '"' {
      QuotedShorter(t[1..], acc + [t[0]]);
    }
  }

  lemma {:induction false} BehindEscape(t: string, a: string, b: string)
    requires |t| > 1 && t[0] == '\\'
    requires Agree(Quoted(t, a), Meant(t, b)) && Quotes(a) > Quotes(b)
    ensures false
    decreases |t|, 1
  {
    var u, a' := t[1..], a + "\\";
    QuotesSnoc(a, '\\');
    assert u[0] == t[1] && u[1..] == t[2..];
    assert Quoted(t, a) == Quoted(u, a');
    var (w, v) := MeantEscape(u);
    assert Meant(t, b) == Meant(v, b + w);
    if t[1] == '"' {
      assert Quoted(u, a') == WordFrom(t[2..], a');
      WordKeeps(t[2..], a');
      MeantKeeps(t[2..], b + "\"");
      QuoteBehind(a, b, WordFrom(t[2..], a').text);
      OnlyHarmless(t[2..], a', b + "\"");
    } else if t[1] == '\r' || t[1] == '\n' {
      BehindLine(t, a, b);
    } else {
      assert Quoted(u, a') == Quoted(t[2..], a' + [t[1]]);
      assert w == [w[0]] && w[0] != '"' && v == t[2..];
      QuotesSnoc(a', t[1]);
      QuotesSnoc(b, w[0]);
      Behind(t[2..], a' + [t[1]], b + w);
    }
  }

  lemma {:induction false} BehindLine(t: string, a: string, b: string)
    requires |t| > 1 && t[0] == '\\' && (t[1] == '\r' || t[1] == '\n')
    requires Agree(Quoted(t, a), Meant(t, b)) && Quotes(a) > Quotes(b)
    ensures false
    decreases |t|, 0
  {
    var u, a' := t[1..], a + "\\" + [t[1]];
    QuotesSnoc(a, '\\');
    QuotesSnoc(a + "\\", t[1]);
    assert u[0] == t[1] && u[1..] == t[2..];
    assert Quoted(t, a) == Quoted(u, a + "\\") == Quoted(t[2..], a');
    assert b + "" == b;
    if t[1] == '\n' {
      QuotedIndent(t[2..], a');
      var more :| Quotes(a' + more) == Quotes(a') && Quoted(t[2..], a') == Quoted(SkipIndent(t[2..]), a' + more);
      Behind(SkipIndent(t[2..]), a' + more, b);
    } else if |t| > 2 && t[2] == '\n' {
      MeantContinues(t, b);
      assert t[2..][1..] == t[3..];
      QuotesSnoc(a', '\n');
      assert Quoted(t[2..], a') == Quoted(t[3..], a' + "\n");
      QuotedIndent(t[3..], a' + "\n");
      var more :| Quotes(a' + "\n" + more) == Quotes(a' + "\n")
                  && Quoted(t[3..], a' + "\n") == Quoted(SkipIndent(t[3..]), a' + "\n" + more);
      Behind(SkipIndent(t[3..]), a' + "\n" + more, b);
    } else {
      assert MeantEscape(u) == ("", t[2..]);
      Behind(t[2..], a', b);
    }
  }

  // ---------- the main result ----------

  /** A word whose quotes are closed is read as it is meant exactly when it is harmless. */
  lemma {:induction false} ReadAsMeant(t: string)
    requires Meant(t, "").Word?
    ensures WordFrom(t, "") == Meant(t, "") <==> Harmless(t)
  {
    if Harmless(t) {
      HarmlessRead(t, "");
    }
    if WordFrom(t, "") == Meant(t, "") {
      OnlyHarmless(t, "", "");
    }
  }

  /** The text from the first character that is not blank. */
  function Lead(t: string): (r: string)
    ensures |r| <= |t|
  {
    if t != "" && IsBlank(t[0]) then Lead(t[1..]) else t
  }

  lemma {:induction false} TokenLead(t: string)
    ensures NextToken(t) == NextToken(Lead(t)) && (Lead(t) != "" ==> !IsBlank(Lead(t)[0]))
  {
    if t != "" && IsBlank(t[0]) {
      TokenLead(t[1..]);
    }
  }

  /** The same for the next token of a text, when it is a word. */
  lemma {:induction false} TokenAsMeant(t: string)
    requires Lead(t) != "" && Lead(t)[0] != '\n' && Lead(t)[0] != '#' && Meant(Lead(t), "").Word?
    ensures NextToken(t) == Meant(Lead(t), "") <==> Harmless(Lead(t))
  {
    TokenLead(t);
    ReadAsMeant(Lead(t));
  }
}
