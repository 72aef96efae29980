/**
  Shell quoting (`shJoin`, `shellQuote`) against an independent tokenizer: token
  recognition and quote removal of the POSIX shell (POSIX.1-2017, Shell Command Language,
  sections 2.2.1 to 2.2.3, 2.3 and 2.6.7).  Every character of a word remembers whether it was
  quoted, because only unquoted ones take part in globbing, tilde expansion, reserved words
  and assignments.  An expansion ends the model's reading with `Expansion`.
 */
module Shell {

  // ---- the tokenizer ------------------------------------------------------------------

  type Word = seq<(char, bool)>

  datatype Token = WordToken(word: Word) | Operator(text: string)

  datatype Mode = Plain | Single | Double

  datatype Lexed = Tokens(tokens: seq<Token>) | Expansion | Unterminated

  /** A word being read; `open` tells an empty quoted word from no word at all. */
  datatype Current = Current(open: bool, word: Word)

  const NO_WORD := Current(false, [])

  function Put(cur: Current, c: char, quoted: bool): Current {
    Current(true, cur.word + [(c, quoted)])
  }

  function Delimit(out: seq<Token>, cur: Current): seq<Token> {
    if cur.open then out + [WordToken(cur.word)] else out
  }

  predicate IsOperatorChar(c: char) {
    c == '&' || c == '|' || c == ';' || c == '<' || c == '>' || c == '(' || c == ')'
  }

  predicate IsBlank(c: char) { c == ' ' || c == '\t' }

  /** The longest operator at the start of `s`. */
  function OperatorLength(s: string): (n: nat)
    requires s != [] && IsOperatorChar(s[0])
    ensures 1 <= n <= |s|
  {
    if |s| >= 3 && s[..3] == "<<-" then 3
    else if |s| >= 2 && s[..2] in ["&&", "||", ";;", "<<", ">>", "<&", ">&", "<>", ">|"] then 2
    else 1
  }

  /** The rest of the input after a comment: the newline that ends it stays. */
  function SkipComment(s: string): (r: string)
    ensures |r| <= |s|
  {
    if s == [] || s[0] == '\n' then s else SkipComment(s[1..])
  }

  function Lex(s: string, mode: Mode, cur: Current, out: seq<Token>): Lexed
    decreases |s|
  {
    if s == [] then
      if mode == Plain then Tokens(Delimit(out, cur)) else Unterminated
    else
      var c, rest := s[0], s[1..];
      match mode
      case Single =>
        if c == '\'' then Lex(rest, Plain, cur, out) else Lex(rest, Single, Put(cur, c, true), out)
      case Double =>
        if c == '"' then Lex(rest, Plain, cur, out)
        else if c == '$' || c == '`' then Expansion
        else if c == '\\' && rest != [] && rest[0] == '\n' then Lex(rest[1..], Double, cur, out)
        else if c == '\\' && rest != [] && rest[0] in "$`\"\\" then Lex(rest[1..], Double, Put(cur, rest[0], true), out)
        else Lex(rest, Double, Put(cur, c, true), out)
      case Plain =>
        if c == '\'' then Lex(rest, Single, Current(true, cur.word), out)
        else if c == '"' then Lex(rest, Double, Current(true, cur.word), out)
        else if c == '\\' then
          if rest == [] then Unterminated
          else if rest[0] == '\n' then Lex(rest[1..], Plain, cur, out)
          else Lex(rest[1..], Plain, Put(cur, rest[0], true), out)
        else if c == '$' || c == '`' then Expansion
        else if c == '\n' then Lex(rest, Plain, NO_WORD, Delimit(out, cur) + [Operator("\n")])
        else if IsOperatorChar(c) then
          var n := OperatorLength(s);
          Lex(s[n..], Plain, NO_WORD, Delimit(out, cur) + [Operator(s[..n])])
        else if IsBlank(c) then Lex(rest, Plain, NO_WORD, Delimit(out, cur))
        else if c == '#' && !cur.open then Lex(SkipComment(rest), Plain, cur, out)
        else Lex(rest, Plain, Put(cur, c, false), out)
  }

  function Tokenize(s: string): Lexed {
    Lex(s, Plain, NO_WORD, [])
  }

  // ---- the printers --------------------------------------------------------------------

  const ESCAPED_QUOTE := "'\\''"

  /** `strings.ReplaceAll(a, "'", `'\''`)`. */
  function EscapeQuotes(a: string): string {
    if a == [] then []
    else (if a[0] == '\'' then ESCAPED_QUOTE else [a[0]]) + EscapeQuotes(a[1..])
  }

  function ShellQuote(s: string): string {
    "'" + EscapeQuotes(s) + "'"
  }

  /** `strings.Join(q, " ")`. */
  function Join(q: seq<string>): string {
    if q == [] then []
    else if |q| == 1 then q[0]
    else q[0] + " " + Join(q[1..])
  }

  function QuoteAll(argv: seq<string>): seq<string> {
    if argv == [] then [] else [ShellQuote(argv[0])] + QuoteAll(argv[1..])
  }

  function ShJoin(argv: seq<string>): string {
    Join(QuoteAll(argv))
  }

  lemma {:induction false} QuoteAllAt(argv: seq<string>, i: nat)
    requires i < |argv|
    ensures |QuoteAll(argv)| == |argv| && QuoteAll(argv)[i] == ShellQuote(argv[i])
  {
    if i > 0 {
      QuoteAllAt(argv[1..], i - 1);
    } else if |argv| > 1 {
      QuoteAllAt(argv[1..], 0);
    }
  }

  /** `shJoin`: fills a slice of quoted words by index, then joins it. */
  method ShJoinMethod(argv: seq<string>) returns (r: string)
    ensures r == ShJoin(argv)
  {
    var q := new string[|argv|](i => "");
    for i := 0 to |argv|
      invariant forall k | 0 <= k < i :: q[k] == ShellQuote(argv[k])
    {
      q[i] := ShellQuote(argv[i]);
    }
    assert q[..] == QuoteAll(argv) by {
      forall i | 0 <= i < |argv| ensures |QuoteAll(argv)| == |argv| && QuoteAll(argv)[i] == q[i] {
        QuoteAllAt(argv, i);
      }
    }
    r := Join(q[..]);
  }

  // ---- quoting is undone by the tokenizer -------------------------------------------------

  /** A word all of whose characters are quoted. */
  function Quoted(a: string): Word {
    if a == [] then [] else [(a[0], true)] + Quoted(a[1..])
  }

  function Bare(a: string): Word {
    if a == [] then [] else [(a[0], false)] + Bare(a[1..])
  }

  /** Quote removal (section 2.6.7). */
  function Text(w: Word): string {
    if w == [] then [] else [w[0].0] + Text(w[1..])
  }

  lemma {:induction false} QuotedIsText(a: string)
    ensures Text(Quoted(a)) == a && Text(Bare(a)) == a
    ensures forall x | x in Quoted(a) :: x.1
  {
    if a != [] {
      QuotedIsText(a[1..]);
    }
  }

  function QuotedTokens(argv: seq<string>): seq<Token> {
    if argv == [] then [] else [WordToken(Quoted(argv[0]))] + QuotedTokens(argv[1..])
  }

  lemma {:induction false} LexInside(a: string, rest: string, word: Word, out: seq<Token>)
    ensures Lex(EscapeQuotes(a) + "'" + rest, Single, Current(true, word), out)
         == Lex(rest, Plain, Current(true, word + Quoted(a)), out)
  {
    if a == [] {
      assert ("" + "'" + rest)[1..] == rest;
      assert word + [] == word;
    } else {
      hide Lex;
      var tail := EscapeQuotes(a[1..]) + "'" + rest;
      LexInside(a[1..], rest, word + [(a[0], true)], out);
      assert word + Quoted(a) == word + [(a[0], true)] + Quoted(a[1..]);
      if a[0] == '\'' {
        LexEscape(tail, word, out);
        assert EscapeQuotes(a) + "'" + rest == ESCAPED_QUOTE + tail;
      } else {
        assert EscapeQuotes(a) + "'" + rest == [a[0]] + tail;
        LexQuotedChar(a[0], tail, word, out);
      }
    }
  }

  lemma LexQuotedChar(c: char, tail: string, word: Word, out: seq<Token>)
    requires c != '\''
    ensures Lex([c] + tail, Single, Current(true, word), out)
         == Lex(tail, Single, Current(true, word + [(c, true)]), out)
  {
    assert ([c] + tail)[1..] == tail;
  }

  /** The escaped quote: close, an escaped quote, reopen. */
  lemma LexEscape(tail: string, word: Word, out: seq<Token>)
    ensures Lex(ESCAPED_QUOTE + tail, Single, Current(true, word), out)
         == Lex(tail, Single, Current(true, word + [('\'', true)]), out)
  {
    var s := ESCAPED_QUOTE + tail;
    assert s[1..][0] == '\\' && s[1..][1..][0] == '\'' && s[1..][1..][1..][0] == '\'';
    assert s[1..][1..][1..][1..] == tail;
    assert Lex(s, Single, Current(true, word), out) == Lex(s[1..], Plain, Current(true, word), out);
    assert Lex(s[1..], Plain, Current(true, word), out)
           == Lex(s[1..][1..][1..], Plain, Put(Current(true, word), '\'', true), out);
  }

  /** A quoted word reads as one word with its text, all quoted, whatever follows. */
  lemma LexQuotedWord(a: string, rest: string, cur: Current, out: seq<Token>)
    ensures Lex(ShellQuote(a) + rest, Plain, cur, out) == Lex(rest, Plain, Current(true, cur.word + Quoted(a)), out)
  {
    var s := ShellQuote(a) + rest;
    assert s[0] == '\'' && s[1..] == EscapeQuotes(a) + "'" + rest;
    LexInside(a, rest, cur.word, out);
  }

  lemma LexBlank(rest: string, cur: Current, out: seq<Token>)
    ensures Lex(" " + rest, Plain, cur, out) == Lex(rest, Plain, NO_WORD, Delimit(out, cur))
  {
    assert (" " + rest)[1..] == rest;
  }

  lemma LexEnd(cur: Current, out: seq<Token>)
    ensures Lex("", Plain, cur, out) == Tokens(Delimit(out, cur))
  {
  }

  lemma {:induction false} LexJoined(argv: seq<string>, out: seq<Token>)
    ensures Lex(ShJoin(argv), Plain, NO_WORD, out) == Tokens(out + QuotedTokens(argv))
  {
    hide Lex, Quoted, ShellQuote, ShJoin;
    if argv == [] {
      JoinNothing();
      assert out + [] == out;
      LexEnd(NO_WORD, out);
    } else {
      hide QuotedTokens, Delimit;
      var a, more := argv[0], argv[1..];
      JoinStep(argv);
      QuotedTokensStep(argv, out);
      var done := Current(true, Quoted(a));
      LexFirstWord(a, if more == [] then "" else " " + ShJoin(more), out);
      DelimitWord(Quoted(a), out);
      if more == [] {
        assert ShellQuote(a) + "" == ShellQuote(a);
        LexEnd(done, out);
      } else {
        LexBlank(ShJoin(more), done, out);
        LexJoined(more, out + [WordToken(Quoted(a))]);
      }
    }
  }

  lemma JoinNothing()
    ensures ShJoin([]) == ""
  {
  }

  lemma QuotedTokensStep(argv: seq<string>, out: seq<Token>)
    requires argv != []
    ensures out + QuotedTokens(argv) == out + [WordToken(Quoted(argv[0]))] + QuotedTokens(argv[1..])
    ensures |argv| == 1 ==> out + QuotedTokens(argv) == out + [WordToken(Quoted(argv[0]))]
  {
    var word, rest := WordToken(Quoted(argv[0])), QuotedTokens(argv[1..]);
    assert QuotedTokens(argv) == [word] + rest;
    hide QuotedTokens, Quoted;
    assert out + ([word] + rest) == out + [word] + rest;
    if |argv| == 1 {
      NoTokens(argv[1..]);
      assert [word] + rest == [word];
    }
  }

  lemma NoTokens(argv: seq<string>)
    requires argv == []
    ensures QuotedTokens(argv) == []
  {
  }

  lemma LexFirstWord(a: string, rest: string, out: seq<Token>)
    ensures Lex(ShellQuote(a) + rest, Plain, NO_WORD, out) == Lex(rest, Plain, Current(true, Quoted(a)), out)
  {
    hide Lex;
    LexQuotedWord(a, rest, NO_WORD, out);
    assert [] + Quoted(a) == Quoted(a);
  }

  lemma DelimitWord(w: Word, out: seq<Token>)
    ensures Delimit(out, Current(true, w)) == out + [WordToken(w)]
  {
  }

  lemma JoinStep(argv: seq<string>)
    requires argv != []
    ensures ShJoin(argv) == ShellQuote(argv[0]) + (if |argv| == 1 then "" else " " + ShJoin(argv[1..]))
  {
    var q := QuoteAll(argv);
    QuoteAllAt(argv, 0);
    assert q[1..] == QuoteAll(argv[1..]);
    if |argv| == 1 {
      assert ShellQuote(argv[0]) + "" == ShellQuote(argv[0]);
    } else {
      assert q[0] + " " + Join(q[1..]) == q[0] + (" " + Join(q[1..]));
    }
  }

  /** The words of `shJoin(argv)`, after quote removal, are exactly `argv`, for every list of
      strings; nothing in it is an operator or an expansion, and every character is quoted. */
  lemma ShJoinRoundTrip(argv: seq<string>)
    ensures var l := Tokenize(ShJoin(argv));
            && l.Tokens? && |l.tokens| == |argv|
            && forall i | 0 <= i < |argv| ::
                 && l.tokens[i].WordToken? && Text(l.tokens[i].word) == argv[i]
                 && forall x | x in l.tokens[i].word :: x.1
  {
    LexJoined(argv, []);
    assert [] + QuotedTokens(argv) == QuotedTokens(argv);
    forall i | 0 <= i < |argv|
      ensures |QuotedTokens(argv)| == |argv| && QuotedTokens(argv)[i] == WordToken(Quoted(argv[i]))
    {
      QuotedTokensAt(argv, i);
      QuotedIsText(argv[i]);
    }
    forall i | 0 <= i < |argv| ensures Text(Quoted(argv[i])) == argv[i] && forall x | x in Quoted(argv[i]) :: x.1 {
      QuotedIsText(argv[i]);
    }
    QuotedTokensLength(argv);
  }

  lemma {:induction false} QuotedTokensAt(argv: seq<string>, i: nat)
    requires i < |argv|
    ensures |QuotedTokens(argv)| == |argv| && QuotedTokens(argv)[i] == WordToken(Quoted(argv[i]))
  {
    QuotedTokensLength(argv);
    if i > 0 {
      QuotedTokensAt(argv[1..], i - 1);
    }
  }

  lemma {:induction false} QuotedTokensLength(argv: seq<string>)
    ensures |QuotedTokens(argv)| == |argv|
  {
    if argv != [] {
      QuotedTokensLength(argv[1..]);
    }
  }

  /** Different argument lists never give the same command text. */
  lemma ShJoinInjective(a: seq<string>, b: seq<string>)
    requires ShJoin(a) == ShJoin(b)
    ensures a == b
  {
    ShJoinRoundTrip(a);
    ShJoinRoundTrip(b);
  }

  /** `shellQuote(s)` is the single word `s`. */
  lemma ShellQuoteIsOneWord(s: string)
    ensures Tokenize(ShellQuote(s)) == Tokens([WordToken(Quoted(s))]) && Text(Quoted(s)) == s
  {
    JoinStep([s]);
    assert ShellQuote(s) + "" == ShellQuote(s);
    LexJoined([s], []);
    assert QuotedTokens([s]) == [WordToken(Quoted(s))];
    assert [] + QuotedTokens([s]) == QuotedTokens([s]);
    QuotedIsText(s);
  }

  // ---- the whole commands they are used in --------------------------------------------------

  predicate IsPlain(c: char) {
    && !IsBlank(c) && !IsOperatorChar(c)
    && c != '\'' && c != '"' && c != '\\' && c != '$' && c != '`' && c != '\n' && c != '#'
  }

  predicate AllPlain(s: string) {
    forall i | 0 <= i < |s| :: IsPlain(s[i])
  }

  lemma LexPlainChar(c: char, rest: string, cur: Current, out: seq<Token>)
    requires IsPlain(c)
    ensures Lex([c] + rest, Plain, cur, out) == Lex(rest, Plain, Put(cur, c, false), out)
  {
    assert ([c] + rest)[1..] == rest;
  }

  lemma {:induction false} LexBare(a: string, rest: string, cur: Current, out: seq<Token>)
    requires a != [] && AllPlain(a)
    ensures Lex(a + rest, Plain, cur, out) == Lex(rest, Plain, Current(true, cur.word + Bare(a)), out)
  {
    hide Lex, IsPlain;
    assert a + rest == [a[0]] + (a[1..] + rest);
    LexPlainChar(a[0], a[1..] + rest, cur, out);
    FirstOfBare(a, cur);
    hide Bare, Put;
    if |a| > 1 {
      LexBare(a[1..], rest, Put(cur, a[0], false), out);
    } else {
      assert a[1..] + rest == rest;
    }
  }

  lemma FirstOfBare(a: string, cur: Current)
    requires a != []
    ensures var next := Put(cur, a[0], false);
            && next.open && next.word + Bare(a[1..]) == cur.word + Bare(a)
            && (|a| == 1 ==> next.word == cur.word + Bare(a))
  {
    var x, t := (a[0], false), Bare(a[1..]);
    assert Bare(a) == [x] + t && (|a| == 1 ==> t == []);
    hide Bare;
    Reassociate(cur.word, x, t);
  }

  lemma Reassociate(w: Word, x: (char, bool), t: Word)
    ensures (w + [x]) + t == w + ([x] + t) && (t == [] ==> w + [x] == w + ([x] + t))
  {
  }

  lemma LexBareThenBlank(a: string, rest: string, out: seq<Token>)
    requires a != [] && AllPlain(a)
    ensures Lex(a + " " + rest, Plain, NO_WORD, out) == Lex(rest, Plain, NO_WORD, out + [WordToken(Bare(a))])
  {
    hide Lex;
    assert a + " " + rest == a + (" " + rest);
    LexBare(a, " " + rest, NO_WORD, out);
    assert [] + Bare(a) == Bare(a);
    LexBlank(rest, Current(true, Bare(a)), out);
  }

  lemma LexSemicolon(rest: string, cur: Current, out: seq<Token>)
    ensures Lex("; " + rest, Plain, cur, out) == Lex(rest, Plain, NO_WORD, Delimit(out, cur) + [Operator(";")])
  {
    var s := "; " + rest;
    assert s[..2] == "; " && (|s| >= 3 ==> s[..3][1] == ' ');
    assert OperatorLength(s) == 1 && s[..1] == ";";
    assert s[1..] == " " + rest;
    LexBlank(rest, NO_WORD, Delimit(out, cur) + [Operator(";")]);
  }

  lemma LexBareThenSemicolon(a: string, rest: string, out: seq<Token>)
    requires a != [] && AllPlain(a)
    ensures Lex(a + "; " + rest, Plain, NO_WORD, out)
            == Lex(rest, Plain, NO_WORD, out + [WordToken(Bare(a)), Operator(";")])
  {
    hide Lex;
    assert a + "; " + rest == a + ("; " + rest);
    LexBare(a, "; " + rest, NO_WORD, out);
    assert [] + Bare(a) == Bare(a);
    LexSemicolon(rest, Current(true, Bare(a)), out);
    assert out + [WordToken(Bare(a))] + [Operator(";")] == out + [WordToken(Bare(a)), Operator(";")];
  }

  function Digit(d: nat): char
    requires d < 10
  {
    "0123456789"[d]
  }

  /** `%d` of a non-negative number. */
  function Decimal(n: nat): (s: string)
    ensures s != [] && AllPlain(s)
  {
    if n < 10 then [Digit(n)] else Decimal(n / 10) + [Digit(n % 10)]
  }

  /** The number that a text of digits denotes. */
  ghost function Denoted(s: string): int {
    if s == "" then 0 else 10 * Denoted(s[..|s| - 1]) + (s[|s| - 1] as int - '0' as int)
  }

  /** The text is that of the number: digits only, no zero in front, and it denotes the number. */
  lemma {:induction false} DecimalDenotes(n: nat)
    ensures Denoted(Decimal(n)) == n && forall c | c in Decimal(n) :: '0' <= c <= '9'
    ensures n > 0 ==> Decimal(n)[0] != '0'
  {
    if n >= 10 {
      DecimalDenotes(n / 10);
    } else {
      assert Denoted("") == 0 && Decimal(n)[..0] == "";
    }
  }

  /** The command of the netns backend: resource limits, then `exec` of the argument list. */
  function NetnsCommand(addressSpaceMB: nat, cpuSeconds: nat, argv: seq<string>): string {
    (if addressSpaceMB > 0 then "ulimit -v " + Decimal(addressSpaceMB * 1024) + "; " else "")
    + ("ulimit -t " + Decimal(cpuSeconds) + "; " + ("exec " + ShJoin(argv)))
  }

  function LimitTokens(flag: string, n: nat): seq<Token> {
    [WordToken(Bare("ulimit")), WordToken(Bare(flag)), WordToken(Bare(Decimal(n))), Operator(";")]
  }

  lemma LexLimit(flag: string, n: nat, rest: string, out: seq<Token>)
    requires flag != [] && AllPlain(flag)
    ensures Lex("ulimit " + flag + " " + Decimal(n) + "; " + rest, Plain, NO_WORD, out)
         == Lex(rest, Plain, NO_WORD, out + LimitTokens(flag, n))
  {
    hide Lex, Bare;
    var tail := Decimal(n) + "; " + rest;
    assert "ulimit " + flag + " " + Decimal(n) + "; " + rest == "ulimit" + " " + (flag + " " + tail);
    LexBareThenBlank("ulimit", flag + " " + tail, out);
    var out1 := out + [WordToken(Bare("ulimit"))];
    LexBareThenBlank(flag, tail, out1);
    var out2 := out1 + [WordToken(Bare(flag))];
    LexBareThenSemicolon(Decimal(n), rest, out2);
    assert out2 + [WordToken(Bare(Decimal(n))), Operator(";")] == out + LimitTokens(flag, n);
  }

  /** Whatever the argument list holds, the shell sees the limits, then `exec` with exactly
      that list: no argument adds, ends or redirects a command. */
  lemma NetnsCommandTokens(addressSpaceMB: nat, cpuSeconds: nat, argv: seq<string>)
    ensures Tokenize(NetnsCommand(addressSpaceMB, cpuSeconds, argv)) ==
            Tokens((if addressSpaceMB > 0 then LimitTokens("-v", addressSpaceMB * 1024) else [])
                   + LimitTokens("-t", cpuSeconds) + [WordToken(Bare("exec"))] + QuotedTokens(argv))
  {
    hide Lex, Bare;
    var head := if addressSpaceMB > 0 then LimitTokens("-v", addressSpaceMB * 1024) else [];
    var exec_ := "exec " + ShJoin(argv);
    var cpu := "ulimit -t " + Decimal(cpuSeconds) + "; " + exec_;
    if addressSpaceMB > 0 {
      LexLimit("-v", addressSpaceMB * 1024, cpu, []);
      assert "ulimit " + "-v" + " " == "ulimit -v ";
      assert [] + head == head;
    } else {
      assert "" + cpu == cpu;
    }
    assert "ulimit " + "-t" + " " == "ulimit -t ";
    LexLimit("-t", cpuSeconds, exec_, head);
    var out := head + LimitTokens("-t", cpuSeconds);
    assert exec_ == "exec" + " " + ShJoin(argv);
    LexBareThenBlank("exec", ShJoin(argv), out);
    LexJoined(argv, out + [WordToken(Bare("exec"))]);
  }
}
