/** The command line of a cron job given as words (cmd/envoryx/cli_workers.go): quoting words
    for a POSIX shell, against a reference lexer for the quoting rules of section 2.2 of the
    Shell Command Language (IEEE Std 1003.1). A character stands for a byte. */
module ShellWords {
  import opened Seqs

  const QUOTE := '\''
  const BACKSLASH := '\\'

  predicate Plain(c: char) {
    || 'a' <= c <= 'z' || 'A' <= c <= 'Z' || '0' <= c <= '9'
    || c == '_' || c == '-' || c == '.' || c == ',' || c == ':'
    || c == '/' || c == '@' || c == '%' || c == '+' || c == '='
  }

  predicate AllPlain(w: string) {
    forall i :: 0 <= i < |w| ==> Plain(w[i])
  }

  /** strings.ReplaceAll(w, "'", `'\''`). */
  function QuotesEscaped(w: string): string {
    if w == "" then ""
    else (if w[0] == QUOTE then [QUOTE, BACKSLASH, QUOTE, QUOTE] else [w[0]]) + QuotesEscaped(w[1..])
  }

  function Quoted(w: string): string {
    if w == "" then [QUOTE, QUOTE]
    else if AllPlain(w) then w
    else [QUOTE] + QuotesEscaped(w) + [QUOTE]
  }

  function QuotedAll(words: seq<string>): (q: seq<string>)
    ensures |q| == |words|
    ensures forall i :: 0 <= i < |words| ==> q[i] == Quoted(words[i])
  {
    seq(|words|, i requires 0 <= i < |words| => Quoted(words[i]))
  }

  /** No word after "--" leaves the flag's value, one is the shell line itself, several are
      quoted again. */
  function CommandLine(flagValue: string, after: seq<string>): string {
    if |after| == 0 then flagValue
    else if |after| == 1 then after[0]
    else Join(QuotedAll(after), ' ')
  }

  method ReplaceQuotes(w: string) returns (r: string)
    ensures r == QuotesEscaped(w)
  {
    r := "";
    for i := 0 to |w|
      invariant r + QuotesEscaped(w[i..]) == QuotesEscaped(w)
    {
      assert w[i..][1..] == w[i + 1..];
      r := r + if w[i] == QUOTE then [QUOTE, BACKSLASH, QUOTE, QUOTE] else [w[i]];
    }
  }

  method ShellQuote(w: string) returns (r: string)
    ensures r == Quoted(w)
  {
    if w == "" {
      return [QUOTE, QUOTE];
    }
    var plain := true;
    for i := 0 to |w|
      invariant plain && forall j :: 0 <= j < i ==> Plain(w[j])
    {
      if !Plain(w[i]) {
        assert !AllPlain(w);
        plain := false;
        break;
      }
    }
    assert plain <==> AllPlain(w);
    if plain {
      return w;
    }
    var body := ReplaceQuotes(w);
    return [QUOTE] + body + [QUOTE];
  }

  method CronCommandArg(flagValue: string, after: seq<string>) returns (line: string)
    ensures line == CommandLine(flagValue, after)
    ensures |after| == 0 ==> line == flagValue
    ensures |after| == 1 ==> line == after[0]
  {
    if |after| == 0 {
      return flagValue;
    }
    if |after| == 1 {
      return after[0];
    }
    var words := new string[|after|];
    for i := 0 to |after|
      invariant forall j :: 0 <= j < i ==> words[j] == Quoted(after[j])
    {
      words[i] := ShellQuote(after[i]);
    }
    assert words[..] == QuotedAll(after);
    return Join(words[..], ' ');
  }

  /** Exactly the non-empty words of plain characters stay as they are. */
  lemma PlainWordsStay(w: string)
    ensures Quoted(w) == w <==> w != "" && forall i :: 0 <= i < |w| ==>
      'a' <= w[i] <= 'z' || 'A' <= w[i] <= 'Z' || '0' <= w[i] <= '9' || w[i] in "_-.,:/@%+="
  {
    forall c: char ensures c in "_-.,:/@%+=" <==>
      c == '_' || c == '-' || c == '.' || c == ',' || c == ':' || c == '/' || c == '@' || c == '%' || c == '+' || c == '='
    {
    }
    if w != "" && !AllPlain(w) {
      EscapedNotShorter(w);
      assert |Quoted(w)| > |w|;
    }
  }

  lemma {:induction false} EscapedNotShorter(w: string)
    ensures |QuotesEscaped(w)| >= |w|
  {
    if w != "" {
      EscapedNotShorter(w[1..]);
    }
  }

  // ---- The shell's side ----

  /** Where the lexer is: outside quotes, in '...' or in "...". */
  datatype Mode = Unquoted | Single | Double

  /** A character that outside quotes does not stand for itself: operators and newline,
      expansions, patterns, and what POSIX leaves open. */
  predicate Special(c: char) {
    || c == '|' || c == '&' || c == ';' || c == '<' || c == '>' || c == '(' || c == ')'
    || c == '$' || c == '`' || c == '*' || c == '?' || c == '[' || c == '~' || c == '\n' || c == '\0'
  }

  predicate EscapedInDouble(c: char) {
    c == '$' || c == '`' || c == '"' || c == BACKSLASH
  }

  /** The words of a simple command in which nothing is expanded. `word` is the word begun
      so far; None is a line that is more than such words, or is not finished. A NUL cannot be
      passed to a shell; `nulOk` lets it stand for itself in quotes. */
  function Lex(s: string, word: Option<string>, mode: Mode, nulOk: bool): Option<seq<string>>
    decreases |s|
  {
    if s == "" then
      if mode != Unquoted then None
      else if word.None? then Some([]) else Some([word.value])
    else
      var c, rest := s[0], s[1..];
      var soFar := if word.Some? then word.value else "";
      match mode
      case Unquoted =>
        if c == ' ' || c == '\t' then
          var words := Lex(rest, None, Unquoted, nulOk);
          if word.None? || words.None? then words else Some([word.value] + words.value)
        else if c == QUOTE then Lex(rest, Some(soFar), Single, nulOk)
        else if c == '"' then Lex(rest, Some(soFar), Double, nulOk)
        else if c == BACKSLASH then
          if rest == "" || rest[0] == '\0' then None
          else if rest[0] == '\n' then Lex(rest[1..], word, Unquoted, nulOk)
          else Lex(rest[1..], Some(soFar + [rest[0]]), Unquoted, nulOk)
        else if Special(c) || (c == '#' && word.None?) then None
        else Lex(rest, Some(soFar + [c]), Unquoted, nulOk)
      case Single =>
        if c == QUOTE then Lex(rest, word, Unquoted, nulOk)
        else if c == '\0' && !nulOk then None
        else Lex(rest, Some(soFar + [c]), Single, nulOk)
      case Double =>
        if c == '"' then Lex(rest, word, Unquoted, nulOk)
        else if c == '$' || c == '`' || (c == '\0' && !nulOk) then None
        else if c == BACKSLASH && rest != "" && rest[0] == '\n' then Lex(rest[1..], word, Double, nulOk)
        else if c == BACKSLASH && rest != "" && EscapedInDouble(rest[0]) then Lex(rest[1..], Some(soFar + [rest[0]]), Double, nulOk)
        else Lex(rest, Some(soFar + [c]), Double, nulOk)
  }

  function ShellWordsOf(line: string): Option<seq<string>> {
    Lex(line, None, Unquoted, false)
  }

  predicate NulFree(w: string) {
    '\0' !in w
  }

  /** A plain word stands for itself. */
  lemma {:induction false} LexPlain(w: string, word: Option<string>, rest: string, nulOk: bool)
    requires AllPlain(w) && (w != "" || word.Some?)
    ensures Lex(w + rest, word, Unquoted, nulOk) == Lex(rest, Some((if word.Some? then word.value else "") + w), Unquoted, nulOk)
    decreases |w|
  {
    var soFar := if word.Some? then word.value else "";
    if w == "" {
      assert w + rest == rest && soFar + w == word.value;
    } else {
      assert Plain(w[0]);
      assert (w + rest)[1..] == w[1..] + rest;
      assert soFar + w == soFar + [w[0]] + w[1..];
      LexPlain(w[1..], Some(soFar + [w[0]]), rest, nulOk);
    }
  }

  lemma PlainNulFree(w: string)
    requires AllPlain(w)
    ensures NulFree(w)
  {
    assert !Plain('\0');
  }

  /** The shell's way around a single quote: close, escape, open again. */
  lemma LexQuoteEscape(soFar: string, tail: string, nulOk: bool)
    ensures Lex([QUOTE, BACKSLASH, QUOTE, QUOTE] + tail, Some(soFar), Single, nulOk) == Lex(tail, Some(soFar + [QUOTE]), Single, nulOk)
  {
    var s0 := [QUOTE, BACKSLASH, QUOTE, QUOTE] + tail;
    var s1 := [BACKSLASH, QUOTE, QUOTE] + tail;
    var s2 := [QUOTE, QUOTE] + tail;
    var s3 := [QUOTE] + tail;
    assert s0[1..] == s1 && s1[1..] == s2 && s2[1..] == s3 && s3[1..] == tail;
    assert Lex(s0, Some(soFar), Single, nulOk) == Lex(s1, Some(soFar), Unquoted, nulOk);
    assert Lex(s1, Some(soFar), Unquoted, nulOk) == Lex(s3, Some(soFar + [QUOTE]), Unquoted, nulOk);
  }

  /** Reading the escaped text and the closing quote. */
  lemma {:induction false} LexEscaped(w: string, soFar: string, rest: string, nulOk: bool)
    ensures Lex(QuotesEscaped(w) + [QUOTE] + rest, Some(soFar), Single, nulOk) ==
      if nulOk || NulFree(w) then Lex(rest, Some(soFar + w), Unquoted, nulOk) else None
    decreases |w|
  {
    var s := QuotesEscaped(w) + [QUOTE] + rest;
    if w == "" {
      assert s[1..] == rest && soFar + w == soFar;
    } else {
      var tail := QuotesEscaped(w[1..]) + [QUOTE] + rest;
      assert NulFree(w) <==> w[0] != '\0' && NulFree(w[1..]) by {
        assert w == [w[0]] + w[1..];
      }
      assert soFar + w == soFar + [w[0]] + w[1..];
      LexEscaped(w[1..], soFar + [w[0]], rest, nulOk);
      if w[0] == QUOTE {
        assert s == [QUOTE, BACKSLASH, QUOTE, QUOTE] + tail;
        LexQuoteEscape(soFar, tail, nulOk);
      } else {
        assert s == [w[0]] + tail;
        assert s[1..] == tail;
      }
    }
  }

  /** A quoted word is read as that word, whatever follows. */
  lemma LexQuoted(w: string, rest: string, nulOk: bool)
    ensures Lex(Quoted(w) + rest, None, Unquoted, nulOk) == if nulOk || NulFree(w) then Lex(rest, Some(w), Unquoted, nulOk) else None
  {
    if w != "" && AllPlain(w) {
      PlainNulFree(w);
      LexPlain(w, None, rest, nulOk);
      assert "" + w == w;
    } else {
      var s := [QUOTE] + QuotesEscaped(w) + [QUOTE];
      assert Quoted(w) == s;
      assert (s + rest)[1..] == QuotesEscaped(w) + [QUOTE] + rest;
      LexEscaped(w, "", rest, nulOk);
      assert "" + w == w;
    }
  }

  predicate AllNulFree(words: seq<string>) {
    forall i :: 0 <= i < |words| ==> NulFree(words[i])
  }

  lemma AllNulFreeCons(words: seq<string>)
    requires words != []
    ensures AllNulFree(words) <==> NulFree(words[0]) && AllNulFree(words[1..])
  {
    assert forall i :: 1 <= i < |words| ==> words[i] == words[1..][i - 1];
  }

  lemma LexSpace(word: string, rest: string, nulOk: bool)
    ensures var words := Lex(rest, None, Unquoted, nulOk);
      Lex([' '] + rest, Some(word), Unquoted, nulOk) == if words.None? then None else Some([word] + words.value)
  {
    assert ([' '] + rest)[1..] == rest;
  }

  lemma JoinQuoted(words: seq<string>)
    requires words != []
    ensures Join(QuotedAll(words), ' ') ==
      Quoted(words[0]) + if |words| == 1 then "" else [' '] + Join(QuotedAll(words[1..]), ' ')
  {
    assert QuotedAll(words)[1..] == QuotedAll(words[1..]);
  }

  lemma {:induction false} LexQuotedAll(words: seq<string>, nulOk: bool)
    requires words != []
    ensures Lex(Join(QuotedAll(words), ' '), None, Unquoted, nulOk) == if nulOk || AllNulFree(words) then Some(words) else None
    decreases |words|
  {
    AllNulFreeCons(words);
    JoinQuoted(words);
    assert words == [words[0]] + words[1..];
    if |words| == 1 {
      LexQuoted(words[0], "", nulOk);
      assert words == [words[0]] && words[1..] == [];
    } else {
      var rest := Join(QuotedAll(words[1..]), ' ');
      LexQuoted(words[0], [' '] + rest, nulOk);
      LexQuotedAll(words[1..], nulOk);
      LexSpace(words[0], rest, nulOk);
    }
  }

  /** The shell reads back exactly the words the line was made of, if and only if none of
      them holds a NUL byte. */
  lemma QuotingRoundTrip(flagValue: string, words: seq<string>)
    requires |words| >= 2
    ensures ShellWordsOf(CommandLine(flagValue, words)) == Some(words) <==> AllNulFree(words)
  {
    LexQuotedAll(words, false);
  }

  /** Different lists of words never give the same line. */
  lemma QuotingInjective(f: string, f': string, words: seq<string>, words': seq<string>)
    requires |words| >= 2 && |words'| >= 2
    requires CommandLine(f, words) == CommandLine(f', words')
    ensures words == words'
  {
    LexQuotedAll(words, true);
    LexQuotedAll(words', true);
  }

  // ---- One word ----

  predicate LiteralChar(c: char) {
    c != ' ' && c != '\t' && c != QUOTE && c != '"' && c != BACKSLASH && !Special(c)
  }

  /** The shell sees just this word. */
  predicate Literal(w: string) {
    w != "" && w[0] != '#' && forall i :: 0 <= i < |w| ==> LiteralChar(w[i])
  }

  lemma {:induction false} LexLiteral(w: string, word: Option<string>)
    requires forall i :: 0 <= i < |w| ==> LiteralChar(w[i])
    requires word.Some? || Literal(w)
    ensures Lex(w, word, Unquoted, false) == Some([(if word.Some? then word.value else "") + w])
    decreases |w|
  {
    var soFar := if word.Some? then word.value else "";
    if w == "" {
      assert soFar + w == word.value;
    } else {
      assert LiteralChar(w[0]);
      LexLiteral(w[1..], Some(soFar + [w[0]]));
      assert soFar + w == soFar + [w[0]] + w[1..];
    }
  }

  function Total(words: seq<string>): nat {
    if words == [] then 0 else |words[0]| + Total(words[1..])
  }

  function Begun(word: Option<string>): nat {
    if word.Some? then |word.value| else 0
  }

  /** Lexing never makes text longer, and a character that is not literal disappears. */
  lemma {:induction false} LexShortens(s: string, word: Option<string>, mode: Mode)
    requires Lex(s, word, mode, false).Some?
    ensures Total(Lex(s, word, mode, false).value) <= Begun(word) + |s|
    ensures mode == Unquoted && (exists i :: 0 <= i < |s| && !LiteralChar(s[i])) ==>
      Total(Lex(s, word, mode, false).value) < Begun(word) + |s|
    decreases |s|
  {
    if s != "" {
      var c, rest := s[0], s[1..];
      var soFar := if word.Some? then word.value else "";
      if mode == Unquoted {
        if c == ' ' || c == '\t' {
          LexShortens(rest, None, Unquoted);
        } else if c == QUOTE {
          LexShortens(rest, Some(soFar), Single);
        } else if c == '"' {
          LexShortens(rest, Some(soFar), Double);
        } else if c == BACKSLASH {
          if rest[0] == '\n' {
            LexShortens(rest[1..], word, Unquoted);
          } else {
            LexShortens(rest[1..], Some(soFar + [rest[0]]), Unquoted);
          }
        } else {
          LexShortens(rest, Some(soFar + [c]), Unquoted);
          if exists i :: 0 <= i < |s| && !LiteralChar(s[i]) {
            var i :| 0 <= i < |s| && !LiteralChar(s[i]);
            assert i > 0 && rest[i - 1] == s[i];
          }
        }
      } else if mode == Single {
        LexShortens(rest, if c == QUOTE then word else Some(soFar + [c]), if c == QUOTE then Unquoted else Single);
      } else if c == '"' {
        LexShortens(rest, word, Unquoted);
      } else if c == BACKSLASH && rest != "" && rest[0] == '\n' {
        LexShortens(rest[1..], word, Double);
      } else if c == BACKSLASH && rest != "" && EscapedInDouble(rest[0]) {
        LexShortens(rest[1..], Some(soFar + [rest[0]]), Double);
      } else {
        LexShortens(rest, Some(soFar + [c]), Double);
      }
    }
  }

  /** Neither white space, nor a quote, a backslash, an operator, an expansion, a pattern or a
      NUL, and no # at the beginning. */
  lemma LiteralExactly(w: string)
    ensures Literal(w) <==> w != "" && w[0] != '#' && forall i :: 0 <= i < |w| ==>
      w[i] !in [' ', '\t', '\n', '\0', '\'', '"', '\\', '|', '&', ';', '<', '>', '(', ')', '$', '`', '*', '?', '[', '~']
  {
  }

  lemma {:induction false} LexDouble(w: string, soFar: string, rest: string)
    requires forall i :: 0 <= i < |w| ==> w[i] !in ['$', '`', '"', '\\', '\0']
    ensures Lex(w + ['"'] + rest, Some(soFar), Double, false) == Lex(rest, Some(soFar + w), Unquoted, false)
    decreases |w|
  {
    var s := w + ['"'] + rest;
    if w == "" {
      assert s[1..] == rest && soFar + w == soFar;
    } else {
      assert w[0] !in ['$', '`', '"', '\\', '\0'];
      assert s == [w[0]] + (w[1..] + ['"'] + rest);
      assert s[1..] == w[1..] + ['"'] + rest;
      assert soFar + w == soFar + [w[0]] + w[1..];
      LexDouble(w[1..], soFar + [w[0]], rest);
    }
  }

  /** In double quotes text without expansions stands for itself; a backslash hides $, `, "
      and itself only. */
  lemma DoubleQuotes(w: string, c: char, rest: string)
    requires forall i :: 0 <= i < |w| ==> w[i] !in ['$', '`', '"', '\\', '\0']
    requires c != '\0' && c != '\n'
    ensures ShellWordsOf(['"'] + (w + ['"'])) == Some([w])
    ensures Lex(['\\', c] + rest, Some(w), Double, false) ==
      if c in ['$', '`', '"', '\\'] then Lex(rest, Some(w + [c]), Double, false)
      else Lex([c] + rest, Some(w + ['\\']), Double, false)
  {
    LexDouble(w, "", "");
    assert w + ['"'] + "" == w + ['"'] && "" + w == w;
    assert (['"'] + (w + ['"']))[1..] == w + ['"'];
    var s := ['\\', c] + rest;
    assert s[1..] == [c] + rest && s[1..][1..] == rest;
  }

  /** A single word after "--" is the shell line itself, so the shell sees that one word
      exactly when it is literal; "a b" gives two words and "a;b" none. */
  lemma SingleWordIsLine(flagValue: string, w: string)
    ensures ShellWordsOf(CommandLine(flagValue, [w])) == Some([w]) <==> Literal(w)
  {
    assert Total([w]) == |w| by { assert [w][1..] == []; }
    if Literal(w) {
      LexLiteral(w, None);
      assert "" + w == w;
    } else if ShellWordsOf(w) == Some([w]) {
      LexShortens(w, None, Unquoted);
    }
  }
}
