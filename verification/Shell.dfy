/** Shell quoting (src/export.rs). `ShellQuote` is a printer; its parser is the token recognition and
    quote removal of the Shell Command Language, POSIX.1-2017, sections 2.2.1 (escape character),
    2.2.2 (single quotes), 2.3 (token recognition) and 2.6.7 (quote removal). */
module Shell {

  // ----- The printer

  predicate IsSafe(c: char) {
    || 'a' <= c <= 'z' || 'A' <= c <= 'Z' || '0' <= c <= '9'
    || c == '.' || c == '_' || c == '-' || c == '+' || c == '=' || c == '/' || c == ':'
  }

  predicate AllSafe(s: string) {
    forall i | 0 <= i < |s| :: IsSafe(s[i])
  }

  function Piece(c: char): (t: string) {
    if c == '\'' then "'\\''" else [c]
  }

  function Inner(s: string): (t: string) {
    if s == "" then "" else Inner(s[..|s| - 1]) + Piece(s[|s| - 1])
  }

  function Quoted(s: string): (t: string)
    ensures t != ""
  {
    if s == "" then "''"
    else if AllSafe(s) then s
    else "'" + Inner(s) + "'"
  }

  /** Single-quote a shell argument. */
  method ShellQuote(s: string) returns (out: string)
    ensures out == Quoted(s)
  {
    if s == "" {
      return "''";
    }
    if '\'' !in s && AllSafe(s) {
      return s;
    }
    var inner := QuoteEach(s);
    out := "'" + inner + "'";
  }

  /** The loop over the characters. */
  method QuoteEach(s: string) returns (out: string)
    ensures out == Inner(s)
  {
    out := "";
    for i := 0 to |s|
      invariant out == Inner(s[..i])
    {
      assert s[..i + 1][..i] == s[..i];
      if s[i] == '\'' {
        out := out + "'\\''";
      } else {
        out := out + [s[i]];
      }
    }
    assert s[..|s|] == s;
  }

  function Joined(args: seq<string>): (s: string) {
    if args == [] then ""
    else if |args| == 1 then Quoted(args[0])
    else Quoted(args[0]) + " " + Joined(args[1..])
  }

  /** The scheduler arguments of the preamble: quote each, join with spaces. */
  method JoinArguments(args: seq<string>) returns (joined: string)
    ensures joined == Joined(args)
  {
    var tokens: seq<string> := [];
    for i := 0 to |args|
      invariant |tokens| == i && forall k | 0 <= k < i :: tokens[k] == Quoted(args[k])
    {
      var token := ShellQuote(args[i]);
      tokens := tokens + [token];
    }
    joined := "";
    var i := |tokens|;
    while i > 0
      invariant 0 <= i <= |tokens|
      invariant joined == Joined(args[i..])
    {
      i := i - 1;
      assert args[i..][1..] == args[i + 1..];
      joined := if i == |tokens| - 1 then tokens[i] else tokens[i] + " " + joined;
    }
    assert args[0..] == args;
  }

  // ----- The parser

  predicate IsBlank(c: char) {
    c == ' ' || c == '\t'
  }

  /** A newline or an operator ends the arguments. */
  predicate IsOperator(c: char) {
    c == '\n' || c == '|' || c == '&' || c == ';' || c == '<' || c == '>' || c == '(' || c == ')'
  }

  /** Characters that are not plain text outside quotes: expansions, double quotes, patterns, comments,
      braces. The parser below refuses them, so what it accepts has no unquoted metacharacter. */
  predicate IsMeta(c: char) {
    c == '$' || c == '`' || c == '"' || c == '*' || c == '?' || c == '[' || c == '~' || c == '#' || c == '!'
    || c == '{' || c == '}' || c == '\0'
  }

  /** The words recognised so far and what is being read. `Done` is reached at the first unquoted
      operator and keeps the text from there on; `Escaped(back)` has read a backslash in state `back`. */
  datatype State =
    | Between(words: seq<string>)
    | InWord(words: seq<string>, word: string)
    | InQuotes(words: seq<string>, word: string)
    | Escaped(back: State)
    | Done(words: seq<string>, rest: string)
    | Refused

  function Plain(st: State, words: seq<string>, word: string, c: char): (next: State) {
    if c == '\'' then InQuotes(words, word)
    else if c == '\\' then Escaped(st)
    else if IsMeta(c) then Refused
    else InWord(words, word + [c])
  }

  function Read(st: State, c: char): (next: State) {
    match st
    case Between(words) =>
      if IsOperator(c) then Done(words, [c])
      else if IsBlank(c) then st
      else Plain(st, words, "", c)
    case InWord(words, word) =>
      if IsOperator(c) then Done(words + [word], [c])
      else if IsBlank(c) then Between(words + [word])
      else Plain(st, words, word, c)
    case InQuotes(words, word) =>
      if c == '\0' then Refused
      else if c == '\'' then InWord(words, word)
      else InQuotes(words, word + [c])
    case Escaped(back) =>
      if c == '\n' then back
      else if c == '\0' then Refused
      else if back.Between? then InWord(back.words, [c])
      else if back.InWord? then InWord(back.words, back.word + [c])
      else Refused
    case Done(words, rest) => Done(words, rest + [c])
    case Refused => Refused
  }

  function Run(st: State, s: string): (next: State)
    decreases |s|
  {
    if s == "" then st else Run(Read(st, s[0]), s[1..])
  }

  /** The words up to the first unquoted operator, and the text from there on. */
  datatype Command = Command(words: seq<string>, rest: string) | Invalid

  function Tokenise(s: string): (r: Command) {
    match Run(Between([]), s)
    case Between(words) => Command(words, "")
    case InWord(words, word) => Command(words + [word], "")
    case Done(words, rest) => Command(words, rest)
    case _ => Invalid
  }

  // ----- Round trip

  ghost predicate NulFree(s: string) {
    forall i | 0 <= i < |s| :: s[i] != '\0'
  }

  ghost predicate AllNulFree(args: seq<string>) {
    forall i | 0 <= i < |args| :: NulFree(args[i])
  }

  lemma {:induction false} RunAppend(st: State, s: string, t: string)
    ensures Run(st, s + t) == Run(Run(st, s), t)
    decreases |s|
  {
    if s == "" {
      assert s + t == t;
    } else {
      assert (s + t)[1..] == s[1..] + t;
      RunAppend(Read(st, s[0]), s[1..], t);
    }
  }

  lemma RunOne(st: State, c: char)
    ensures Run(st, [c]) == Read(st, c)
  {
    assert [c][1..] == "";
    assert Run(Read(st, c), "") == Read(st, c);
  }

  lemma {:induction false} RefusedStays(s: string)
    ensures Run(Refused, s) == Refused
  {
    if s != "" {
      RefusedStays(s[1..]);
    }
  }

  lemma {:induction false} DoneCollects(words: seq<string>, rest: string, s: string)
    ensures Run(Done(words, rest), s) == Done(words, rest + s)
    decreases |s|
  {
    if s == "" {
      assert rest + s == rest;
    } else {
      DoneCollects(words, rest + [s[0]], s[1..]);
      assert rest + [s[0]] + s[1..] == rest + s;
    }
  }

  lemma {:induction false} RunSafe(words: seq<string>, word: string, s: string)
    requires AllSafe(s)
    ensures Run(InWord(words, word), s) == InWord(words, word + s)
    decreases |s|
  {
    if s == "" {
      assert word + s == word;
    } else {
      SafeIsPlain(s[0]);
      RunSafe(words, word + [s[0]], s[1..]);
      assert word + [s[0]] + s[1..] == word + s;
    }
  }

  /** A quoted quote closes, escapes and reopens. */
  lemma RunEscapedQuote(words: seq<string>, word: string)
    ensures Run(InQuotes(words, word), "'\\''") == InQuotes(words, word + ['\''])
  {
    var st := InWord(words, word);
    RunAppend(InQuotes(words, word), "'", "\\''");
    RunOne(InQuotes(words, word), '\'');
    assert "'" + "\\''" == "'\\''";
    RunAppend(st, "\\", "''");
    RunOne(st, '\\');
    assert "\\" + "''" == "\\''";
    RunAppend(Escaped(st), "'", "'");
    RunOne(Escaped(st), '\'');
    assert "'" + "'" == "''";
    RunOne(InWord(words, word + ['\'']), '\'');
  }

  lemma RunPiece(words: seq<string>, word: string, c: char)
    ensures Run(InQuotes(words, word), Piece(c)) == if c == '\0' then Refused else InQuotes(words, word + [c])
  {
    RunEscapedQuote(words, word);
    RunOne(InQuotes(words, word), c);
  }

  lemma NulFreeStep(s: string)
    requires s != ""
    ensures NulFree(s) <==> NulFree(s[..|s| - 1]) && s[|s| - 1] != '\0'
  {
    assert s == s[..|s| - 1] + [s[|s| - 1]];
  }

  lemma {:induction false} RunInner(words: seq<string>, word: string, s: string)
    ensures Run(InQuotes(words, word), Inner(s)) == if NulFree(s) then InQuotes(words, word + s) else Refused
    decreases |s|
  {
    if s == "" {
      assert word + s == word;
    } else {
      var front, c := s[..|s| - 1], s[|s| - 1];
      RunAppend(InQuotes(words, word), Inner(front), Piece(c));
      RunInner(words, word, front);
      RunPiece(words, word + front, c);
      RefusedStays(Piece(c));
      NulFreeStep(s);
      assert word + front + [c] == word + s;
    }
  }

  lemma RunQuotes(words: seq<string>, a: string)
    ensures Run(Between(words), "'" + Inner(a) + "'") == if NulFree(a) then InWord(words, a) else Refused
  {
    var open := "'" + Inner(a);
    RunAppend(Between(words), open, "'");
    assert Run(Between(words), open) == Run(InQuotes(words, ""), Inner(a)) by {
      RunAppend(Between(words), "'", Inner(a));
      RunOne(Between(words), '\'');
    }
    RunInner(words, "", a);
    assert "" + a == a;
    RunOne(Run(Between(words), open), '\'');
  }

  lemma {:induction false} RunFirstSafe(words: seq<string>, c: char)
    requires IsSafe(c)
    ensures Run(Between(words), [c]) == InWord(words, [c])
  {
    RunOne(Between(words), c);
    SafeIsPlain(c);
    assert "" + [c] == [c];
  }

  lemma SafeIsPlain(c: char)
    requires IsSafe(c)
    ensures !IsOperator(c) && !IsBlank(c) && !IsMeta(c) && c != '\'' && c != '\\'
  {
  }

  lemma {:induction false} RunSafeWord(words: seq<string>, a: string)
    requires a != "" && AllSafe(a)
    ensures Run(Between(words), a) == InWord(words, a)
  {
    var first := [a[0]];
    RunFirstSafe(words, a[0]);
    RunAppend(Between(words), first, a[1..]);
    RunSafe(words, first, a[1..]);
    assert first + a[1..] == a;
  }

  /** One printed argument is read back as one word, unless it contains a NUL. */
  lemma RunArgument(words: seq<string>, a: string)
    ensures Run(Between(words), Quoted(a)) == if NulFree(a) then InWord(words, a) else Refused
  {
    if a == "" {
      RunQuotes(words, a);
      assert "'" + Inner(a) + "'" == "''";
    } else if AllSafe(a) {
      RunSafeWord(words, a);
    } else {
      RunQuotes(words, a);
    }
  }

  /** The state after the arguments: all but the last recognised and the last being read. */
  function AfterArguments(words: seq<string>, args: seq<string>): (st: State) {
    if args == [] then Between(words) else InWord(words + args[..|args| - 1], args[|args| - 1])
  }

  lemma RunFirstArgument(words: seq<string>, a: string, rest: string)
    ensures Run(Between(words), Quoted(a) + " " + rest)
         == if NulFree(a) then Run(Between(words + [a]), rest) else Refused
  {
    var st := Between(words);
    RunAppend(st, Quoted(a) + " ", rest);
    RunAppend(st, Quoted(a), " ");
    RunArgument(words, a);
    RunOne(Run(st, Quoted(a)), ' ');
    RefusedStays(rest);
  }

  lemma AllNulFreeStep(args: seq<string>)
    requires args != []
    ensures AllNulFree(args) <==> NulFree(args[0]) && AllNulFree(args[1..])
  {
    assert args == [args[0]] + args[1..];
  }

  lemma AfterMore(words: seq<string>, args: seq<string>)
    requires |args| > 1
    ensures AfterArguments(words + [args[0]], args[1..]) == AfterArguments(words, args)
  {
    var rest := args[1..];
    assert words + [args[0]] + rest[..|rest| - 1] == words + args[..|args| - 1];
  }

  lemma {:induction false} RunJoined(words: seq<string>, args: seq<string>)
    ensures Run(Between(words), Joined(args)) == if AllNulFree(args) then AfterArguments(words, args) else Refused
    decreases |args|
  {
    if args == [] {
    } else if |args| == 1 {
      RunArgument(words, args[0]);
      AllNulFreeStep(args);
      assert words + args[..0] == words;
    } else {
      RunFirstArgument(words, args[0], Joined(args[1..]));
      RunJoined(words + [args[0]], args[1..]);
      AllNulFreeStep(args);
      AfterMore(words, args);
    }
  }

  lemma AllButLast(args: seq<string>)
    requires args != []
    ensures [] + args[..|args| - 1] + [args[|args| - 1]] == args
  {
  }

  /** The joined arguments alone tokenise to exactly the argument list, empty arguments included, and
      are refused when an argument contains a NUL. */
  lemma RoundTrip(args: seq<string>)
    ensures Tokenise(Joined(args)) == if AllNulFree(args) then Command(args, "") else Invalid
  {
    RunJoined([], args);
    if args != [] {
      AllButLast(args);
    }
  }

  /** A space and `&` end the arguments. */
  lemma RunAmpersand(args: seq<string>, after: string)
    ensures Run(AfterArguments([], args), " &" + after) == Done(args, "&" + after)
  {
    var st := AfterArguments([], args);
    if args != [] {
      AllButLast(args);
    }
    RunAppend(st, " &", after);
    RunAppend(st, " ", "&");
    assert " " + "&" == " &";
    RunOne(st, ' ');
    RunOne(Between(args), '&');
    DoneCollects(args, "&", after);
  }

  /** The preamble's command line: the arguments, a space, `&` and whatever follows. The shell sees
      the argument list exactly when no argument contains a NUL. */
  lemma SchedulerLine(args: seq<string>, after: string)
    ensures Tokenise(Joined(args) + (" &" + after)) == if AllNulFree(args) then Command(args, "&" + after) else Invalid
  {
    RunAppend(Between([]), Joined(args), " &" + after);
    RunJoined([], args);
    RunAmpersand(args, after);
    RefusedStays(" &" + after);
  }
}
