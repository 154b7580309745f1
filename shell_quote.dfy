/**
 * The clipboard line built at src/main.rs:126 and 134: `printf` with the
 * format `%s` and the command as a single-quoted word, piped into `pbcopy`.
 * Before quoting, every single quote of the command is replaced by the four
 * characters quote, backslash, quote, quote.
 *
 * `Escape` is that replacement; `Quote` wraps its result in single quotes. To say what
 * the shell makes of the result, a small lexer for the part of the POSIX
 * Shell Command Language that the line uses (section 2.2.1 "Escape
 * Character (Backslash)", section 2.2.2 "Single-Quotes", blanks between
 * words and the `|` operator) turns a line into tokens; anything else
 * that the shell would treat specially outside quotes is refused.
 */
module ShellQuote {
  import opened Wrappers

  const SingleQuote: char := '\''
  const Backslash: char := '\\'

  /** What one `'` becomes: close the quote, an escaped quote, reopen the quote. */
  const EscapedQuote: string := [SingleQuote, Backslash, SingleQuote, SingleQuote]

  function Count(s: string, c: char): nat {
    if s == [] then 0 else (if s[0] == c then 1 else 0) + Count(s[1..], c)
  }

  /** `command.replace("'", "'\\''")`: every quote is replaced, every other character stays. */
  function Escape(s: string): (r: string)
    ensures |r| == |s| + 3 * Count(s, SingleQuote)
  {
    if s == [] then []
    else (if s[0] == SingleQuote then EscapedQuote else [s[0]]) + Escape(s[1..])
  }

  /** The replacement works on each character separately, so it distributes over concatenation. */
  lemma {:induction false} EscapeConcat(a: string, b: string)
    ensures Escape(a + b) == Escape(a) + Escape(b)
  {
    if a == [] {
      assert a + b == b;
    } else {
      assert (a + b)[0] == a[0];
      assert (a + b)[1..] == a[1..] + b;
      EscapeConcat(a[1..], b);
    }
  }

  /** A string without quotes is left as it is. */
  lemma {:induction false} EscapeNoQuote(s: string)
    requires SingleQuote !in s
    ensures Escape(s) == s
  {
    if s != [] {
      assert s[0] != SingleQuote;
      assert SingleQuote !in s[1..];
      EscapeNoQuote(s[1..]);
    }
  }

  /** The word `'…'` handed to `printf`. */
  function Quote(s: string): (r: string)
    ensures |r| == |s| + 2 + 3 * Count(s, SingleQuote)
    ensures r[0] == SingleQuote && r[|r| - 1] == SingleQuote
  {
    [SingleQuote] + Escape(s) + [SingleQuote]
  }

  /** The argument of `sh -c` that copies `command` to the clipboard. */
  function ClipboardScript(command: string): (r: string)
    ensures |r| == |command| + 3 * Count(command, SingleQuote) + 23
    ensures |r| > |command|
  {
    "printf '%s' " + Quote(command) + " | pbcopy"
  }

  // ---------------------------------------------------------------- the lexer

  datatype Token = Word(text: string) | Pipe

  datatype LexError = Unterminated | DanglingBackslash | Unsupported(c: char)

  /** Between words, inside an unquoted part of a word, or inside single quotes. */
  datatype Mode = Between | InWord(sofar: string) | InQuote(sofar: string)

  predicate IsBlank(c: char) { c == ' ' || c == '\t' }

  /** Characters the shell treats specially outside quotes and that this lexer does not take on. */
  predicate IsUnsupported(c: char) {
    || c == '&' || c == ';' || c == '<' || c == '>' || c == '(' || c == ')'
    || c == '$' || c == '`' || c == '"' || c == '\n' || c == '*' || c == '?'
    || c == '[' || c == '#' || c == '~'
  }

  /** A character that stands for itself outside quotes. */
  predicate IsOrdinary(c: char) {
    !IsBlank(c) && c != '|' && c != SingleQuote && c != Backslash && !IsUnsupported(c)
  }

  function SoFar(m: Mode): string {
    match m
    case Between => []
    case InWord(w) => w
    case InQuote(w) => w
  }

  /** The word in progress, if any, as a token list. */
  function Flush(m: Mode): seq<Token> {
    if m.Between? then [] else [Word(SoFar(m))]
  }

  function LexFrom(s: string, m: Mode, acc: seq<Token>): Result<seq<Token>, LexError>
    decreases |s|
  {
    if s == [] then
      if m.InQuote? then Failure(Unterminated) else Success(acc + Flush(m))
    else
      var c := s[0];
      if m.InQuote? then
        if c == SingleQuote then LexFrom(s[1..], InWord(m.sofar), acc)
        else LexFrom(s[1..], InQuote(m.sofar + [c]), acc)
      else if IsBlank(c) then LexFrom(s[1..], Between, acc + Flush(m))
      else if c == '|' then LexFrom(s[1..], Between, acc + Flush(m) + [Pipe])
      else if c == SingleQuote then LexFrom(s[1..], InQuote(SoFar(m)), acc)
      else if c == Backslash then
        if |s| < 2 then Failure(DanglingBackslash)
        else if s[1] == '\n' then LexFrom(s[2..], m, acc)
        else LexFrom(s[2..], InWord(SoFar(m) + [s[1]]), acc)
      else if IsUnsupported(c) then Failure(Unsupported(c))
      else LexFrom(s[1..], InWord(SoFar(m) + [c]), acc)
  }

  function Lex(s: string): Result<seq<Token>, LexError> {
    LexFrom(s, Between, [])
  }

  lemma StepQuoted(c: char, rest: string, w: string, acc: seq<Token>)
    requires c != SingleQuote
    ensures LexFrom([c] + rest, InQuote(w), acc) == LexFrom(rest, InQuote(w + [c]), acc)
  {
    assert ([c] + rest)[1..] == rest;
  }

  lemma StepCloseQuote(rest: string, w: string, acc: seq<Token>)
    ensures LexFrom([SingleQuote] + rest, InQuote(w), acc) == LexFrom(rest, InWord(w), acc)
  {
    assert ([SingleQuote] + rest)[1..] == rest;
  }

  /** The four characters that stand for one quote: close, backslash-quote, reopen. */
  lemma StepEscapedQuote(rest: string, w: string, acc: seq<Token>)
    ensures LexFrom(EscapedQuote + rest, InQuote(w), acc) == LexFrom(rest, InQuote(w + [SingleQuote]), acc)
  {
    var t := EscapedQuote + rest;
    assert t[1..] == [Backslash, SingleQuote, SingleQuote] + rest;
    StepCloseQuote(t[1..], w, acc);
    var t1 := t[1..];
    assert t1[0] == Backslash && t1[1] == SingleQuote && t1[2..] == [SingleQuote] + rest;
    assert LexFrom(t1, InWord(w), acc) == LexFrom(t1[2..], InWord(w + [SingleQuote]), acc);
    StepOpenQuote(rest, InWord(w + [SingleQuote]), acc);
  }

  /** Inside single quotes, the escape of the first character adds exactly that character. */
  lemma LexEscapedHead(s: string, rest: string, w: string, acc: seq<Token>)
    requires s != []
    ensures LexFrom(Escape(s) + [SingleQuote] + rest, InQuote(w), acc)
         == LexFrom(Escape(s[1..]) + [SingleQuote] + rest, InQuote(w + [s[0]]), acc)
  {
    var c := s[0];
    var tail := Escape(s[1..]) + [SingleQuote] + rest;
    if c == SingleQuote {
      assert Escape(s) + [SingleQuote] + rest == EscapedQuote + tail;
      StepEscapedQuote(tail, w, acc);
    } else {
      assert Escape(s) + [SingleQuote] + rest == [c] + tail;
      StepQuoted(c, tail, w, acc);
    }
  }

  /**
   * Inside single quotes, the escaped text followed by the closing quote
   * contributes exactly the original text to the word being built.
   */
  lemma {:induction false} LexEscaped(s: string, rest: string, w: string, acc: seq<Token>)
    ensures LexFrom(Escape(s) + [SingleQuote] + rest, InQuote(w), acc) == LexFrom(rest, InWord(w + s), acc)
  {
    if s == [] {
      assert Escape(s) + [SingleQuote] + rest == [SingleQuote] + rest;
      StepCloseQuote(rest, w, acc);
      assert w + s == w;
    } else {
      LexEscapedHead(s, rest, w, acc);
      LexEscaped(s[1..], rest, w + [s[0]], acc);
      assert w + [s[0]] + s[1..] == w + s;
    }
  }

  /** Round trip: the shell reads the quoted escape of any string back as that one string, as a single word. */
  lemma QuoteRoundTrip(s: string)
    ensures Lex(Quote(s)) == Success([Word(s)])
  {
    var q := Quote(s);
    assert q[0] == SingleQuote;
    assert q[1..] == Escape(s) + [SingleQuote] + [];
    assert Lex(q) == LexFrom(q[1..], InQuote([]), []);
    LexEscaped(s, [], [], []);
    assert [] + s == s;
    assert LexFrom([], InWord(s), []) == Success([] + [Word(s)]);
    assert [] + [Word(s)] == [Word(s)];
  }

  /** The escaping loses nothing: different commands give different quoted words. */
  lemma QuoteInjective(s: string, t: string)
    requires Quote(s) == Quote(t)
    ensures s == t
  {
    QuoteRoundTrip(s);
    QuoteRoundTrip(t);
  }

  /** Ordinary characters extend the word in progress. */
  lemma {:induction false} LexOrdinary(p: string, rest: string, m: Mode, acc: seq<Token>)
    requires |p| > 0 && !m.InQuote?
    requires forall k :: 0 <= k < |p| ==> IsOrdinary(p[k])
    ensures LexFrom(p + rest, m, acc) == LexFrom(rest, InWord(SoFar(m) + p), acc)
  {
    assert (p + rest)[0] == p[0];
    assert (p + rest)[1..] == p[1..] + rest;
    if |p| == 1 {
      assert p[1..] + rest == rest;
      assert SoFar(m) + [p[0]] == SoFar(m) + p;
    } else {
      LexOrdinary(p[1..], rest, InWord(SoFar(m) + [p[0]]), acc);
      assert SoFar(m) + [p[0]] + p[1..] == SoFar(m) + p;
    }
  }

  lemma StepBlank(rest: string, m: Mode, acc: seq<Token>)
    requires !m.InQuote?
    ensures LexFrom([' '] + rest, m, acc) == LexFrom(rest, Between, acc + Flush(m))
  {
    assert ([' '] + rest)[1..] == rest;
  }

  lemma StepPipe(rest: string, m: Mode, acc: seq<Token>)
    requires !m.InQuote?
    ensures LexFrom(['|'] + rest, m, acc) == LexFrom(rest, Between, acc + Flush(m) + [Pipe])
  {
    assert (['|'] + rest)[1..] == rest;
  }

  lemma StepOpenQuote(rest: string, m: Mode, acc: seq<Token>)
    requires !m.InQuote?
    ensures LexFrom([SingleQuote] + rest, m, acc) == LexFrom(rest, InQuote(SoFar(m)), acc)
  {
    assert ([SingleQuote] + rest)[1..] == rest;
  }

  /** The clipboard line around an arbitrary quoted text, regrouped. */
  lemma ScriptSkeleton(e: string)
    ensures "printf '%s' " + ([SingleQuote] + e + [SingleQuote]) + " | pbcopy" ==
      "printf" + ([' '] + ([SingleQuote] + ("%s" + [SingleQuote] + ([' '] + ([SingleQuote] + (e + [SingleQuote] + ([' '] + (['|'] + ([' '] + "pbcopy")))))))))
  {
    var q := SingleQuote;
    var tail := [' '] + (['|'] + ([' '] + "pbcopy"));
    assert " | pbcopy" == tail;
    var head := "printf" + ([' '] + ([q] + ("%s" + [q] + [' '])));
    assert "printf '%s' " == head;
    assert head + ([q] + e + [q]) + tail == head + ([q] + (e + [q] + tail));
    assert "%s" + [q] + [' '] + ([q] + (e + [q] + tail)) == "%s" + [q] + ([' '] + ([q] + (e + [q] + tail)));
  }

  /** The clipboard line, cut at the places where the lexer changes mode. */
  lemma ScriptLayout(command: string)
    ensures ClipboardScript(command) ==
      "printf" + ([' '] + ([SingleQuote] + ("%s" + [SingleQuote] + ([' '] + ([SingleQuote] + (Escape(command) + [SingleQuote] + ([' '] + (['|'] + ([' '] + "pbcopy")))))))))
  {
    ScriptSkeleton(Escape(command));
  }

  /** `printf` and the opening quote of its format. */
  lemma LexProgramName(rest: string)
    ensures LexFrom("printf" + ([' '] + ([SingleQuote] + rest)), Between, [])
         == LexFrom(rest, InQuote([]), [Word("printf")])
  {
    var p := "printf";
    assert forall k :: 0 <= k < |p| ==> IsOrdinary(p[k]);
    LexOrdinary(p, [' '] + ([SingleQuote] + rest), Between, []);
    assert [] + p == p;
    StepBlank([SingleQuote] + rest, InWord(p), []);
    assert [] + Flush(InWord(p)) == [Word(p)];
    StepOpenQuote(rest, Between, [Word(p)]);
  }

  /** The quoted format `%s`, and the quote that opens the command's word. */
  lemma LexFormat(rest: string, acc: seq<Token>)
    ensures LexFrom("%s" + [SingleQuote] + ([' '] + ([SingleQuote] + rest)), InQuote([]), acc)
         == LexFrom(rest, InQuote([]), acc + [Word("%s")])
  {
    EscapeNoQuote("%s");
    LexEscaped("%s", [' '] + ([SingleQuote] + rest), [], acc);
    assert [] + "%s" == "%s";
    StepBlank([SingleQuote] + rest, InWord("%s"), acc);
    StepOpenQuote(rest, Between, acc + [Word("%s")]);
  }

  /** After the command's word: the pipe and the program it feeds. */
  lemma LexPipeline(p: string, acc: seq<Token>)
    requires |p| > 0 && forall k :: 0 <= k < |p| ==> IsOrdinary(p[k])
    ensures LexFrom(['|'] + ([' '] + p), Between, acc) == Success(acc + [Pipe, Word(p)])
  {
    StepPipe([' '] + p, Between, acc);
    var a := acc + [Pipe];
    assert acc + Flush(Between) + [Pipe] == a;
    StepBlank(p, Between, a);
    assert a + Flush(Between) == a;
    LexOrdinary(p, [], Between, a);
    assert p + [] == p && [] + p == p;
    assert a + Flush(InWord(p)) == acc + [Pipe, Word(p)];
  }

  lemma PbcopyIsOrdinary()
    ensures forall k :: 0 <= k < |"pbcopy"| ==> IsOrdinary("pbcopy"[k])
  {
  }

  /**
   * Whatever the command holds (quotes, pipes, semicolons, `$`), the clipboard
   * line is `printf`, its format, the command as one word, a pipe and `pbcopy`.
   */
  lemma ClipboardScriptTokens(command: string)
    ensures Lex(ClipboardScript(command)) == Success([Word("printf"), Word("%s"), Word(command), Pipe, Word("pbcopy")])
  {
    var q := SingleQuote;
    var r5 := [' '] + (['|'] + ([' '] + "pbcopy"));
    var r4 := Escape(command) + [q] + r5;
    ScriptLayout(command);
    LexProgramName("%s" + [q] + ([' '] + ([q] + r4)));
    LexFormat(r4, [Word("printf")]);
    var a2 := [Word("printf")] + [Word("%s")];
    LexEscaped(command, r5, [], a2);
    assert [] + command == command;
    StepBlank(['|'] + ([' '] + "pbcopy"), InWord(command), a2);
    assert Flush(InWord(command)) == [Word(command)];
    PbcopyIsOrdinary();
    LexPipeline("pbcopy", a2 + [Word(command)]);
    calc {
      Lex(ClipboardScript(command));
      LexFrom("printf" + ([' '] + ([q] + ("%s" + [q] + ([' '] + ([q] + r4))))), Between, []);
      LexFrom("%s" + [q] + ([' '] + ([q] + r4)), InQuote([]), [Word("printf")]);
      LexFrom(r4, InQuote([]), a2);
      LexFrom(r5, InWord(command), a2);
      LexFrom(['|'] + ([' '] + "pbcopy"), Between, a2 + [Word(command)]);
      Success(a2 + [Word(command)] + [Pipe, Word("pbcopy")]);
    }
    assert a2 + [Word(command)] + [Pipe, Word("pbcopy")] == [Word("printf"), Word("%s"), Word(command), Pipe, Word("pbcopy")];
  }
}
