/** `joinArgs` writes an argument list as one Windows command line; the started process splits it
    again by the rules of Microsoft's "Parsing C Command-Line Arguments". */
module CommandLine {
  import opened Text

  const BACKSLASH := '\\'
  const QUOTE := '"'

  predicate IsBlank(c: char) {
    c == ' ' || c == '\t'
  }

  function Slashes(n: nat): string {
    seq(n, i => BACKSLASH)
  }

  function LeadingSlashes(s: string): (n: nat)
    ensures n <= |s| && s[..n] == Slashes(n)
    ensures n < |s| ==> s[n] != BACKSLASH
  {
    if s == "" || s[0] != BACKSLASH then 0 else 1 + LeadingSlashes(s[1..])
  }

  lemma {:induction false} LeadingSlashesIs(n: nat, rest: string)
    requires rest == "" || rest[0] != BACKSLASH
    ensures LeadingSlashes(Slashes(n) + rest) == n
  {
    if n == 0 {
      assert Slashes(0) + rest == rest;
    } else {
      LeadingSlashesIs(n - 1, rest);
      assert (Slashes(n) + rest)[1..] == Slashes(n - 1) + rest;
    }
  }

  /* ---------- writing ---------- */

  /** Backslashes stay as they are unless a quote follows: then they are doubled, and the quote is
      escaped by one more.  Inside a wrapped argument the closing quote counts as one that
      follows. */
  function EscapeBody(s: string, wrapped: bool): string
    decreases |s|
  {
    var n := LeadingSlashes(s);
    if n == |s| then Slashes(if wrapped then 2 * n else n)
    else if s[n] == QUOTE then Slashes(2 * n + 1) + [QUOTE] + EscapeBody(s[n + 1..], wrapped)
    else Slashes(n) + [s[n]] + EscapeBody(s[n + 1..], wrapped)
  }

  predicate NeedsWrapping(s: string) {
    exists i :: 0 <= i < |s| && IsBlank(s[i])
  }

  /** `syscall.EscapeArg`: only an empty argument or one with blanks is wrapped in quotes. */
  function EscapeArg(s: string): string {
    if s == "" then [QUOTE, QUOTE]
    else if NeedsWrapping(s) then [QUOTE] + EscapeBody(s, true) + [QUOTE]
    else EscapeBody(s, false)
  }

  lemma {:induction false} EscapeBodyPlain(s: string, wrapped: bool)
    requires BACKSLASH !in s && QUOTE !in s
    ensures EscapeBody(s, wrapped) == s
    decreases |s|
  {
    if s != "" {
      assert s[0] in s && LeadingSlashes(s) == 0;
      EscapeBodyPlain(s[1..], wrapped);
      assert Slashes(0) + [s[0]] + s[1..] == s;
    }
  }

  /** Without backslashes and quotes an argument is written as it is, in quotes only if it is empty or
      holds a blank or a tab. */
  lemma EscapePlain(s: string)
    requires '\\' !in s && '"' !in s
    ensures EscapeArg(s) == if s == "" || ' ' in s || '\t' in s then "\"" + s + "\"" else s
  {
    EscapeBodyPlain(s, true);
    EscapeBodyPlain(s, false);
  }

  function CommandLineOf(args: seq<string>): string {
    if args == [] then ""
    else if |args| == 1 then EscapeArg(args[0])
    else EscapeArg(args[0]) + " " + CommandLineOf(args[1..])
  }

  lemma {:induction false} CommandLineStep(args: seq<string>, n: nat)
    requires n < |args|
    ensures CommandLineOf(args[..n + 1]) ==
            CommandLineOf(args[..n]) + (if n > 0 then " " else "") + EscapeArg(args[n])
  {
    hide EscapeArg;
    if n == 0 {
      assert args[..1] == [args[0]] && args[..0] == [];
    } else {
      var rest := args[1..];
      CommandLineStep(rest, n - 1);
      assert args[..n + 1][1..] == rest[..n] && args[..n][1..] == rest[..n - 1];
      assert rest[n - 1] == args[n];
    }
  }

  method JoinArgs(args: seq<string>) returns (line: string)
    ensures line == CommandLineOf(args)
  {
    hide EscapeArg;
    line := "";
    assert args[..0] == [];
    for i := 0 to |args|
      invariant line == CommandLineOf(args[..i])
    {
      CommandLineStep(args, i);
      if i > 0 {
        line := line + " ";
      }
      line := line + EscapeArg(args[i]);
    }
    assert args[..|args|] == args;
  }

  /* ---------- splitting ---------- */

  /** Reads one argument, up to a blank outside quotes.  2n backslashes and a quote are n
      backslashes and a delimiter, 2n+1 are n backslashes and a literal quote; backslashes not
      followed by a quote are literal; a doubled quote inside quotes is a literal quote. */
  function ReadArg(s: string, quoted: bool): (r: (string, string))
    ensures |r.1| <= |s|
    ensures s != "" && (quoted || !IsBlank(s[0])) ==> |r.1| < |s|
    decreases |s|
  {
    var n := LeadingSlashes(s);
    if s == "" || (!quoted && IsBlank(s[0])) then ("", s)
    else if n < |s| && s[n] == QUOTE then
      if n % 2 == 1 then
        var (arg, rest) := ReadArg(s[n + 1..], quoted);
        (Slashes(n / 2) + [QUOTE] + arg, rest)
      else if quoted && n + 1 < |s| && s[n + 1] == QUOTE then
        var (arg, rest) := ReadArg(s[n + 2..], quoted);
        (Slashes(n / 2) + [QUOTE] + arg, rest)
      else
        var (arg, rest) := ReadArg(s[n + 1..], !quoted);
        (Slashes(n / 2) + arg, rest)
    else if n > 0 then
      var (arg, rest) := ReadArg(s[n..], quoted);
      (Slashes(n) + arg, rest)
    else
      var (arg, rest) := ReadArg(s[1..], quoted);
      ([s[0]] + arg, rest)
  }

  function SplitCommandLine(line: string): seq<string>
    decreases |line|
  {
    if line == "" then []
    else if IsBlank(line[0]) then SplitCommandLine(line[1..])
    else
      var (arg, rest) := ReadArg(line, false);
      [arg] + SplitCommandLine(rest)
  }

  /* ---------- the round trip ---------- */

  /** What may follow a finished argument. */
  predicate Ends(tail: string) {
    tail == "" || IsBlank(tail[0])
  }

  function Closed(wrapped: bool, tail: string): string {
    if wrapped then [QUOTE] + tail else tail
  }

  lemma ReadPlainRun(s: string, quoted: bool)
    requires var n := LeadingSlashes(s); n > 0 && (n == |s| || s[n] != QUOTE)
    ensures var n := LeadingSlashes(s);
            ReadArg(s, quoted) == (Slashes(n) + ReadArg(s[n..], quoted).0, ReadArg(s[n..], quoted).1)
  {
  }

  lemma ReadOddRun(s: string, quoted: bool)
    requires var n := LeadingSlashes(s); n % 2 == 1 && n < |s| && s[n] == QUOTE
    ensures var n := LeadingSlashes(s);
            ReadArg(s, quoted) ==
            (Slashes(n / 2) + [QUOTE] + ReadArg(s[n + 1..], quoted).0, ReadArg(s[n + 1..], quoted).1)
  {
  }

  /** Reading over `n` backslashes that no quote follows. */
  lemma ReadSlashes(n: nat, rest: string, quoted: bool)
    requires rest == "" || (rest[0] != BACKSLASH && rest[0] != QUOTE)
    ensures ReadArg(Slashes(n) + rest, quoted) ==
            (Slashes(n) + ReadArg(rest, quoted).0, ReadArg(rest, quoted).1)
  {
    hide ReadArg;
    var s := Slashes(n) + rest;
    LeadingSlashesIs(n, rest);
    assert s[n..] == rest;
    if n == 0 {
      assert s == rest;
      assert Slashes(0) + ReadArg(rest, quoted).0 == ReadArg(rest, quoted).0;
    } else {
      ReadPlainRun(s, quoted);
    }
  }

  /** Reading over an escaped quote with its backslashes. */
  lemma ReadEscapedQuote(n: nat, rest: string, quoted: bool)
    ensures ReadArg(Slashes(2 * n + 1) + [QUOTE] + rest, quoted) ==
            (Slashes(n) + [QUOTE] + ReadArg(rest, quoted).0, ReadArg(rest, quoted).1)
  {
    hide ReadArg;
    var m := 2 * n + 1;
    var s := Slashes(m) + [QUOTE] + rest;
    assert s == Slashes(m) + ([QUOTE] + rest);
    LeadingSlashesIs(m, [QUOTE] + rest);
    assert s[m] == QUOTE && s[m + 1..] == rest;
    assert m / 2 == n;
    ReadOddRun(s, quoted);
  }

  /** Reading the closing quote of a wrapped argument, with the doubled backslashes before it. */
  lemma ReadClosingQuote(n: nat, tail: string)
    requires Ends(tail)
    ensures ReadArg(Slashes(2 * n) + [QUOTE] + tail, true) == (Slashes(n), tail)
  {
    var s := Slashes(2 * n) + [QUOTE] + tail;
    assert s == Slashes(2 * n) + ([QUOTE] + tail);
    LeadingSlashesIs(2 * n, [QUOTE] + tail);
    assert s[2 * n + 1..] == tail;
    assert ReadArg(tail, false) == ("", tail);
    assert Slashes(n) + "" == Slashes(n);
  }

  /** Inside quotes a doubled quote is a literal one. */
  lemma ReadDoubledQuote(rest: string)
    ensures ReadArg([QUOTE, QUOTE] + rest, true) == ([QUOTE] + ReadArg(rest, true).0, ReadArg(rest, true).1)
  {
    var s := [QUOTE, QUOTE] + rest;
    assert LeadingSlashes(s) == 0 && s[2..] == rest;
    assert Slashes(0 / 2) + [QUOTE] + ReadArg(rest, true).0 == [QUOTE] + ReadArg(rest, true).0;
  }

  lemma ReadLiteral(c: char, rest: string, quoted: bool)
    requires c != BACKSLASH && c != QUOTE && (quoted || !IsBlank(c))
    ensures ReadArg([c] + rest, quoted) == ([c] + ReadArg(rest, quoted).0, ReadArg(rest, quoted).1)
  {
    assert ([c] + rest)[1..] == rest;
  }

  lemma ReadTrailing(n: nat, wrapped: bool, tail: string)
    requires Ends(tail)
    ensures ReadArg(Slashes(if wrapped then 2 * n else n) + Closed(wrapped, tail), wrapped) == (Slashes(n), tail)
  {
    if wrapped {
      ReadClosingQuote(n, tail);
      assert Slashes(2 * n) + ([QUOTE] + tail) == Slashes(2 * n) + [QUOTE] + tail;
    } else {
      ReadSlashes(n, tail, false);
      assert ReadArg(tail, false) == ("", tail);
      assert Slashes(n) + "" == Slashes(n);
    }
  }

  lemma EscapeStep(n: nat, c: char, rest: string, wrapped: bool)
    requires c != BACKSLASH
    ensures EscapeBody(Slashes(n) + [c] + rest, wrapped) ==
            Slashes(if c == QUOTE then 2 * n + 1 else n) + [c] + EscapeBody(rest, wrapped)
  {
    var s := Slashes(n) + [c] + rest;
    LeadingSlashesIs(n, [c] + rest);
    assert s == Slashes(n) + ([c] + rest);
    assert s[n + 1..] == rest;
  }

  lemma EscapeTrailing(n: nat, wrapped: bool)
    ensures EscapeBody(Slashes(n), wrapped) == Slashes(if wrapped then 2 * n else n)
  {
    LeadingSlashesIs(n, "");
    assert Slashes(n) + "" == Slashes(n);
  }

  /** One more character, with the backslashes before it, in front of text that reads as `rest`. */
  lemma ReadStep(n: nat, c: char, rest: string, after: string, wrapped: bool, tail: string)
    requires c != BACKSLASH && (wrapped || !IsBlank(c))
    requires ReadArg(after, wrapped) == (rest, tail)
    ensures ReadArg(Slashes(if c == QUOTE then 2 * n + 1 else n) + [c] + after, wrapped)
         == (Slashes(n) + [c] + rest, tail)
  {
    hide ReadArg;
    if c == QUOTE {
      ReadEscapedQuote(n, after, wrapped);
    } else {
      ReadSlashes(n, [c] + after, wrapped);
      ReadLiteral(c, after, wrapped);
      assert Slashes(n) + [c] + after == Slashes(n) + ([c] + after);
      assert Slashes(n) + ([c] + rest) == Slashes(n) + [c] + rest;
    }
  }

  lemma NoBlanks(s: string, n: nat)
    requires n < |s| && !NeedsWrapping(s)
    ensures !IsBlank(s[n]) && !NeedsWrapping(s[n + 1..])
  {
    var rest := s[n + 1..];
    assert forall i :: 0 <= i < |rest| ==> rest[i] == s[n + 1 + i];
  }

  /** An escaped argument, closed as it must be, is read back exactly. */
  lemma {:induction false} ReadEscaped(s: string, wrapped: bool, tail: string)
    requires Ends(tail) && (wrapped || !NeedsWrapping(s))
    ensures ReadArg(EscapeBody(s, wrapped) + Closed(wrapped, tail), wrapped) == (s, tail)
    decreases |s|
  {
    hide ReadArg, Closed, Ends, EscapeBody, NeedsWrapping, Slashes;
    var n := LeadingSlashes(s);
    if n == |s| {
      assert s[..n] == s;
      EscapeTrailing(n, wrapped);
      ReadTrailing(n, wrapped, tail);
    } else {
      var c, rest := s[n], s[n + 1..];
      var head := Slashes(if c == QUOTE then 2 * n + 1 else n) + [c];
      var body := EscapeBody(rest, wrapped);
      if !wrapped {
        NoBlanks(s, n);
      }
      ReadEscaped(rest, wrapped, tail);
      assert s == Slashes(n) + [c] + rest;
      EscapeStep(n, c, rest, wrapped);
      ReadStep(n, c, rest, body + Closed(wrapped, tail), wrapped, tail);
      assert head + body + Closed(wrapped, tail) == head + (body + Closed(wrapped, tail));
    }
  }

  lemma BodyStart(s: string, wrapped: bool)
    requires s != ""
    ensures EscapeBody(s, wrapped) != "" && (!NeedsWrapping(s) ==> !IsBlank(EscapeBody(s, wrapped)[0]))
  {
    var n := LeadingSlashes(s);
    if n < |s| {
      assert !NeedsWrapping(s) ==> !IsBlank(s[n]);
    }
  }

  lemma ReadOpeningQuote(rest: string)
    requires rest != ""
    ensures ReadArg([QUOTE] + rest, false) == ReadArg(rest, true)
  {
    var s := [QUOTE] + rest;
    var (arg, tail) := ReadArg(rest, true);
    assert LeadingSlashes(s) == 0;
    assert s[0 + 1..] == rest;
    assert Slashes(0 / 2) + arg == arg;
  }

  lemma SplitWord(line: string, arg: string, tail: string)
    requires line != "" && !IsBlank(line[0]) && ReadArg(line, false) == (arg, tail)
    ensures SplitCommandLine(line) == [arg] + SplitCommandLine(tail)
  {
    hide ReadArg;
  }

  lemma SplitFirst(a: string, tail: string)
    requires Ends(tail)
    ensures SplitCommandLine(EscapeArg(a) + tail) == [a] + SplitCommandLine(tail)
  {
    hide ReadArg, EscapeBody, Ends, SplitCommandLine, NeedsWrapping;
    var line := EscapeArg(a) + tail;
    if a == "" {
      var rest := [QUOTE] + tail;
      ReadClosingQuote(0, tail);
      assert Slashes(2 * 0) + [QUOTE] + tail == rest && Slashes(0) == "";
      ReadOpeningQuote(rest);
      assert line == [QUOTE] + rest;
      SplitWord(line, a, tail);
    } else if NeedsWrapping(a) {
      var rest := EscapeBody(a, true) + ([QUOTE] + tail);
      ReadEscaped(a, true, tail);
      ReadOpeningQuote(rest);
      assert line == [QUOTE] + rest;
      SplitWord(line, a, tail);
    } else {
      ReadEscaped(a, false, tail);
      BodyStart(a, false);
      SplitWord(line, a, tail);
    }
  }

  /** Splitting the command line gives back the argument list: for every list, with blanks,
      quotes, empty arguments, and runs of backslashes anywhere. */
  lemma {:induction false} SplitUndoesJoin(args: seq<string>)
    ensures SplitCommandLine(CommandLineOf(args)) == args
  {
    hide EscapeArg, ReadArg;
    if |args| == 1 {
      SplitFirst(args[0], "");
      assert EscapeArg(args[0]) + "" == EscapeArg(args[0]);
    } else if |args| > 1 {
      var rest := CommandLineOf(args[1..]);
      SplitUndoesJoin(args[1..]);
      SplitFirst(args[0], " " + rest);
      assert EscapeArg(args[0]) + " " + rest == EscapeArg(args[0]) + (" " + rest);
      assert (" " + rest)[1..] == rest;
    }
  }
}
