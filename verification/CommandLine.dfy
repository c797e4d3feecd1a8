/** Quoting arguments for a Windows command line, and the documented rules by which the
    started program takes the line apart again.
  */
module CommandLine {

  import opened Results
  import opened Text
  import WorkerArguments

  // ----- Taking a command line apart -----

  /** Outside quotes, inside, or just after a quote that closed a quoted part. */
  datatype Mode = Outside | Inside | Closed

  /** `slashes` backslashes have been seen whose meaning the next character decides. */
  datatype Lexer = Lexer(args: seq<string>, cur: string, started: bool, mode: Mode, slashes: nat)

  function Repeat(c: char, n: nat): (s: string)
    ensures |s| == n && forall i | 0 <= i < n :: s[i] == c
  {
    if n == 0 then "" else Repeat(c, n - 1) + [c]
  }

  /** A quote after n backslashes: n/2 of them are meant; an odd one escapes the quote.
      Inside quotes two quotes in a row are one. */
  function Quote(st: Lexer): Lexer {
    var cur := st.cur + Repeat('\\', st.slashes / 2);
    if st.slashes % 2 == 1 then st.(cur := cur + "\"", slashes := 0, started := true)
    else
      match st.mode
      case Outside => st.(cur := cur, mode := Inside, slashes := 0, started := true)
      case Inside => st.(cur := cur, mode := Closed, slashes := 0, started := true)
      case Closed => st.(cur := cur + "\"", mode := Inside, slashes := 0, started := true)
  }

  function Step(st: Lexer, c: char): Lexer {
    var outer := if st.mode == Closed then Outside else st.mode;
    if c == '\\' then st.(slashes := st.slashes + 1, mode := outer, started := true)
    else if c == '"' then Quote(st)
    else
      var cur := st.cur + Repeat('\\', st.slashes);
      if outer == Outside && (c == ' ' || c == '\t') then
        Lexer(if st.started then st.args + [cur] else st.args, "", false, Outside, 0)
      else Lexer(st.args, cur + [c], true, outer, 0)
  }

  function Run(st: Lexer, s: string): Lexer {
    if s == "" then st else Step(Run(st, s[..|s| - 1]), s[|s| - 1])
  }

  function Finish(st: Lexer): seq<string> {
    if st.started then st.args + [st.cur + Repeat('\\', st.slashes)] else st.args
  }

  /** The arguments in a line, after the program name. */
  function Split(line: string): seq<string> {
    Finish(Run(Lexer([], "", false, Outside, 0), line))
  }

  /** The program name: quotes are dropped and nothing is escaped. */
  function ProgramEnd(line: string, i: nat, quoted: bool, name: string): (r: (string, nat))
    requires i <= |line|
    ensures i <= r.1 <= |line|
    decreases |line| - i
  {
    if i == |line| || (!quoted && (line[i] == ' ' || line[i] == '\t')) then (name, i)
    else if line[i] == '"' then ProgramEnd(line, i + 1, !quoted, name)
    else ProgramEnd(line, i + 1, quoted, name + [line[i]])
  }

  function TakeApart(line: string): seq<string> {
    var (name, i) := ProgramEnd(line, 0, false, "");
    [name] + Split(line[i..])
  }

  lemma {:induction false} RunConcat(st: Lexer, a: string, b: string)
    ensures Run(st, a + b) == Run(Run(st, a), b)
  {
    hide Step;
    if b == "" {
      assert a + b == a;
    } else {
      assert (a + b)[..|a + b| - 1] == a + b[..|b| - 1];
      RunConcat(st, a, b[..|b| - 1]);
    }
  }

  lemma RunOne(st: Lexer, c: char)
    ensures Run(st, [c]) == Step(st, c)
  {
    hide Step;
    assert [c][..0] == "";
  }

  lemma {:induction false} RunSlashes(st: Lexer, n: nat)
    requires st.mode != Closed && st.started
    ensures Run(st, Repeat('\\', n)) == st.(slashes := st.slashes + n)
  {
    if n > 0 {
      RunSlashes(st, n - 1);
      assert Repeat('\\', n)[..n - 1] == Repeat('\\', n - 1);
    }
  }

  // ----- Quoting -----

  predicate NeedsQuotes(value: string) {
    exists i | 0 <= i < |value| :: Special(value[i])
  }

  predicate Special(c: char) {
    c == ' ' || c == '\t' || c == '\n' || c == (11 as char) || c == '"'
  }

  /** An argument as it is written, with `slashes` backslashes held back. */
  function Escaped(value: string, slashes: nat): string {
    if value == "" then Repeat('\\', 2 * slashes)
    else if value[0] == '\\' then Escaped(value[1..], slashes + 1)
    else if value[0] == '"' then Repeat('\\', 2 * slashes + 1) + "\"" + Escaped(value[1..], 0)
    else Repeat('\\', slashes) + [value[0]] + Escaped(value[1..], 0)
  }

  function QuoteArgument(value: string): string {
    if value == "" then "\"\""
    else if !NeedsQuotes(value) then value
    else "\"" + Escaped(value, 0) + "\""
  }

  method QuoteWindowsArgument(value: string) returns (out: string)
    ensures out == QuoteArgument(value)
  {
    hide Repeat;
    if value == "" {
      return "\"\"";
    }
    if !NeedsQuotes(value) {
      return value;
    }
    out := "\"";
    var slashes := 0;
    assert value[0..] == value;
    for i := 0 to |value|
      invariant out + Escaped(value[i..], slashes) == "\"" + Escaped(value, 0)
    {
      var rest := value[i..];
      assert rest[1..] == value[i + 1..];
      EscapedStep(rest, slashes);
      if value[i] == '\\' {
        slashes := slashes + 1;
        continue;
      }
      if value[i] == '"' {
        out := out + Repeat('\\', slashes * 2 + 1);
        out := out + "\"";
        slashes := 0;
        continue;
      }
      out := out + Repeat('\\', slashes);
      slashes := 0;
      out := out + [value[i]];
    }
    EscapedStep(value[|value|..], slashes);
    out := out + Repeat('\\', slashes * 2);
    out := out + "\"";
  }

  lemma EscapedStep(value: string, slashes: nat)
    ensures Escaped(value, slashes)
            == if value == "" then Repeat('\\', 2 * slashes)
               else if value[0] == '\\' then Escaped(value[1..], slashes + 1)
               else if value[0] == '"' then Repeat('\\', 2 * slashes + 1) + "\"" + Escaped(value[1..], 0)
               else Repeat('\\', slashes) + [value[0]] + Escaped(value[1..], 0)
  {
  }

  /** The lexer has one whole argument and stands where it may end. */
  ghost predicate Holds(st: Lexer, args: seq<string>, value: string) {
    && st.args == args
    && st.started
    && st.mode != Inside
    && st.cur + Repeat('\\', st.slashes) == value
  }

  lemma {:induction false} ReadEscaped(st: Lexer, value: string, slashes: nat)
    requires st.mode == Inside && st.slashes == 0 && st.started
    ensures Holds(Run(st, Escaped(value, slashes) + "\""), st.args, st.cur + Repeat('\\', slashes) + value)
    decreases |value|
  {
    hide Step, Escaped, Run;
    EscapedStep(value, slashes);
    if value == "" {
      ReadClosing(st, slashes);
      assert st.cur + Repeat('\\', slashes) + "" == st.cur + Repeat('\\', slashes);
    } else if value[0] == '\\' {
      ReadEscaped(st, value[1..], slashes + 1);
      assert st.cur + Repeat('\\', slashes + 1) + value[1..] == st.cur + Repeat('\\', slashes) + value;
    } else {
      var c, tail := value[0], Escaped(value[1..], 0) + "\"";
      var piece := Repeat('\\', if c == '"' then 2 * slashes + 1 else slashes) + [c];
      var next := Run(st, piece);
      ReadPiece(st, c, slashes);
      assert Escaped(value, slashes) + "\"" == piece + tail;
      RunConcat(st, piece, tail);
      ReadEscaped(next, value[1..], 0);
      assert next.cur + Repeat('\\', 0) + value[1..] == st.cur + Repeat('\\', slashes) + value;
    }
  }

  lemma ReadClosing(st: Lexer, slashes: nat)
    requires st.mode == Inside && st.slashes == 0 && st.started
    ensures Holds(Run(st, Repeat('\\', 2 * slashes) + "\""), st.args, st.cur + Repeat('\\', slashes))
  {
    hide Run;
    RunSlashes(st, 2 * slashes);
    RunConcat(st, Repeat('\\', 2 * slashes), "\"");
    RunOne(st.(slashes := 2 * slashes), '"');
    assert 2 * slashes / 2 == slashes;
  }

  lemma ReadPiece(st: Lexer, c: char, slashes: nat)
    requires st.mode == Inside && st.slashes == 0 && st.started && c != '\\'
    ensures Run(st, Repeat('\\', if c == '"' then 2 * slashes + 1 else slashes) + [c])
            == st.(cur := st.cur + Repeat('\\', slashes) + [c])
  {
    hide Run;
    var n := if c == '"' then 2 * slashes + 1 else slashes;
    RunSlashes(st, n);
    RunConcat(st, Repeat('\\', n), [c]);
    RunOne(st.(slashes := n), c);
    assert c == '"' ==> n / 2 == slashes && n % 2 == 1;
  }

  lemma {:induction false} ReadPlain(args: seq<string>, value: string)
    requires forall i | 0 <= i < |value| :: !Special(value[i])
    ensures Plain(Run(Lexer(args, "", false, Outside, 0), value), args, value)
  {
    hide Step, Special, Plain;
    var st := Lexer(args, "", false, Outside, 0);
    if value == "" {
      PlainStart(args);
    } else {
      var front, last := value[..|value| - 1], value[|value| - 1];
      ReadPlain(args, front);
      assert !Special(last);
      PlainStep(Run(st, front), args, front, last);
      assert front + [last] == value;
    }
  }

  ghost predicate Plain(st: Lexer, args: seq<string>, value: string) {
    st.args == args && st.started == (value != "") && st.mode == Outside && st.cur + Repeat('\\', st.slashes) == value
  }

  lemma PlainStart(args: seq<string>)
    ensures Plain(Lexer(args, "", false, Outside, 0), args, "")
  {
  }

  lemma PlainStep(st: Lexer, args: seq<string>, value: string, c: char)
    requires Plain(st, args, value) && !Special(c)
    ensures Plain(Step(st, c), args, value + [c])
  {
  }

  /** Reading a quoted argument gives the argument. */
  lemma ReadQuoted(args: seq<string>, value: string)
    ensures Holds(Run(Lexer(args, "", false, Outside, 0), QuoteArgument(value)), args, value)
  {
    hide Step, Escaped, Run;
    var st := Lexer(args, "", false, Outside, 0);
    if value == "" || NeedsQuotes(value) {
      if value == "" {
        EscapedStep("", 0);
      }
      var body := Escaped(value, 0) + "\"";
      assert QuoteArgument(value) == "\"" + body;
      RunConcat(st, "\"", body);
      OpenQuote(args);
      ReadEscaped(Lexer(args, "", true, Inside, 0), value, 0);
      assert "" + Repeat('\\', 0) + value == value;
    } else {
      forall i | 0 <= i < |value|
        ensures !Special(value[i])
      {
      }
      ReadPlain(args, value);
    }
  }

  lemma OpenQuote(args: seq<string>)
    ensures Run(Lexer(args, "", false, Outside, 0), "\"") == Lexer(args, "", true, Inside, 0)
  {
    RunOne(Lexer(args, "", false, Outside, 0), '"');
  }

  lemma Separate(st: Lexer, args: seq<string>, value: string)
    requires Holds(st, args, value)
    ensures Step(st, ' ') == Lexer(args + [value], "", false, Outside, 0)
    ensures Finish(st) == args + [value]
  {
  }

  // ----- The whole line -----

  function Line(args: seq<string>): string {
    if args == [] then "" else Line(args[..|args| - 1]) + " " + QuoteArgument(args[|args| - 1])
  }

  method BuildCommand(program: string, args: seq<string>) returns (command: string)
    ensures command == QuoteArgument(program) + Line(args)
  {
    hide QuoteArgument;
    command := QuoteWindowsArgument(program);
    for i := 0 to |args|
      invariant command == QuoteArgument(program) + Line(args[..i])
    {
      assert args[..i + 1][..i] == args[..i];
      command := command + " ";
      var quoted := QuoteWindowsArgument(args[i]);
      command := command + quoted;
    }
    assert args[..|args|] == args;
  }

  lemma {:induction false} RunLine(args: seq<string>)
    requires args != []
    ensures Holds(Run(Lexer([], "", false, Outside, 0), Line(args)), args[..|args| - 1], args[|args| - 1])
  {
    hide Step, QuoteArgument, Run, Holds;
    var st := Lexer([], "", false, Outside, 0);
    var front, last := args[..|args| - 1], args[|args| - 1];
    RunConcat(st, Line(front) + " ", QuoteArgument(last));
    RunConcat(st, Line(front), " ");
    RunOne(Run(st, Line(front)), ' ');
    if front == [] {
      RunOne(st, ' ');
      assert Run(st, " ") == st by {
        FirstSpace();
      }
      assert "" + " " == " ";
    } else {
      RunLine(front);
      Separate(Run(st, Line(front)), front[..|front| - 1], front[|front| - 1]);
      assert front[..|front| - 1] + [front[|front| - 1]] == front;
    }
    ReadQuoted(front, last);
  }

  lemma FirstSpace()
    ensures var st := Lexer([], "", false, Outside, 0); Run(st, " ") == st
  {
    RunOne(Lexer([], "", false, Outside, 0), ' ');
  }

  /** Any list of arguments comes back from the line it was quoted into. */
  lemma SplitLine(args: seq<string>)
    ensures Split(Line(args)) == args
  {
    hide Holds, Run;
    var st := Lexer([], "", false, Outside, 0);
    if args == [] {
      RunEmpty(st);
    } else {
      RunLine(args);
      Separate(Run(st, Line(args)), args[..|args| - 1], args[|args| - 1]);
      assert args[..|args| - 1] + [args[|args| - 1]] == args;
    }
  }

  lemma RunEmpty(st: Lexer)
    ensures Run(st, "") == st
  {
  }

  // ----- The program name -----

  /** Program names hold no quote and do not end in a backslash, which Windows file
      names cannot and the launcher's fixed file name does not. */
  predicate ProgramName(s: string) {
    '"' !in s && (s == "" || s[|s| - 1] != '\\')
  }

  lemma {:induction false} EscapedIsSame(value: string, slashes: nat)
    requires ProgramName(value) && (value == "" ==> slashes == 0)
    ensures Escaped(value, slashes) == Repeat('\\', slashes) + value
    decreases |value|
  {
    if value != "" {
      assert value[0] in value;
      assert forall c | c in value[1..] :: c in value;
      EscapedIsSame(value[1..], if value[0] == '\\' then slashes + 1 else 0);
    }
  }

  lemma {:induction false} NameEnds(line: string, i: nat, value: string, quoted: bool, name: string)
    requires i + |value| <= |line| && line[i..i + |value|] == value && '"' !in value
    requires quoted || forall k | 0 <= k < |value| :: !Special(value[k])
    ensures ProgramEnd(line, i, quoted, name) == ProgramEnd(line, i + |value|, quoted, name + value)
    decreases |value|
  {
    if value == "" {
      assert name + value == name;
    } else {
      assert line[i] == value[0] && value[0] in value;
      assert line[i + 1..i + |value|] == value[1..];
      assert quoted || !Special(value[0]);
      NameEnds(line, i + 1, value[1..], quoted, name + [line[i]]);
      assert name + [line[i]] + value[1..] == name + value;
    }
  }

  lemma NameStep(line: string, i: nat, quoted: bool, name: string)
    requires i <= |line|
    ensures i < |line| && line[i] == '"' ==> ProgramEnd(line, i, quoted, name) == ProgramEnd(line, i + 1, !quoted, name)
    ensures !quoted && (i == |line| || line[i] == ' ') ==> ProgramEnd(line, i, quoted, name) == (name, i)
  {
  }

  lemma NameInQuotes(program: string, rest: string)
    requires '"' !in program && (rest == "" || rest[0] == ' ')
    ensures ProgramEnd("\"" + program + "\"" + rest, 0, false, "") == (program, |program| + 2)
  {
    hide ProgramEnd, Special;
    var line, n := "\"" + program + "\"" + rest, |program|;
    assert "" + program == program;
    NameStep(line, 0, false, "");
    assert line[1..1 + n] == program;
    NameEnds(line, 1, program, true, "");
    NameStep(line, 1 + n, true, program);
    assert 2 + n < |line| ==> line[2 + n] == rest[0];
    NameStep(line, 2 + n, false, program);
  }

  lemma NamePlain(program: string, rest: string)
    requires '"' !in program && (rest == "" || rest[0] == ' ')
    requires forall k | 0 <= k < |program| :: !Special(program[k])
    ensures ProgramEnd(program + rest, 0, false, "") == (program, |program|)
  {
    hide ProgramEnd, Special;
    var line, n := program + rest, |program|;
    assert "" + program == program;
    assert line[0..n] == program;
    NameEnds(line, 0, program, false, "");
    NameStep(line, n, false, program);
  }

  lemma NameOfQuoted(program: string, rest: string)
    requires ProgramName(program) && (rest == "" || rest[0] == ' ')
    ensures ProgramEnd(QuoteArgument(program) + rest, 0, false, "") == (program, |QuoteArgument(program)|)
  {
    hide Escaped, ProgramEnd, Special, Repeat;
    if program == "" || NeedsQuotes(program) {
      EscapedIsSame(program, 0);
      assert Repeat('\\', 0) + program == program;
      assert QuoteArgument(program) == "\"" + program + "\"";
      NameInQuotes(program, rest);
    } else {
      NamePlain(program, rest);
    }
  }

  /** The started program sees its name and exactly the arguments. */
  lemma TakeApartCommand(program: string, args: seq<string>)
    requires ProgramName(program)
    ensures TakeApart(QuoteArgument(program) + Line(args)) == [program] + args
  {
    hide QuoteArgument, ProgramEnd;
    LineStart(args);
    NameOfQuoted(program, Line(args));
    var line := QuoteArgument(program) + Line(args);
    assert line[|QuoteArgument(program)|..] == Line(args);
    SplitLine(args);
  }

  lemma {:induction false} LineStart(args: seq<string>)
    ensures Line(args) == "" || Line(args)[0] == ' '
  {
    hide QuoteArgument;
    if args != [] {
      LineStart(args[..|args| - 1]);
    }
  }

  /** From the launcher's request, over the command line, to what the worker reads. */
  lemma LaunchedWorkerUnderstands(program: string, r: WorkerArguments.Request, diagnostic: WorkerArguments.Path)
    requires ProgramName(program) && WorkerArguments.Valid(r)
    ensures var command := QuoteArgument(program) + Line(WorkerArguments.Arguments(r, diagnostic));
            WorkerArguments.Read(TakeApart(command)[1..])
            == Some(WorkerArguments.Accepted(r.operation,
                    WorkerArguments.Reading(r.roots, diagnostic, WorkerArguments.ModeOf(r.shards))))
  {
    var args := WorkerArguments.Arguments(r, diagnostic);
    TakeApartCommand(program, args);
    assert ([program] + args)[1..] == args;
    WorkerArguments.WorkerUnderstandsLauncher(r, diagnostic);
  }
}
