/** Quoting for a POSIX shell, against the quoting rules of section 2.2 and the token
    rules of section 2.3 of the POSIX.1-2017 Shell Command Language.
  */
module ShellQuoting {

  import opened Results

  // ----- The shell's reading -----

  /** A character of a word; quoted ones take part in no expansion, splitting or matching. */
  datatype Mark = Mark(c: char, quoted: bool)

  datatype Token = Word(marks: seq<Mark>) | Operator(c: char)

  datatype Mode = Unquoted | Escaped | Single | Double | DoubleEscaped | Comment

  datatype Reader = Reader(tokens: seq<Token>, word: Option<seq<Mark>>, mode: Mode)

  const START := Reader([], None, Unquoted)

  function Pending(r: Reader): seq<Mark> {
    match r.word
    case None => []
    case Some(marks) => marks
  }

  function Add(r: Reader, c: char, quoted: bool, mode: Mode): Reader {
    r.(word := Some(Pending(r) + [Mark(c, quoted)]), mode := mode)
  }

  function EndWord(r: Reader): Reader {
    match r.word
    case None => r
    case Some(marks) => r.(tokens := r.tokens + [Word(marks)], word := None)
  }

  predicate IsOperator(c: char) {
    c == '\n' || c == ';' || c == '&' || c == '|' || c == '<' || c == '>' || c == '(' || c == ')'
  }

  predicate IsBlank(c: char) {
    c == ' ' || c == '\t'
  }

  function ReadUnquoted(r: Reader, c: char): Reader {
    if c == '\'' then r.(word := Some(Pending(r)), mode := Single)
    else if c == '"' then r.(word := Some(Pending(r)), mode := Double)
    else if c == '\\' then r.(mode := Escaped)
    else if c == '#' && r.word.None? then r.(mode := Comment)
    else if IsBlank(c) then EndWord(r)
    else if IsOperator(c) then
      var e := EndWord(r);
      e.(tokens := e.tokens + [Operator(c)])
    else Add(r, c, false, Unquoted)
  }

  function Read(r: Reader, c: char): Reader {
    match r.mode
    case Unquoted => ReadUnquoted(r, c)
    case Escaped => if c == '\n' then r.(mode := Unquoted) else Add(r, c, true, Unquoted)
    case Single => if c == '\'' then r.(mode := Unquoted) else Add(r, c, true, Single)
    case Double =>
      if c == '"' then r.(mode := Unquoted)
      else if c == '\\' then r.(mode := DoubleEscaped)
      else Add(r, c, c != '$' && c != '`', Double)
    case DoubleEscaped =>
      if c == '\n' then r.(mode := Double)
      else if c == '$' || c == '`' || c == '"' || c == '\\' then Add(r, c, true, Double)
      else Add(Add(r, '\\', true, Double), c, true, Double)
    case Comment =>
      if c == '\n' then r.(tokens := r.tokens + [Operator(c)], mode := Unquoted) else r
  }

  function ReadAll(r: Reader, s: string): Reader {
    if s == "" then r else Read(ReadAll(r, s[..|s| - 1]), s[|s| - 1])
  }

  /** The tokens of a text; None when a quotation is not closed. */
  function Tokens(s: string): Option<seq<Token>> {
    var r := ReadAll(START, s);
    if r.mode == Unquoted || r.mode == Comment then Some(EndWord(r).tokens) else None
  }

  lemma {:induction false} ReadConcat(r: Reader, a: string, b: string)
    ensures ReadAll(r, a + b) == ReadAll(ReadAll(r, a), b)
  {
    hide Read;
    if b == "" {
      assert a + b == a;
    } else {
      assert (a + b)[..|a + b| - 1] == a + b[..|b| - 1];
      ReadConcat(r, a, b[..|b| - 1]);
    }
  }

  lemma ReadOne(r: Reader, c: char)
    ensures ReadAll(r, [c]) == Read(r, c)
  {
    hide Read;
    assert [c][..0] == "";
  }

  // ----- Quoting -----

  function Escape(c: char): string {
    if c == '\'' then "'\\''" else [c]
  }

  function EscapeAll(value: string): string {
    if value == "" then "" else EscapeAll(value[..|value| - 1]) + Escape(value[|value| - 1])
  }

  function Quote(value: string): string {
    "'" + EscapeAll(value) + "'"
  }

  method ShellQuotePosix(value: string) returns (out: string)
    ensures out == Quote(value)
  {
    out := "'";
    for i := 0 to |value|
      invariant out == "'" + EscapeAll(value[..i])
    {
      assert value[..i + 1][..i] == value[..i];
      if value[i] == '\'' {
        out := out + "'\\''";
      } else {
        out := out + [value[i]];
      }
    }
    assert value[..|value|] == value;
    out := out + "'";
  }

  /** Every character, quoted. */
  function Literal(value: string): (marks: seq<Mark>)
    ensures |marks| == |value|
    ensures forall i | 0 <= i < |value| :: marks[i] == Mark(value[i], true)
  {
    if value == "" then [] else Literal(value[..|value| - 1]) + [Mark(value[|value| - 1], true)]
  }

  lemma ReadEscape(r: Reader, c: char)
    requires r.mode == Single
    ensures ReadAll(r, Escape(c)) == r.(word := Some(Pending(r) + [Mark(c, true)]))
  {
    hide ReadAll;
    if c == '\'' {
      ReadConcat(r, "'\\'", "'");
      assert "'\\'" + "'" == "'\\''";
      ReadConcat(r, "'\\", "'");
      assert "'\\" + "'" == "'\\'";
      ReadConcat(r, "'", "\\");
      assert "'" + "\\" == "'\\";
      var r1 := Read(r, '\'');
      var r2 := Read(r1, '\\');
      var r3 := Read(r2, '\'');
      ReadOne(r, '\'');
      ReadOne(r1, '\\');
      ReadOne(r2, '\'');
      ReadOne(r3, '\'');
    } else {
      ReadOne(r, c);
    }
  }

  lemma {:induction false} ReadEscapes(r: Reader, value: string)
    requires r.mode == Single && r.word.Some?
    ensures ReadAll(r, EscapeAll(value)) == r.(word := Some(Pending(r) + Literal(value)))
  {
    hide Read;
    if value == "" {
      assert Pending(r) + [] == Pending(r);
    } else {
      var front, last := value[..|value| - 1], value[|value| - 1];
      ReadEscapes(r, front);
      ReadConcat(r, EscapeAll(front), Escape(last));
      ReadEscape(ReadAll(r, EscapeAll(front)), last);
      assert Pending(r) + Literal(front) + [Mark(last, true)] == Pending(r) + Literal(value);
    }
  }

  /** Wherever nothing is open, a quoted value adds its characters to the current word, each
      of them quoted, and nothing is open behind it. */
  lemma QuoteIsLiteral(r: Reader, value: string)
    requires r.mode == Unquoted
    ensures ReadAll(r, Quote(value)) == r.(word := Some(Pending(r) + Literal(value)))
  {
    hide ReadAll, EscapeAll;
    var inside := r.(word := Some(Pending(r)), mode := Single);
    ReadConcat(r, "'" + EscapeAll(value), "'");
    ReadConcat(r, "'", EscapeAll(value));
    ReadOne(r, '\'');
    ReadEscapes(inside, value);
    ReadOne(inside.(word := Some(Pending(r) + Literal(value))), '\'');
  }

  /** In any context: what stands before and after is read as if the value were one
      indivisible part of a word. */
  lemma QuoteInContext(before: string, value: string, after: string)
    requires ReadAll(START, before).mode == Unquoted
    ensures var r := ReadAll(START, before);
            ReadAll(START, before + Quote(value) + after) == ReadAll(r.(word := Some(Pending(r) + Literal(value))), after)
  {
    hide ReadAll, Quote;
    ReadConcat(START, before + Quote(value), after);
    ReadConcat(START, before, Quote(value));
    QuoteIsLiteral(ReadAll(START, before), value);
  }

  // ----- Plain text -----

  predicate IsPlain(c: char) {
    !IsBlank(c) && !IsOperator(c) && c != '\'' && c != '"' && c != '\\' && c != '#'
  }

  function Plain(s: string): (marks: seq<Mark>)
    ensures |marks| == |s|
  {
    if s == "" then [] else Plain(s[..|s| - 1]) + [Mark(s[|s| - 1], false)]
  }

  lemma {:induction false} ReadPlain(r: Reader, s: string)
    requires r.mode == Unquoted && s != "" && forall i | 0 <= i < |s| :: IsPlain(s[i])
    ensures ReadAll(r, s) == r.(word := Some(Pending(r) + Plain(s)))
  {
    var front, last := s[..|s| - 1], s[|s| - 1];
    assert IsPlain(last);
    assert ReadAll(r, s) == Read(ReadAll(r, front), last);
    if front != "" {
      ReadPlain(r, front);
    } else {
      assert ReadAll(r, front) == r && Plain(front) == [];
      assert Pending(r) + [] == Pending(r);
    }
    assert Pending(r) + Plain(front) + [Mark(last, false)] == Pending(r) + Plain(s);
  }

  /** A plain word and the character that ends it. */
  lemma ReadWord(r: Reader, s: string, c: char)
    requires r.mode == Unquoted && r.word.None? && s != "" && forall i | 0 <= i < |s| :: IsPlain(s[i])
    requires IsBlank(c) || IsOperator(c)
    ensures ReadAll(r, s + [c])
            == Reader(r.tokens + [Word(Plain(s))] + (if IsOperator(c) then [Operator(c)] else []), None, Unquoted)
  {
    hide ReadAll;
    ReadPlain(r, s);
    ReadConcat(r, s, [c]);
    assert [] + Plain(s) == Plain(s);
    ReadOne(r.(word := Some(Plain(s))), c);
  }

  // ----- Two levels -----

  /** The command line for a terminal that takes one string. */
  function TerminalCommand(script: string): string {
    "bash -lc " + Quote(script)
  }

  /** The start of the script: the working directory and the helper's path. */
  function AgentScript(cwd: string, helper: string, rest: string): string {
    "set -e; cd -- " + Quote(cwd) + "; " + "MCP=" + Quote(helper) + "; " + rest
  }

  const SET: seq<Token> := [Word(Plain("set")), Word(Plain("-e")), Operator(';')]
  const CD: seq<Token> := [Word(Plain("cd")), Word(Plain("--"))]

  lemma ReadSet()
    ensures ReadAll(START, "set -e; cd -- ") == Reader(SET + CD, None, Unquoted)
  {
    hide ReadAll, Plain;
    var r0 := START;
    ReadWord(r0, "set", ' ');
    var r1 := Reader([Word(Plain("set"))], None, Unquoted);
    ReadWord(r1, "-e", ';');
    var r2 := Reader(SET, None, Unquoted);
    ReadOne(r2, ' ');
    ReadWord(r2, "cd", ' ');
    var r3 := Reader(SET + [Word(Plain("cd"))], None, Unquoted);
    ReadWord(r3, "--", ' ');
    assert "set -e; cd -- " == "set" + " " + ("-e" + ";") + " " + ("cd" + " ") + ("--" + " ");
    ReadConcat(r0, "set" + " ", "-e" + ";");
    ReadConcat(r0, "set" + " " + ("-e" + ";"), " ");
    ReadConcat(r0, "set" + " " + ("-e" + ";") + " ", "cd" + " ");
    ReadConcat(r0, "set" + " " + ("-e" + ";") + " " + ("cd" + " "), "--" + " ");
    assert r0.tokens + [Word(Plain("set"))] + [] == r1.tokens;
    assert r1.tokens + [Word(Plain("-e"))] + [Operator(';')] == SET;
    assert SET + [Word(Plain("cd"))] + [] == r3.tokens;
    assert r3.tokens + [Word(Plain("--"))] + [] == SET + CD;
  }

  lemma ReadSemicolon(tokens: seq<Token>, marks: seq<Mark>)
    ensures ReadAll(Reader(tokens, Some(marks), Unquoted), "; ") == Reader(tokens + [Word(marks), Operator(';')], None, Unquoted)
  {
    hide ReadAll;
    var r := Reader(tokens, Some(marks), Unquoted);
    assert "; " == ";" + " ";
    ReadConcat(r, ";", " ");
    ReadOne(r, ';');
    assert tokens + [Word(marks)] + [Operator(';')] == tokens + [Word(marks), Operator(';')];
    ReadOne(Reader(tokens + [Word(marks), Operator(';')], None, Unquoted), ' ');
  }

  /** What the shell has read of the script before the rest of it: the working directory as
      the one argument of cd, and the helper's path as the value of a variable. */
  lemma ScriptIsRead(cwd: string, helper: string, rest: string)
    ensures ReadAll(START, AgentScript(cwd, helper, rest))
            == ReadAll(Reader(SET + CD + [Word(Literal(cwd)), Operator(';')]
                              + [Word(Plain("MCP=") + Literal(helper)), Operator(';')], None, Unquoted), rest)
  {
    hide ReadAll, Quote, Plain, Literal;
    var a, b := "set -e; cd -- ", Quote(cwd);
    var t1 := SET + CD;
    var t2 := t1 + [Word(Literal(cwd)), Operator(';')];
    ReadConcat(START, a + b + "; " + "MCP=" + Quote(helper) + "; ", rest);
    ReadConcat(START, a + b + "; " + "MCP=" + Quote(helper), "; ");
    ReadConcat(START, a + b + "; " + "MCP=", Quote(helper));
    ReadConcat(START, a + b + "; ", "MCP=");
    ReadConcat(START, a + b, "; ");
    ReadConcat(START, a, b);
    ReadSet();
    QuoteIsLiteral(Reader(t1, None, Unquoted), cwd);
    assert [] + Literal(cwd) == Literal(cwd);
    ReadSemicolon(t1, Literal(cwd));
    ReadPlain(Reader(t2, None, Unquoted), "MCP=");
    assert [] + Plain("MCP=") == Plain("MCP=");
    QuoteIsLiteral(Reader(t2, Some(Plain("MCP=")), Unquoted), helper);
    ReadSemicolon(t2, Plain("MCP=") + Literal(helper));
  }

  /** The terminal starts bash with the script as one argument. */
  lemma CommandIsRead(script: string)
    ensures Tokens(TerminalCommand(script)) == Some([Word(Plain("bash")), Word(Plain("-lc")), Word(Literal(script))])
  {
    hide ReadAll, Quote, Plain, Literal;
    var r1, r2 := Reader([Word(Plain("bash"))], None, Unquoted), Reader([Word(Plain("bash")), Word(Plain("-lc"))], None, Unquoted);
    ReadWord(START, "bash", ' ');
    assert START.tokens + [Word(Plain("bash"))] + [] == r1.tokens;
    ReadWord(r1, "-lc", ' ');
    assert r1.tokens + [Word(Plain("-lc"))] + [] == r2.tokens;
    assert "bash -lc " == "bash" + " " + ("-lc" + " ");
    ReadConcat(START, "bash" + " ", "-lc" + " ");
    ReadConcat(START, "bash -lc ", Quote(script));
    QuoteIsLiteral(r2, script);
    assert [] + Literal(script) == Literal(script);
    assert r2.tokens + [Word(Literal(script))] == [Word(Plain("bash")), Word(Plain("-lc")), Word(Literal(script))];
  }

  /** The text of a word, its quotation forgotten: what a program gets as an argument. */
  function Text(marks: seq<Mark>): (s: string)
    ensures |s| == |marks| && forall i | 0 <= i < |s| :: s[i] == marks[i].c
  {
    if marks == [] then "" else [marks[0].c] + Text(marks[1..])
  }

  lemma TextOfLiteral(value: string)
    ensures Text(Literal(value)) == value
  {
  }

  /** Both levels at once: the terminal passes on the script unchanged, and the script
      changes to exactly the working directory, whatever characters it has. */
  lemma WorkingDirectorySurvivesBothLevels(cwd: string, helper: string, rest: string)
    ensures var command := Tokens(TerminalCommand(AgentScript(cwd, helper, rest)));
            && command.Some? && |command.value| == 3 && command.value[2].Word?
            && var script := Text(command.value[2].marks);
            && script == AgentScript(cwd, helper, rest)
            && var t := ReadAll(START, script[..|script| - |rest|]);
            && t.mode == Unquoted && |t.tokens| == 9
            && t.tokens[3] == Word(Plain("cd")) && t.tokens[5] == Word(Literal(cwd)) && t.tokens[6] == Operator(';')
            && t.tokens[7] == Word(Plain("MCP=") + Literal(helper))
  {
    hide ReadAll, Quote, Plain, Literal, Text, AgentScript;
    var script := AgentScript(cwd, helper, rest);
    CommandIsRead(script);
    TextOfLiteral(script);
    ScriptPrefix(cwd, helper, rest);
    ScriptIsRead(cwd, helper, "");
    ReadNothing(Reader(SET + CD + [Word(Literal(cwd)), Operator(';')] + [Word(Plain("MCP=") + Literal(helper)), Operator(';')], None, Unquoted));
  }

  lemma ScriptPrefix(cwd: string, helper: string, rest: string)
    ensures |AgentScript(cwd, helper, rest)| >= |rest|
    ensures AgentScript(cwd, helper, rest)[..|AgentScript(cwd, helper, rest)| - |rest|] == AgentScript(cwd, helper, "")
  {
    hide Quote;
  }

  lemma ReadNothing(r: Reader)
    ensures ReadAll(r, "") == r
  {
  }
}
