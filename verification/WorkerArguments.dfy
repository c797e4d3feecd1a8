/** The request the launcher writes on a command line and the worker reads back. */
module WorkerArguments {

  import opened Results
  import opened Text

  type Path = Bytes

  datatype Operation = Reindex | AddRoot | ReplaceRoots

  /** `shards` is -1 for "not given" and 0 for "auto". */
  datatype Request = Request(operation: Operation, roots: seq<Path>, shards: int)

  const REINDEX := Request(Reindex, [], -1)

  // ----- Hexadecimal paths -----

  const DIGITS := "0123456789abcdef"

  function HexEncode(path: Path): string {
    if path == [] then ""
    else HexEncode(path[..|path| - 1]) + [DIGITS[path[|path| - 1] / 16], DIGITS[path[|path| - 1] % 16]]
  }

  function HexDigit(c: char): int {
    if '0' <= c <= '9' then c as int - '0' as int
    else if 'a' <= c <= 'f' then 10 + (c as int - 'a' as int)
    else if 'A' <= c <= 'F' then 10 + (c as int - 'A' as int)
    else -1
  }

  function DecodePath(encoded: string): Option<Path> {
    if encoded == "" then Some([])
    else if |encoded| == 1 then None
    else
      var high, low := HexDigit(encoded[|encoded| - 2]), HexDigit(encoded[|encoded| - 1]);
      var front :- DecodePath(encoded[..|encoded| - 2]);
      if high < 0 || low < 0 then None else Some(front + [(16 * high + low)])
  }

  method EncodeHex(path: Path) returns (out: string)
    ensures out == HexEncode(path)
  {
    out := "";
    for i := 0 to |path|
      invariant out == HexEncode(path[..i])
    {
      assert path[..i + 1][..i] == path[..i];
      out := out + [DIGITS[path[i] / 16]];
      out := out + [DIGITS[path[i] % 16]];
    }
    assert path[..|path|] == path;
  }

  method DecodeWorkerPath(encoded: string) returns (r: Option<Path>)
    ensures r == DecodePath(encoded)
  {
    hide HexDigit;
    if |encoded| % 2 != 0 {
      OddIsRefused(encoded);
      return None;
    }
    var path: Path := [];
    var i := 0;
    while i < |encoded|
      invariant 0 <= i <= |encoded| && i % 2 == 0
      invariant DecodePath(encoded[..i]) == Some(path)
    {
      var high, low := HexDigit(encoded[i]), HexDigit(encoded[i + 1]);
      assert encoded[..i + 2][..i] == encoded[..i];
      if high < 0 || low < 0 {
        assert DecodePath(encoded[..i + 2]) == None;
        RefusedEarly(encoded, i + 2);
        return None;
      }
      HexDigitRange(encoded[i]);
      HexDigitRange(encoded[i + 1]);
      path := path + [(16 * high + low)];
      i := i + 2;
    }
    assert encoded[..i] == encoded;
    r := Some(path);
  }

  lemma HexDigitRange(c: char)
    ensures -1 <= HexDigit(c) < 16
  {
  }

  lemma {:induction false} OddIsRefused(encoded: string)
    requires |encoded| % 2 != 0
    ensures DecodePath(encoded) == None
  {
    if |encoded| > 1 {
      OddIsRefused(encoded[..|encoded| - 2]);
    }
  }

  lemma {:induction false} RefusedEarly(encoded: string, n: nat)
    requires n <= |encoded| && n % 2 == |encoded| % 2 && DecodePath(encoded[..n]) == None
    ensures DecodePath(encoded) == None
    decreases |encoded|
  {
    hide HexDigit;
    if n == |encoded| {
      assert encoded[..n] == encoded;
    } else {
      var front := encoded[..|encoded| - 2];
      assert front[..n] == encoded[..n];
      RefusedEarly(front, n);
    }
  }

  lemma DecodePair(front: string, a: char, b: char, path: Path, value: Byte)
    requires DecodePath(front) == Some(path)
    requires HexDigit(a) >= 0 && HexDigit(b) >= 0 && 16 * HexDigit(a) + HexDigit(b) == value
    ensures DecodePath(front + [a, b]) == Some(path + [value])
  {
    hide HexDigit;
    var s := front + [a, b];
    assert s[..|s| - 2] == front;
  }

  lemma {:induction false} HexRoundTrip(path: Path)
    ensures DecodePath(HexEncode(path)) == Some(path)
  {
    hide HexDigit, DecodePath;
    if path == [] {
      DecodeEmpty();
    } else {
      var front, last := path[..|path| - 1], path[|path| - 1];
      HexRoundTrip(front);
      HexDigitsOf(last);
      DecodePair(HexEncode(front), DIGITS[last / 16], DIGITS[last % 16], front, last);
      assert path == front + [last];
    }
  }

  lemma DecodeEmpty()
    ensures DecodePath("") == Some([])
  {
  }

  lemma HexDigitsOf(b: Byte)
    ensures HexDigit(DIGITS[b / 16]) == b / 16
    ensures HexDigit(DIGITS[b % 16]) == b % 16
    ensures 16 * (b / 16) + b % 16 == b
  {
    DigitValue(b / 16);
    DigitValue(b % 16);
  }

  lemma DigitValue(n: int)
    requires 0 <= n < 16
    ensures HexDigit(DIGITS[n]) == n
  {
    assert DIGITS[n] == if n < 10 then '0' + n as char else 'a' + (n - 10) as char;
  }

  /** Two lower-case digits for every byte, the high half first. */
  lemma {:induction false} HexDigitsAt(path: Path, i: nat)
    requires i < |path|
    ensures |HexEncode(path)| == 2 * |path|
    ensures HexEncode(path)[2 * i] == DIGITS[path[i] / 16] && HexEncode(path)[2 * i + 1] == DIGITS[path[i] % 16]
    decreases |path|
  {
    var front := path[..|path| - 1];
    if front == [] {
      assert HexEncode(front) == "";
    } else {
      HexDigitsAt(front, if i < |front| then i else 0);
    }
  }

  /** Exactly the texts with an even number of hexadecimal digits, of either case, are
      decoded, and every pair of digits gives one byte. */
  lemma {:induction false} DecodedPairs(encoded: string)
    ensures DecodePath(encoded).Some? <==> |encoded| % 2 == 0 && forall i | 0 <= i < |encoded| :: HexDigit(encoded[i]) >= 0
    ensures DecodePath(encoded).Some? ==>
              var path := DecodePath(encoded).value;
              && |encoded| == 2 * |path|
              && forall i | 0 <= i < |path| :: path[i] == 16 * HexDigit(encoded[2 * i]) + HexDigit(encoded[2 * i + 1])
  {
    hide HexDigit;
    if |encoded| >= 2 {
      var front := encoded[..|encoded| - 2];
      DecodedPairs(front);
      assert forall i | 0 <= i < |front| :: front[i] == encoded[i];
    }
  }

  /** An example spells the words out. */
  lemma ArgumentsExample()
    ensures Arguments(Request(AddRoot, [[0x2F, 0xAB]], 4), [0x2F])
            == ["--index-worker", "add", "--shards=4", "2fab", "--diagnostic=2f"]
    ensures Arguments(Request(ReplaceRoots, [], 0), []) == ["--index-worker", "replace", "--shards=auto"]
    ensures Arguments(REINDEX, []) == ["--index-worker", "reindex"]
  {
    hide HexEncode;
    SmallDecimals();
    HexExample();
    var root: Path := [0x2F, 0xAB];
    assert [root][..0] == [];
    assert RootArguments([root]) == [HexEncode(root)];
    assert SHARDS + "4" == "--shards=4" && SHARDS + "auto" == "--shards=auto" && DIAGNOSTIC + "2f" == "--diagnostic=2f";
  }

  lemma HexExample()
    ensures HexEncode([0x2F]) == "2f" && HexEncode([0x2F, 0xAB]) == "2fab"
  {
    HexDigitsAt([0x2F], 0);
    HexDigitsAt([0x2F, 0xAB], 0);
    HexDigitsAt([0x2F, 0xAB], 1);
  }

  /** Encoded paths are made of digits, so they are not taken for options. */
  lemma {:induction false} HexIsNoOption(path: Path)
    ensures forall c | c in HexEncode(path) :: c != '-'
  {
    if path != [] {
      HexIsNoOption(path[..|path| - 1]);
    }
  }

  // ----- Arguments -----

  predicate ValidShards(n: int) {
    n == -1 || n == 0 || n == 1 || n == 2 || n == 4 || n == 8 || n == 16
  }

  /** What the launcher checks before it starts anything. */
  predicate Valid(r: Request) {
    && ValidShards(r.shards)
    && (r.operation.AddRoot? ==> |r.roots| == 1)
    && (r.operation.Reindex? ==> r.roots == [])
  }

  function OperationName(op: Operation): string {
    match op
    case Reindex => "reindex"
    case AddRoot => "add"
    case ReplaceRoots => "replace"
  }

  const SHARDS := "--shards="
  const DIAGNOSTIC := "--diagnostic="

  function ShardArguments(shards: int): seq<string> {
    if shards < 0 then [] else [SHARDS + if shards == 0 then "auto" else Decimal(shards)]
  }

  function RootArguments(roots: seq<Path>): seq<string> {
    if roots == [] then [] else RootArguments(roots[..|roots| - 1]) + [HexEncode(roots[|roots| - 1])]
  }

  function DiagnosticArguments(diagnostic: Path): seq<string> {
    if diagnostic == [] then [] else [DIAGNOSTIC + HexEncode(diagnostic)]
  }

  /** The arguments after the program; the diagnostic path is added on Windows only. */
  function Arguments(r: Request, diagnostic: Path): seq<string> {
    ["--index-worker", OperationName(r.operation)] + ShardArguments(r.shards) + RootArguments(r.roots) + DiagnosticArguments(diagnostic)
  }

  method BuildArguments(r: Request, diagnostic: Path) returns (args: seq<string>)
    ensures args == Arguments(r, diagnostic)
  {
    hide HexEncode;
    args := ["--index-worker", OperationName(r.operation)];
    if r.shards >= 0 {
      args := args + [SHARDS + if r.shards == 0 then "auto" else Decimal(r.shards)];
    }
    ghost var start := args;
    for i := 0 to |r.roots|
      invariant args == start + RootArguments(r.roots[..i])
    {
      assert r.roots[..i + 1][..i] == r.roots[..i];
      var encoded := EncodeHex(r.roots[i]);
      args := args + [encoded];
    }
    assert r.roots[..|r.roots|] == r.roots;
    if diagnostic != [] {
      var encoded := EncodeHex(diagnostic);
      args := args + [DIAGNOSTIC + encoded];
    }
  }

  // ----- The worker's reading -----

  predicate ShardMode(mode: string) {
    mode == "auto" || mode == "1" || mode == "2" || mode == "4" || mode == "8" || mode == "16"
  }

  /** What the worker has read: `mode` is what it wrote to its environment. */
  datatype Reading = Reading(roots: seq<Path>, diagnostic: Path, mode: Option<string>)

  function ReadToken(s: Reading, token: string): Option<Reading> {
    if DIAGNOSTIC <= token then
      var path :- DecodePath(token[|DIAGNOSTIC|..]);
      if s.diagnostic != [] then None else Some(s.(diagnostic := path))
    else if SHARDS <= token then
      if s.mode.Some? || !ShardMode(token[|SHARDS|..]) then None else Some(s.(mode := Some(token[|SHARDS|..])))
    else
      var path :- DecodePath(token);
      Some(s.(roots := s.roots + [path]))
  }

  const NOTHING_READ := Reading([], [], None)

  function ReadTokens(tokens: seq<string>): Option<Reading> {
    if tokens == [] then Some(NOTHING_READ)
    else
      var s :- ReadTokens(tokens[..|tokens| - 1]);
      ReadToken(s, tokens[|tokens| - 1])
  }

  function OperationOf(name: string, roots: nat): Option<Operation> {
    if name == "reindex" then if roots == 0 then Some(Reindex) else None
    else if name == "add" then if roots == 1 then Some(AddRoot) else None
    else if name == "replace" then Some(ReplaceRoots)
    else None
  }

  datatype Accepted = Accepted(operation: Operation, reading: Reading)

  /** `args` follow the program; None is exit code 2, before any state is touched. */
  function Read(args: seq<string>): Option<Accepted> {
    if |args| < 2 then None
    else
      var s :- ReadTokens(args[2..]);
      var op :- OperationOf(LowerAll(args[1]), |s.roots|);
      Some(Accepted(op, s))
  }

  /** The worker's argument loop.  `environmentWorks` is whether variables can be set. */
  method RunIndexWorker(args: seq<string>, environmentWorks: bool) returns (r: Option<Accepted>)
    ensures r.Some? ==> r == Read(args)
    ensures environmentWorks ==> r == Read(args)
  {
    hide DecodePath, LowerAll, ShardMode;
    if |args| < 2 {
      return None;
    }
    var operation := LowerAll(args[1]);
    var tokens := args[2..];
    var roots: seq<Path> := [];
    var diagnostic: Path := [];
    var mode: Option<string> := None;
    for i := 0 to |tokens|
      invariant ReadTokens(tokens[..i]) == Some(Reading(roots, diagnostic, mode))
    {
      var token := tokens[i];
      assert tokens[..i + 1][..i] == tokens[..i];
      TokensRefused(tokens, i + 1);
      if DIAGNOSTIC <= token {
        var decoded := DecodeWorkerPath(token[|DIAGNOSTIC|..]);
        if decoded.None? || diagnostic != [] {
          return None;
        }
        diagnostic := decoded.value;
        continue;
      }
      if SHARDS <= token {
        if mode.Some? || !ShardMode(token[|SHARDS|..]) || !environmentWorks {
          return None;
        }
        mode := Some(token[|SHARDS|..]);
        continue;
      }
      var decoded := DecodeWorkerPath(token);
      if decoded.None? {
        return None;
      }
      roots := roots + [decoded.value];
    }
    assert tokens[..|tokens|] == tokens;
    if operation == "reindex" && roots != [] {
      return None;
    }
    if operation == "add" && |roots| != 1 {
      return None;
    }
    if operation != "reindex" && operation != "add" && operation != "replace" {
      return None;
    }
    var op := if operation == "reindex" then Reindex else if operation == "add" then AddRoot else ReplaceRoots;
    r := Some(Accepted(op, Reading(roots, diagnostic, mode)));
  }

  lemma {:induction false} TokensRefused(tokens: seq<string>, n: nat)
    requires n <= |tokens|
    ensures ReadTokens(tokens[..n]) == None ==> ReadTokens(tokens) == None
    decreases |tokens| - n
  {
    hide ReadToken;
    if n == |tokens| {
      assert tokens[..n] == tokens;
    } else {
      assert tokens[..n + 1][..n] == tokens[..n];
      TokensRefused(tokens, n + 1);
    }
  }

  // ----- Both sides agree -----

  function ModeOf(shards: int): Option<string> {
    if shards < 0 then None else Some(if shards == 0 then "auto" else Decimal(shards))
  }

  /** The number a mode stands for, as the launcher writes it. */
  function ShardsOf(mode: Option<string>): int {
    if mode.None? then -1
    else if mode.value == "auto" then 0
    else if AllDigits(mode.value) then Number(mode.value)
    else -1
  }

  lemma SmallDecimals()
    ensures Decimal(1) == "1" && Decimal(2) == "2" && Decimal(4) == "4" && Decimal(8) == "8" && Decimal(16) == "16"
  {
    assert Decimal(16) == Decimal(1) + ['6'];
  }

  lemma ModeIsValid(shards: nat)
    ensures ShardMode(ModeOf(shards).value) <==> ValidShards(shards)
    ensures ShardsOf(ModeOf(shards)) == shards
  {
    SmallDecimals();
    NumberOfDecimal(shards);
    NumberOfDecimal(1);
    NumberOfDecimal(2);
    NumberOfDecimal(4);
    NumberOfDecimal(8);
    NumberOfDecimal(16);
  }

  lemma {:induction false} ReadConcat(a: seq<string>, b: string)
    ensures ReadTokens(a + [b]) == match ReadTokens(a) case None => None case Some(s) => ReadToken(s, b)
  {
    assert (a + [b])[..|a + [b]| - 1] == a;
  }

  lemma ReadRoot(s: Reading, root: Path)
    ensures ReadToken(s, HexEncode(root)) == Some(s.(roots := s.roots + [root]))
  {
    HexRoundTrip(root);
    HexIsNoOption(root);
    var token := HexEncode(root);
    assert token != "" ==> token[0] in token;
  }

  lemma {:induction false} ReadRoots(start: seq<string>, roots: seq<Path>)
    requires ReadTokens(start).Some?
    ensures ReadTokens(start + RootArguments(roots))
            == Some(ReadTokens(start).value.(roots := ReadTokens(start).value.roots + roots))
  {
    hide ReadToken, HexEncode, ReadTokens;
    if roots == [] {
      assert start + [] == start;
      assert ReadTokens(start).value.roots + [] == ReadTokens(start).value.roots;
    } else {
      var front, last := roots[..|roots| - 1], roots[|roots| - 1];
      ReadRoots(start, front);
      var s := ReadTokens(start + RootArguments(front)).value;
      ReadConcat(start + RootArguments(front), HexEncode(last));
      assert start + RootArguments(roots) == start + RootArguments(front) + [HexEncode(last)];
      ReadRoot(s, last);
      assert ReadTokens(start).value.roots + front + [last] == ReadTokens(start).value.roots + roots;
    }
  }

  lemma ReadShards(shards: int)
    ensures ReadTokens(ShardArguments(shards))
            == if shards < -1 || ValidShards(shards) then Some(NOTHING_READ.(mode := ModeOf(shards))) else None
  {
    if shards >= 0 {
      ModeIsValid(shards);
      var mode := ModeOf(shards).value;
      var token := SHARDS + mode;
      assert token[|SHARDS|..] == mode && token[2] == 's' && DIAGNOSTIC[2] == 'd';
      assert ShardArguments(shards) == [] + [token];
      ReadConcat([], token);
    }
  }

  lemma ReadDiagnostic(start: seq<string>, diagnostic: Path)
    requires ReadTokens(start).Some? && ReadTokens(start).value.diagnostic == []
    ensures ReadTokens(start + DiagnosticArguments(diagnostic)) == Some(ReadTokens(start).value.(diagnostic := diagnostic))
  {
    hide HexEncode, DecodePath;
    if diagnostic == [] {
      assert start + [] == start;
    } else {
      var token := DIAGNOSTIC + HexEncode(diagnostic);
      HexRoundTrip(diagnostic);
      assert token[|DIAGNOSTIC|..] == HexEncode(diagnostic);
      ReadConcat(start, token);
    }
  }

  lemma ReadArguments(r: Request, diagnostic: Path)
    ensures ReadTokens(Arguments(r, diagnostic)[2..])
            == if r.shards < -1 || ValidShards(r.shards) then Some(Reading(r.roots, diagnostic, ModeOf(r.shards))) else None
  {
    hide ReadTokens, HexEncode, RootArguments, ShardArguments, DiagnosticArguments, ValidShards;
    var a, b, c := ShardArguments(r.shards), RootArguments(r.roots), DiagnosticArguments(diagnostic);
    var tokens := a + b + c;
    assert Arguments(r, diagnostic)[2..] == tokens;
    ReadShards(r.shards);
    if r.shards < -1 || ValidShards(r.shards) {
      ReadRoots(a, r.roots);
      assert [] + r.roots == r.roots;
      ReadDiagnostic(a + b, diagnostic);
    } else {
      assert tokens[..|a|] == a;
      TokensRefused(tokens, |a|);
    }
  }

  /** The worker accepts exactly the requests the launcher validates, and understands
      them as they were meant; a negative shard count other than -1, which the launcher
      refuses, would not have been sent. */
  lemma WorkerUnderstandsLauncher(r: Request, diagnostic: Path)
    ensures Read(Arguments(r, diagnostic)).Some? <==> Valid(if r.shards < -1 then r.(shards := -1) else r)
    ensures Valid(r) ==>
              Read(Arguments(r, diagnostic)) == Some(Accepted(r.operation, Reading(r.roots, diagnostic, ModeOf(r.shards))))
              && ShardsOf(ModeOf(r.shards)) == r.shards
  {
    hide ReadTokens, RootArguments, ShardArguments, DiagnosticArguments, LowerAll, ModeOf, ShardsOf;
    ReadArguments(r, diagnostic);
    LowerFixed(OperationName(r.operation));
    ModeOfShards(r.shards);
  }

  lemma ModeOfShards(shards: int)
    ensures shards >= -1 ==> ShardsOf(ModeOf(shards)) == shards
  {
    if shards >= 0 {
      ModeIsValid(shards);
    }
  }

  lemma {:induction false} ReadModes(tokens: seq<string>)
    requires ReadTokens(tokens).Some?
    ensures var mode := ReadTokens(tokens).value.mode;
            mode.Some? ==> ShardMode(mode.value)
  {
    hide DecodePath, ShardMode;
    if tokens != [] {
      ReadModes(tokens[..|tokens| - 1]);
    }
  }

  /** Whatever command line the worker accepts, it acts on a request that the launcher
      would have validated. */
  lemma AcceptedIsValid(args: seq<string>)
    requires Read(args).Some?
    ensures var a := Read(args).value;
            Valid(Request(a.operation, a.reading.roots, ShardsOf(a.reading.mode)))
  {
    hide ReadTokens, LowerAll;
    ReadModes(args[2..]);
    ModesAreValid(Read(args).value.reading.mode);
  }

  lemma ModesAreValid(mode: Option<string>)
    requires mode.Some? ==> ShardMode(mode.value)
    ensures ValidShards(ShardsOf(mode))
  {
    SmallDecimals();
    NumberOfDecimal(1);
    NumberOfDecimal(2);
    NumberOfDecimal(4);
    NumberOfDecimal(8);
    NumberOfDecimal(16);
  }
}
