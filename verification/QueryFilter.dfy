/** Building a filter from the words of a query, and compiling a filter back.

    The calendar is a parameter about which nothing is assumed: the program checks
    every date it converts by converting it back, and that check is part of the model.
  */
module QueryFilter {

  import opened Results
  import opened Text
  import opened SearchDialect

  datatype Dialect = Windows | UnixLike

  function Prefix(dialect: Dialect): string {
    if dialect.Windows? then "/" else "//"
  }

  // ----- Dates -----

  datatype Date = Date(year: int, month: int, day: int)

  /** Local time: the second a date is converted to, the date of a second, and the
      first and last second of the day some days away from a second. */
  datatype Calendar = Calendar(
    makeTime: Date -> Option<int>,
    localDay: int -> Option<Date>,
    dayRange: (int, int) -> Option<(int, int)>)

  const DAY_SECONDS := 86400

  predicate InRange(d: Date) {
    1970 <= d.year <= 9999 && 1 <= d.month <= 12 && 1 <= d.day <= 31
  }

  /** Converts a date and rejects it unless it converts back. */
  function EpochOf(cal: Calendar, d: Date): Option<int> {
    if !InRange(d) then None
    else
      var epoch :- cal.makeTime(d);
      if cal.localDay(epoch) == Some(d) then Some(epoch) else None
  }

  /** `t` is the second that stands for a local day the program can write. */
  predicate IsMidnight(cal: Calendar, t: int) {
    match cal.localDay(t)
    case Some(d) => EpochOf(cal, d) == Some(t)
    case None => false
  }

  function IsoDay(cal: Calendar, s: string): Option<int> {
    if |s| != 10 || s[4] != '-' || s[7] != '-' then None
    else if !AllDigits(s[0..4]) || !AllDigits(s[5..7]) || !AllDigits(s[8..10]) then None
    else EpochOf(cal, Date(Number(s[0..4]), Number(s[5..7]), Number(s[8..10])))
  }

  function IsoMonth(cal: Calendar, s: string): Option<(int, int)> {
    if |s| != 7 || s[4] != '-' || !AllDigits(s[0..4]) || !AllDigits(s[5..7]) then None
    else
      var y, m := Number(s[0..4]), Number(s[5..7]);
      if m < 1 || m > 12 then None
      else
        var begin :- EpochOf(cal, Date(y, m, 1));
        var end :- EpochOf(cal, if m == 12 then Date(y + 1, 1, 1) else Date(y, m + 1, 1));
        Some((begin, end))
  }

  function CompactDay(cal: Calendar, s: string, monthFirst: bool): Option<int> {
    if |s| != 8 || !AllDigits(s) then None
    else
      assert forall a, b | 0 <= a <= b <= 8 :: forall c | c in s[a..b] :: c in s;
      if monthFirst then EpochOf(cal, Date(Number(s[4..8]), Number(s[0..2]), Number(s[2..4])))
      else EpochOf(cal, Date(Number(s[0..4]), Number(s[4..6]), Number(s[6..8])))
  }

  function AnyCompactDay(cal: Calendar, s: string): Option<int> {
    var ymd := CompactDay(cal, s, false);
    if ymd.Some? then ymd else CompactDay(cal, s, true)
  }

  function CompactRange(cal: Calendar, s: string): Option<(int, int)> {
    if |s| != 17 || (s[8] != '-' && s[8] != '~') then None
    else
      var bothYmd := CompactDay(cal, s[0..8], false).Some? && CompactDay(cal, s[9..17], false).Some?;
      var begin :- CompactDay(cal, s[0..8], !bothYmd);
      var end :- CompactDay(cal, s[9..17], !bothYmd);
      if end < begin then None
      else
        var next := cal.dayRange(end, 1);
        Some((begin, if next.Some? then next.value.0 else end + DAY_SECONDS))
  }

  function DayAsRange(cal: Calendar, day: int): (int, int) {
    var range := cal.dayRange(day, 0);
    (day, if range.Some? then range.value.1 else day + DAY_SECONDS)
  }

  function CompactDayRange(cal: Calendar, s: string): Option<(int, int)> {
    var day :- AnyCompactDay(cal, s);
    Some(DayAsRange(cal, day))
  }

  // ----- Words of a query -----

  /** What does not change while one query is parsed. */
  datatype Context = Context(dialect: Dialect, cal: Calendar, registered: set<string>)

  predicate ExtensionChar(c: char) {
    IsDigit(c) || 'a' <= c <= 'z' || 'A' <= c <= 'Z' || c == '_' || c == '-' || c == '+'
  }

  predicate LooksExtension(body: string) {
    0 < |body| <= 16 && forall i | 0 <= i < |body| :: ExtensionChar(body[i])
  }

  predicate StartsWith(s: string, t: string) {
    t <= s
  }

  predicate IsRelative(v: string) {
    v == "today" || v == "yesterday" || v == "week" || v == "month" || v == "year"
  }

  predicate ValidControl(cal: Calendar, body: string) {
    var v := LowerAll(body);
    if v == "pin" || IsRelative(v) then true
    else if StartsWith(v, "date:") then IsoDay(cal, v[5..]).Some?
    else if StartsWith(v, "after:") then IsoDay(cal, v[6..]).Some?
    else if StartsWith(v, "before:") then IsoDay(cal, v[7..]).Some?
    else if CompactRange(cal, v).Some? || CompactDayRange(cal, v).Some? then true
    else IsoDay(cal, v).Some? || IsoMonth(cal, v).Some?
  }

  datatype Bounds = Bounds(after: Option<int>, before: Option<int>)

  function Both(range: (int, int)): Bounds {
    Bounds(Some(range.0), Some(range.1))
  }

  function ApplyDate(cal: Calendar, b: Bounds, body: string, now: int): Bounds {
    var v := LowerAll(body);
    if v == "today" || v == "yesterday" then
      var range := cal.dayRange(now, if v == "today" then 0 else -1);
      if range.Some? then Both(range.value) else b
    else if v == "week" then Bounds(Some(now - 7 * DAY_SECONDS), Some(now + 1))
    else if v == "month" then Bounds(Some(now - 30 * DAY_SECONDS), Some(now + 1))
    else if v == "year" then Bounds(Some(now - 365 * DAY_SECONDS), Some(now + 1))
    else if StartsWith(v, "date:") then
      var d := IsoDay(cal, v[5..]);
      if d.Some? then Both(DayAsRange(cal, d.value)) else b
    else if StartsWith(v, "after:") then
      var d := IsoDay(cal, v[6..]);
      if d.Some? then b.(after := d) else b
    else if StartsWith(v, "before:") then
      var d := IsoDay(cal, v[7..]);
      if d.Some? then b.(before := d) else b
    else if CompactRange(cal, v).Some? then Both(CompactRange(cal, v).value)
    else if CompactDayRange(cal, v).Some? then Both(CompactDayRange(cal, v).value)
    else if IsoDay(cal, v).Some? then Both(DayAsRange(cal, IsoDay(cal, v).value))
    else if IsoMonth(cal, v).Some? then Both(IsoMonth(cal, v).value)
    else b
  }

  /** A compact date may be written with one slash, two, or none. */
  function CompactCandidate(word: string): string {
    if StartsWith(word, "//") then word[2..]
    else if StartsWith(word, "/") then word[1..]
    else word
  }

  predicate IsCompactDate(cal: Calendar, s: string) {
    CompactRange(cal, s).Some? || CompactDayRange(cal, s).Some?
  }

  datatype Kind = Inside | DateToken(body: string) | Pin | Extension(name: string) | PlainText

  function Classify(ctx: Context, word: string): Kind {
    var prefix := Prefix(ctx.dialect);
    var candidate := CompactCandidate(word);
    if LowerAll(word) == "/inside" then Inside
    else if IsCompactDate(ctx.cal, candidate) then DateToken(candidate)
    else if !StartsWith(word, prefix) || |word| == |prefix| then PlainText
    else
      var body := word[|prefix|..];
      if LowerAll(body) == "pin" then Pin
      else if ValidControl(ctx.cal, body) then DateToken(body)
      else if LooksExtension(body) && LowerAll(body) in ctx.registered then Extension(LowerAll(body))
      else PlainText
  }

  // ----- Filters -----

  datatype Scope = FileScope | ContentScope

  datatype Filter = Filter(
    text: string,
    extensions: seq<string>,
    detailTerms: seq<string>,
    modified: Bounds,
    pinnedOnly: bool,
    scope: Scope)

  datatype State = State(parts: seq<string>, extensions: seq<string>, modified: Bounds, pinned: bool, scope: Scope)

  const START := State([], [], Bounds(None, None), false, FileScope)

  function Step(ctx: Context, now: int, s: State, word: string): State {
    match Classify(ctx, word)
    case Inside => s.(scope := ContentScope)
    case DateToken(body) => s.(modified := ApplyDate(ctx.cal, s.modified, body, now))
    case Pin => s.(pinned := true)
    case Extension(name) => if name in s.extensions then s else s.(extensions := s.extensions + [name])
    case PlainText => s.(parts := s.parts + [word])
  }

  function Run(ctx: Context, now: int, s: State, words: seq<string>): State {
    if words == [] then s else Step(ctx, now, Run(ctx, now, s, words[..|words| - 1]), words[|words| - 1])
  }

  lemma {:induction false} RunConcat(ctx: Context, now: int, s: State, a: seq<string>, b: seq<string>)
    ensures Run(ctx, now, s, a + b) == Run(ctx, now, Run(ctx, now, s, a), b)
  {
    hide Step;
    if b == [] {
      assert a + b == a;
    } else {
      var front := b[..|b| - 1];
      assert (a + b)[..|a + b| - 1] == a + front;
      RunConcat(ctx, now, s, a, front);
    }
  }

  /** The stages written one after the other with single spaces between non-empty ones. */
  function Flatten(stages: seq<string>): string {
    if stages == [] then ""
    else
      var front := Flatten(stages[..|stages| - 1]);
      var last := stages[|stages| - 1];
      if front != "" && last != "" then front + " " + last else front + last
  }

  function Normalized(query: string, collectDetail: bool): string {
    if collectDetail && |Stages(query)| > 1 then Flatten(Stages(query)) else query
  }

  /** The text of one stage parsed alone. */
  function StageText(ctx: Context, now: int, stage: string): string {
    Join(Run(ctx, now, START, Words(stage)).parts)
  }

  function DetailTerms(ctx: Context, now: int, refinements: seq<string>): seq<string> {
    if refinements == [] then []
    else
      var front := DetailTerms(ctx, now, refinements[..|refinements| - 1]);
      var text := StageText(ctx, now, refinements[|refinements| - 1]);
      if text != "" then front + [text] else front
  }

  function FilterOf(s: State, terms: seq<string>): Filter {
    Filter(Join(s.parts), s.extensions, terms, s.modified, s.pinned, s.scope)
  }

  function ParseImpl(ctx: Context, now: int, query: string, collectDetail: bool): Filter {
    FilterOf(
      Run(ctx, now, START, Words(Normalized(query, collectDetail))),
      if collectDetail then DetailTerms(ctx, now, Stages(query)[1..]) else [])
  }

  function Parse(ctx: Context, now: int, query: string): Filter {
    ParseImpl(ctx, now, query, true)
  }

  // ----- The source's loops -----

  method ParseWords(ctx: Context, now: int, words: seq<string>) returns (s: State)
    ensures s == Run(ctx, now, START, words)
  {
    hide Step;
    s := START;
    var seen: set<string> := {};
    for n := 0 to |words|
      invariant s == Run(ctx, now, START, words[..n])
      invariant forall e :: e in seen <==> e in s.extensions
    {
      assert words[..n + 1][..n] == words[..n];
      s, seen := ParseWord(ctx, now, s, seen, words[n]);
    }
    assert words[..|words|] == words;
  }

  /** One round of the loop: what a word does to the filter under construction. */
  method ParseWord(ctx: Context, now: int, s: State, seen: set<string>, word: string) returns (s': State, seen': set<string>)
    requires forall e :: e in seen <==> e in s.extensions
    ensures s' == Step(ctx, now, s, word)
    ensures forall e :: e in seen' <==> e in s'.extensions
  {
    hide ValidControl, ApplyDate, CompactDayRange, CompactRange, LooksExtension, LowerAll;
    s', seen' := s, seen;
    var prefix := Prefix(ctx.dialect);
    if LowerAll(word) == "/inside" {
      s' := s.(scope := ContentScope);
      return;
    }
    var candidate := word;
    if StartsWith(candidate, "//") {
      candidate := candidate[2..];
    } else if StartsWith(candidate, "/") {
      candidate := candidate[1..];
    }
    if CompactRange(ctx.cal, candidate).Some? || CompactDayRange(ctx.cal, candidate).Some? {
      s' := s.(modified := ApplyDate(ctx.cal, s.modified, candidate, now));
      return;
    }
    if !StartsWith(word, prefix) || |word| == |prefix| {
      s' := s.(parts := s.parts + [word]);
      return;
    }
    var body := word[|prefix|..];
    var lower := LowerAll(body);
    if lower == "pin" {
      s' := s.(pinned := true);
      return;
    }
    if ValidControl(ctx.cal, body) {
      s' := s.(modified := ApplyDate(ctx.cal, s.modified, body, now));
      return;
    }
    if LooksExtension(body) && lower in ctx.registered {
      if lower !in seen {
        seen' := seen + {lower};
        s' := s.(extensions := s.extensions + [lower]);
      }
      return;
    }
    s' := s.(parts := s.parts + [word]);
  }

  method ParseQuery(ctx: Context, now: int, query: string, collectDetail: bool) returns (f: Filter)
    ensures f == ParseImpl(ctx, now, query, collectDetail)
  {
    hide Run, Stages;
    var normalized := query;
    var detail := DetailSearch("", [], false);
    if collectDetail {
      detail := SplitDetail(query);
      ghost var stages := Stages(query);
      if detail.active {
        normalized := detail.primary;
        FlattenOne(stages[..1]);
        for i := 0 to |detail.refinements|
          invariant normalized == Flatten(stages[..i + 1])
        {
          var refinement := detail.refinements[i];
          assert stages[..i + 2][..i + 1] == stages[..i + 1];
          if normalized != "" && refinement != "" {
            normalized := normalized + " ";
          }
          normalized := normalized + refinement;
        }
        assert stages[..|stages|] == stages;
      }
    }
    var s := ParseWords(ctx, now, Words(normalized));
    var text := JoinParts(s.parts);
    var terms: seq<string> := [];
    if collectDetail && detail.active {
      for i := 0 to |detail.refinements|
        invariant terms == DetailTerms(ctx, now, detail.refinements[..i])
      {
        assert detail.refinements[..i + 1][..i] == detail.refinements[..i];
        var child := ParseWords(ctx, now, Words(detail.refinements[i]));
        var childText := JoinParts(child.parts);
        if childText != "" {
          terms := terms + [childText];
        }
      }
      assert detail.refinements[..|detail.refinements|] == detail.refinements;
    }
    f := Filter(text, s.extensions, terms, s.modified, s.pinned, s.scope);
  }

  lemma FlattenOne(stages: seq<string>)
    requires |stages| == 1
    ensures Flatten(stages) == stages[0]
  {
    assert stages[..0] == [];
  }

  method JoinParts(parts: seq<string>) returns (text: string)
    ensures text == Join(parts)
  {
    text := "";
    for i := 0 to |parts|
      invariant text == Join(parts[..i])
    {
      assert parts[..i + 1] == parts[..i] + [parts[i]];
      JoinConcat(parts[..i], [parts[i]]);
      if i > 0 {
        text := text + " ";
      }
      text := text + parts[i];
    }
    assert parts[..|parts|] == parts;
  }

  // ----- Compiling -----

  /** Two digits, as a calendar field prints. */
  function Two(n: int): string {
    if 0 <= n <= 9 then "0" + Decimal(n) else if n >= 10 then Decimal(n) else "-" + Decimal(-n)
  }

  function YearText(y: int): string {
    if y >= 0 then Decimal(y) else "-" + Decimal(-y)
  }

  function DayText(d: Date): string {
    YearText(d.year) + "-" + Two(d.month) + "-" + Two(d.day)
  }

  /** The day of a second; empty when local time fails or the text does not fit. */
  function IsoLocalDay(cal: Calendar, t: int): string {
    match cal.localDay(t)
    case None => ""
    case Some(d) => if |DayText(d)| < 16 then DayText(d) else ""
  }

  function BoundWord(ctx: Context, name: string, bound: Option<int>): seq<string> {
    if bound.None? || IsoLocalDay(ctx.cal, bound.value) == "" then []
    else [Prefix(ctx.dialect) + name + IsoLocalDay(ctx.cal, bound.value)]
  }

  function ExtensionWords(dialect: Dialect, extensions: seq<string>): (r: seq<string>)
    ensures |r| == |extensions|
  {
    seq(|extensions|, i requires 0 <= i < |extensions| => Prefix(dialect) + extensions[i])
  }

  lemma ExtensionWordAt(dialect: Dialect, extensions: seq<string>, i: nat)
    requires i < |extensions|
    ensures ExtensionWords(dialect, extensions)[i] == Prefix(dialect) + extensions[i]
    ensures Prefix(dialect) + extensions[i] != ""
  {
  }

  /** The words a compiled filter adds behind its text. */
  function FilterWords(ctx: Context, f: Filter): seq<string> {
    ExtensionWords(ctx.dialect, f.extensions)
    + (if f.pinnedOnly then [Prefix(ctx.dialect) + "pin"] else [])
    + BoundWord(ctx, "after:", f.modified.after)
    + BoundWord(ctx, "before:", f.modified.before)
  }

  function Compile(ctx: Context, f: Filter): string {
    Join((if f.text == "" then [] else [f.text]) + FilterWords(ctx, f))
  }

  ghost predicate Written(text: string, first: bool, values: seq<string>) {
    text == Join(values) && first == (values == [])
  }

  /** The appending closure of the compiler: single spaces, empty values skipped. */
  method Append(text: string, first: bool, value: string, ghost values: seq<string>)
    returns (text': string, first': bool, ghost values': seq<string>)
    requires Written(text, first, values)
    ensures Written(text', first', values')
    ensures values' == if value == "" then values else values + [value]
  {
    if value == "" {
      return text, first, values;
    }
    JoinConcat(values, [value]);
    text' := if first then value else text + " " + value;
    first' := false;
    values' := values + [value];
  }

  method CompileRuntimeQuery(ctx: Context, f: Filter) returns (query: string)
    ensures query == Compile(ctx, f)
  {
    hide IsoLocalDay, Written, Join, BoundWord, ExtensionWords;
    var prefix := Prefix(ctx.dialect);
    var text, first := "", true;
    ghost var values: seq<string> := [];
    NothingWritten();
    text, first, values := Append(text, first, f.text, values);
    assert values == if f.text == "" then [] else [f.text];
    ghost var start, words := values, ExtensionWords(ctx.dialect, f.extensions);
    for i := 0 to |f.extensions|
      invariant Written(text, first, values) && values == start + words[..i]
    {
      assert words[..i + 1] == words[..i] + [words[i]];
      ExtensionWordAt(ctx.dialect, f.extensions, i);
      text, first, values := Append(text, first, prefix + f.extensions[i], values);
    }
    assert words[..|words|] == words;
    ghost var pin := if f.pinnedOnly then [prefix + "pin"] else [];
    if f.pinnedOnly {
      text, first, values := Append(text, first, prefix + "pin", values);
    }
    assert values == start + words + pin;
    text, first, values := AppendBound(ctx, text, first, "after:", f.modified.after, values);
    text, first, values := AppendBound(ctx, text, first, "before:", f.modified.before, values);
    InOrder(start, words, pin, BoundWord(ctx, "after:", f.modified.after), BoundWord(ctx, "before:", f.modified.before));
    assert values == start + FilterWords(ctx, f);
    WrittenIsJoin(text, first, values);
    query := text;
  }

  lemma InOrder(a: seq<string>, b: seq<string>, c: seq<string>, d: seq<string>, e: seq<string>)
    ensures a + b + c + d + e == a + (b + c + d + e)
  {
  }

  method AppendBound(ctx: Context, text: string, first: bool, name: string, bound: Option<int>, ghost values: seq<string>)
    returns (text': string, first': bool, ghost values': seq<string>)
    requires Written(text, first, values)
    ensures Written(text', first', values') && values' == values + BoundWord(ctx, name, bound)
  {
    hide Written, IsoLocalDay;
    text', first', values' := text, first, values;
    if bound.Some? {
      var day := IsoLocalDay(ctx.cal, bound.value);
      if day != "" {
        text', first', values' := Append(text, first, Prefix(ctx.dialect) + name + day, values);
      }
    }
  }

  lemma NothingWritten()
    ensures Written("", true, [])
  {
  }

  lemma WrittenIsJoin(text: string, first: bool, values: seq<string>)
    requires Written(text, first, values)
    ensures text == Join(values)
  {
  }
}
