/** What the words of a query mean, said of whole parsed queries: relative days, written
    days and months, and how words become scope, pin, text and extensions.
  */
module QueryMeaning {

  import opened Results
  import opened Text
  import opened SearchDialect
  import opened QueryFilter
  import opened QueryRoundTrip
  import opened Sequences

  // ----- Queries of one word -----

  const NO_BOUNDS := Bounds(None, None)

  /** A query that says nothing but when files were modified. */
  function Modified(bounds: Bounds): Filter {
    Filter("", [], [], bounds, false, FileScope)
  }

  lemma OneWordQuery(ctx: Context, now: int, w: string)
    requires CleanWord(w)
    ensures Parse(ctx, now, w) == FilterOf(Step(ctx, now, START, w), [])
  {
    hide Step, Classify, DetailTerms, IsWord, Words, Run;
    NothingRead();
    assert !HasSeparator(w) by {
      assert forall i: nat :: SeparatorAt(w, i) ==> i < |w|;
    }
    OneStage(w);
    assert Stages(w)[1..] == [] && Normalized(w, true) == w;
    assert w + "" == w;
    WordFirst(w, "");
    assert Words(w) == [w];
    RunOne(ctx, now, START, w);
    NoTerms(ctx, now);
  }

  lemma NothingRead()
    ensures Words("") == []
  {
  }

  lemma NoTerms(ctx: Context, now: int)
    ensures DetailTerms(ctx, now, []) == []
  {
  }

  lemma DateQuery(ctx: Context, now: int, w: string, body: string)
    requires CleanWord(w) && Classify(ctx, w) == DateToken(body)
    ensures Parse(ctx, now, w) == Modified(ApplyDate(ctx.cal, NO_BOUNDS, body, now))
  {
    hide Parse, Classify, ApplyDate;
    OneWordQuery(ctx, now, w);
  }

  /** A control word behind the prefix of its dialect. */
  lemma ControlQuery(ctx: Context, now: int, body: string)
    requires ValidControl(ctx.cal, body) && LowerAll(body) != "pin" && !IsCompactDate(ctx.cal, body)
    requires body != "" && body[0] != '/' && Lower(body[0]) != 'i'
    requires forall i | 0 <= i < |body| :: !IsSpace(body[i]) && body[i] != ';'
    ensures Parse(ctx, now, Prefix(ctx.dialect) + body) == Modified(ApplyDate(ctx.cal, NO_BOUNDS, body, now))
  {
    hide Parse, ApplyDate, ValidControl, IsCompactDate, LowerAll;
    var w := Prefix(ctx.dialect) + body;
    CompactCandidateOfPrefixed(ctx.dialect, body);
    assert LowerAll(w) != "/inside" by {
      assert w[1] == (if ctx.dialect.Windows? then body[0] else '/');
      assert LowerAll(w)[1] == Lower(w[1]) && "/inside"[1] == 'i';
    }
    assert w[|Prefix(ctx.dialect)|..] == body;
    assert Classify(ctx, w) == DateToken(body);
    NoSemicolon(w);
    DateQuery(ctx, now, w, body);
  }

  // ----- Relative ranges -----

  function WholeRange(range: Option<(int, int)>): Bounds {
    match range
    case None => NO_BOUNDS
    case Some((begin, end)) => Bounds(Some(begin), Some(end))
  }

  lemma RelativeLetters(v: string)
    requires IsRelative(v)
    ensures 4 <= |v| <= 9 && |v| != 8 && v[0] != 'i' && v != "pin"
    ensures forall i | 0 <= i < |v| :: 'a' <= v[i] <= 'z'
  {
  }

  lemma KeywordChars(cal: Calendar, body: string)
    requires IsRelative(LowerAll(body))
    ensures body != "" && body[0] != '/' && Lower(body[0]) != 'i' && !IsCompactDate(cal, body)
    ensures forall i | 0 <= i < |body| :: !IsSpace(body[i]) && body[i] != ';'
    ensures LowerAll(body) != "pin"
  {
    hide LowerAll, IsRelative, IsCompactDate;
    var v := LowerAll(body);
    RelativeLetters(v);
    assert v[0] == Lower(body[0]);
    LengthIsNotCompact(cal, body);
    forall i | 0 <= i < |body|
      ensures !IsSpace(body[i]) && body[i] != ';'
    {
      assert 'a' <= v[i] <= 'z' && v[i] == Lower(body[i]);
    }
  }

  /** In both dialects and in any case: today and yesterday are whole local days, and week,
      month and year the 7, 30 and 365 days up to now. */
  lemma RelativeQueries(ctx: Context, now: int, body: string)
    requires IsRelative(LowerAll(body))
    ensures var v := LowerAll(body);
            Parse(ctx, now, Prefix(ctx.dialect) + body) == Modified(
              if v == "today" then WholeRange(ctx.cal.dayRange(now, 0))
              else if v == "yesterday" then WholeRange(ctx.cal.dayRange(now, -1))
              else if v == "week" then Bounds(Some(now - 604800), Some(now + 1))
              else if v == "month" then Bounds(Some(now - 2592000), Some(now + 1))
              else Bounds(Some(now - 31536000), Some(now + 1)))
  {
    hide Parse, LowerAll;
    KeywordChars(ctx.cal, body);
    ControlQuery(ctx, now, body);
  }

  // ----- Written days -----

  function Digit(c: char): int {
    c as int - '0' as int
  }

  predicate DigitsIn(s: string, a: nat, b: nat) {
    b <= |s| && forall i | a <= i < b :: IsDigit(s[i])
  }

  /** `s` is the date, written yyyy-mm-dd. */
  predicate WrittenDay(s: string, d: Date) {
    && |s| == 10 && s[4] == '-' && s[7] == '-' && DigitsIn(s, 0, 4) && DigitsIn(s, 5, 7) && DigitsIn(s, 8, 10)
    && d.year == 1000 * Digit(s[0]) + 100 * Digit(s[1]) + 10 * Digit(s[2]) + Digit(s[3])
    && d.month == 10 * Digit(s[5]) + Digit(s[6]) && d.day == 10 * Digit(s[8]) + Digit(s[9])
  }

  /** `s` is the date, written yyyymmdd, or mmddyyyy. */
  predicate WrittenCompactly(s: string, d: Date, monthFirst: bool) {
    && |s| == 8 && DigitsIn(s, 0, 8)
    && var y := if monthFirst then 4 else 0;
       var m := if monthFirst then 0 else 4;
       && d.year == 1000 * Digit(s[y]) + 100 * Digit(s[y + 1]) + 10 * Digit(s[y + 2]) + Digit(s[y + 3])
       && d.month == 10 * Digit(s[m]) + Digit(s[m + 1]) && d.day == 10 * Digit(s[m + 2]) + Digit(s[m + 3])
  }

  /** The date is one of the years 1970 to 9999, and it and `t` are converted into each other. */
  predicate Converts(cal: Calendar, d: Date, t: int) {
    && 1970 <= d.year <= 9999 && 1 <= d.month <= 12 && 1 <= d.day <= 31
    && cal.makeTime(d) == Some(t) && cal.localDay(t) == Some(d)
  }

  function EndOfDay(cal: Calendar, t: int): int {
    match cal.dayRange(t, 0)
    case None => t + 86400
    case Some((_, end)) => end
  }

  function StartOfNextDay(cal: Calendar, t: int): int {
    match cal.dayRange(t, 1)
    case None => t + 86400
    case Some((begin, _)) => begin
  }

  lemma NumberOfTwo(s: string)
    requires |s| == 2 && AllDigits(s)
    ensures Number(s) == 10 * Digit(s[0]) + Digit(s[1])
  {
    assert s[0] in s && s[1] in s;
    assert s[..1] == [s[0]] && s[..1][..0] == "";
    assert Number(s[..1]) == Digit(s[0]);
  }

  lemma NumberOfFour(s: string)
    requires |s| == 4 && AllDigits(s)
    ensures Number(s) == 1000 * Digit(s[0]) + 100 * Digit(s[1]) + 10 * Digit(s[2]) + Digit(s[3])
  {
    assert s[2] in s && s[3] in s && forall c | c in s[..2] :: c in s;
    NumberOfTwo(s[..2]);
    assert s[..3][..2] == s[..2];
    assert Number(s[..3]) == 10 * Number(s[..2]) + Digit(s[2]);
  }

  lemma SliceDigits(s: string, a: nat, b: nat)
    requires a < b && DigitsIn(s, a, b)
    ensures AllDigits(s[a..b])
  {
  }

  lemma IsoDayOfWritten(cal: Calendar, s: string, d: Date)
    requires WrittenDay(s, d)
    ensures IsoDay(cal, s) == EpochOf(cal, d)
  {
    hide EpochOf, Number, AllDigits;
    SliceDigits(s, 0, 4);
    SliceDigits(s, 5, 7);
    SliceDigits(s, 8, 10);
    NumberOfFour(s[0..4]);
    NumberOfTwo(s[5..7]);
    NumberOfTwo(s[8..10]);
  }

  lemma CompactOfWritten(cal: Calendar, s: string, d: Date, monthFirst: bool)
    requires WrittenCompactly(s, d, monthFirst)
    ensures CompactDay(cal, s, monthFirst) == EpochOf(cal, d)
  {
    hide EpochOf, Number;
    SliceDigits(s, 0, 8);
    assert s[0..8] == s;
    var y, m := if monthFirst then 4 else 0, if monthFirst then 0 else 4;
    SliceDigits(s, y, y + 4);
    SliceDigits(s, m, m + 2);
    SliceDigits(s, m + 2, m + 4);
    NumberOfFour(s[y..y + 4]);
    NumberOfTwo(s[m..m + 2]);
    NumberOfTwo(s[m + 2..m + 4]);
  }

  /** A month and a day are too small for a year: the other order is never taken. */
  lemma MonthFirstIsNoYear(cal: Calendar, s: string, d: Date)
    requires WrittenCompactly(s, d, true) && 1 <= d.month <= 12 && 1 <= d.day <= 31
    ensures CompactDay(cal, s, false) == None
  {
    var y := 1000 * Digit(s[0]) + 100 * Digit(s[1]) + 10 * Digit(s[2]) + Digit(s[3]);
    var e := Date(y, 10 * Digit(s[4]) + Digit(s[5]), 10 * Digit(s[6]) + Digit(s[7]));
    CompactOfWritten(cal, s, e, false);
  }

  lemma DayChars(s: string, d: Date)
    requires WrittenDay(s, d)
    ensures LowerAll(s) == s && (forall i | 0 <= i < |s| :: IsDigit(s[i]) || s[i] == '-')
  {
    assert forall i | 0 <= i < |s| :: IsDigit(s[i]) || s[i] == '-';
    LowerFixed(s);
  }

  lemma LowerBehind(name: string, s: string)
    requires LowerAll(name) == name && LowerAll(s) == s
    ensures LowerAll(name + s) == name + s
  {
    LowerConcat(name, s);
  }

  /** A written day, alone or behind `date:`, is that whole day; behind `after:` and
      `before:` it is the one bound. */
  lemma DayQueries(ctx: Context, now: int, s: string, d: Date, t: int)
    requires WrittenDay(s, d) && Converts(ctx.cal, d, t)
    ensures var p, day := Prefix(ctx.dialect), Modified(Bounds(Some(t), Some(EndOfDay(ctx.cal, t))));
            && Parse(ctx, now, p + s) == day
            && Parse(ctx, now, p + ("date:" + s)) == day
            && Parse(ctx, now, p + ("after:" + s)) == Modified(Bounds(Some(t), None))
            && Parse(ctx, now, p + ("before:" + s)) == Modified(Bounds(None, Some(t)))
  {
    hide Parse, ApplyDate, ValidControl, LowerAll, IsCompactDate, EndOfDay, Converts;
    DayChars(s, d);
    ConvertsMeans(ctx.cal, d, t);
    IsoDayOfWritten(ctx.cal, s, d);
    DayAlone(ctx.cal, s, d, t, now);
    DateBehind(ctx.cal, s, t, now);
    AfterBehind(ctx.cal, s, t, now);
    BeforeBehind(ctx.cal, s, t, now);
    LowerFixed("date:");
    LowerFixed("after:");
    LowerFixed("before:");
    LowerBehind("date:", s);
    LowerBehind("after:", s);
    LowerBehind("before:", s);
    LengthIsNotCompact(ctx.cal, s);
    LengthIsNotCompact(ctx.cal, "date:" + s);
    LengthIsNotCompact(ctx.cal, "after:" + s);
    BehindIsNotCompact(ctx.cal, s, d);
    ControlQuery(ctx, now, s);
    ControlQuery(ctx, now, "date:" + s);
    ControlQuery(ctx, now, "after:" + s);
    ControlQuery(ctx, now, "before:" + s);
  }

  lemma ConvertsMeans(cal: Calendar, d: Date, t: int)
    requires Converts(cal, d, t)
    ensures EpochOf(cal, d) == Some(t)
  {
  }

  lemma DayAlone(cal: Calendar, s: string, d: Date, t: int, now: int)
    requires WrittenDay(s, d) && LowerAll(s) == s && IsoDay(cal, s) == Some(t)
    ensures ValidControl(cal, s) && ApplyDate(cal, NO_BOUNDS, s, now) == Bounds(Some(t), Some(EndOfDay(cal, t)))
  {
    hide LowerAll, IsoDay;
    assert IsDigit(s[0]);
    LengthIsNotCompact(cal, s);
  }

  lemma BehindIsNotCompact(cal: Calendar, s: string, d: Date)
    requires WrittenDay(s, d)
    ensures !IsCompactDate(cal, "before:" + s)
  {
    assert ("before:" + s)[8] == s[1] && IsDigit(s[1]);
  }

  lemma DateBehind(cal: Calendar, s: string, t: int, now: int)
    requires LowerAll("date:" + s) == "date:" + s && IsoDay(cal, s) == Some(t)
    ensures var w := "date:" + s; ValidControl(cal, w) && ApplyDate(cal, NO_BOUNDS, w, now) == Bounds(Some(t), Some(EndOfDay(cal, t)))
  {
    hide LowerAll, IsoDay, CompactRange, CompactDayRange, IsoMonth;
    assert ("date:" + s)[5..] == s && ("date:" + s)[0] == 'd' && ("date:" + s)[4] == ':';
  }

  lemma AfterBehind(cal: Calendar, s: string, t: int, now: int)
    requires LowerAll("after:" + s) == "after:" + s && IsoDay(cal, s) == Some(t)
    ensures var w := "after:" + s; ValidControl(cal, w) && ApplyDate(cal, NO_BOUNDS, w, now) == Bounds(Some(t), None)
  {
    hide LowerAll, IsoDay, CompactRange, CompactDayRange, IsoMonth;
    assert ("after:" + s)[6..] == s && ("after:" + s)[0] == 'a' && ("after:" + s)[5] == ':';
  }

  lemma BeforeBehind(cal: Calendar, s: string, t: int, now: int)
    requires LowerAll("before:" + s) == "before:" + s && IsoDay(cal, s) == Some(t)
    ensures var w := "before:" + s; ValidControl(cal, w) && ApplyDate(cal, NO_BOUNDS, w, now) == Bounds(None, Some(t))
  {
    hide LowerAll, IsoDay, CompactRange, CompactDayRange, IsoMonth;
    assert ("before:" + s)[7..] == s && ("before:" + s)[0] == 'b' && ("before:" + s)[6] == ':';
  }

  // ----- Written months -----

  /** `s` is the month, written yyyy-mm. */
  predicate WrittenMonth(s: string, year: int, month: int) {
    && |s| == 7 && s[4] == '-' && DigitsIn(s, 0, 4) && DigitsIn(s, 5, 7)
    && year == 1000 * Digit(s[0]) + 100 * Digit(s[1]) + 10 * Digit(s[2]) + Digit(s[3])
    && month == 10 * Digit(s[5]) + Digit(s[6])
  }

  /** A written month lasts from its first day to the first day of the next one. */
  lemma MonthQuery(ctx: Context, now: int, s: string, year: int, month: int, t: int, next: int)
    requires WrittenMonth(s, year, month) && Converts(ctx.cal, Date(year, month, 1), t)
    requires Converts(ctx.cal, if month == 12 then Date(year + 1, 1, 1) else Date(year, month + 1, 1), next)
    ensures Parse(ctx, now, Prefix(ctx.dialect) + s) == Modified(Bounds(Some(t), Some(next)))
  {
    hide Parse, LowerAll, Number, AllDigits;
    assert forall i | 0 <= i < |s| :: IsDigit(s[i]) || s[i] == '-';
    LowerFixed(s);
    SliceDigits(s, 0, 4);
    SliceDigits(s, 5, 7);
    NumberOfFour(s[0..4]);
    NumberOfTwo(s[5..7]);
    assert IsoMonth(ctx.cal, s) == Some((t, next));
    LengthIsNotCompact(ctx.cal, s);
    assert IsDigit(s[0]);
    ControlQuery(ctx, now, s);
  }

  // ----- Compact days -----

  predicate Slashes(s: string) {
    s == "" || s == "/" || s == "//"
  }

  lemma CompactWord(ctx: Context, now: int, slashes: string, s: string)
    requires Slashes(slashes) && IsCompactDate(ctx.cal, s) && (|s| == 8 || |s| == 17) && IsDigit(s[0])
    requires forall i | 0 <= i < |s| :: IsDigit(s[i]) || s[i] == '-' || s[i] == '~'
    ensures Parse(ctx, now, slashes + s) == Modified(ApplyDate(ctx.cal, NO_BOUNDS, s, now))
  {
    hide Parse, ApplyDate, IsCompactDate, LowerAll;
    var w := slashes + s;
    assert CompactCandidate(w) == s by {
      assert w[|slashes|] == s[0] && w[|slashes|..] == s;
    }
    assert |LowerAll(w)| == |w| >= 8;
    assert Classify(ctx, w) == DateToken(s);
    NoSemicolon(w);
    DateQuery(ctx, now, w, s);
  }

  lemma CompactApplied(cal: Calendar, s: string, now: int)
    requires (|s| == 8 || |s| == 17) && IsDigit(s[0]) && LowerAll(s) == s
    ensures CompactRange(cal, s).Some? ==> ApplyDate(cal, NO_BOUNDS, s, now) == WholeRange(CompactRange(cal, s))
    ensures CompactRange(cal, s).None? && CompactDayRange(cal, s).Some? ==>
              ApplyDate(cal, NO_BOUNDS, s, now) == WholeRange(CompactDayRange(cal, s))
  {
    hide LowerAll, CompactRange, CompactDayRange, IsoDay, IsoMonth;
  }

  /** A compact day, with any number of slashes up to two, is that whole day. */
  lemma CompactDayQuery(ctx: Context, now: int, slashes: string, s: string, monthFirst: bool, d: Date, t: int)
    requires Slashes(slashes) && WrittenCompactly(s, d, monthFirst) && Converts(ctx.cal, d, t)
    ensures Parse(ctx, now, slashes + s) == Modified(Bounds(Some(t), Some(EndOfDay(ctx.cal, t))))
  {
    hide Parse, ApplyDate, LowerAll, CompactDay;
    assert IsDigit(s[0]) && forall i | 0 <= i < |s| :: IsDigit(s[i]);
    LowerFixed(s);
    CompactOfWritten(ctx.cal, s, d, monthFirst);
    if monthFirst {
      MonthFirstIsNoYear(ctx.cal, s, d);
    }
    assert CompactDayRange(ctx.cal, s) == Some((t, EndOfDay(ctx.cal, t)));
    CompactApplied(ctx.cal, s, now);
    CompactWord(ctx, now, slashes, s);
  }

  /** A compact range lasts from its first day to the start of the day after its last. */
  lemma CompactRangeQuery(ctx: Context, now: int, slashes: string, a: string, sep: char, b: string, monthFirst: bool,
      d: Date, t: int, e: Date, u: int)
    requires Slashes(slashes) && (sep == '-' || sep == '~') && t <= u
    requires WrittenCompactly(a, d, monthFirst) && Converts(ctx.cal, d, t)
    requires WrittenCompactly(b, e, monthFirst) && Converts(ctx.cal, e, u)
    ensures Parse(ctx, now, slashes + (a + [sep] + b)) == Modified(Bounds(Some(t), Some(StartOfNextDay(ctx.cal, u))))
  {
    hide Parse, ApplyDate, LowerAll, CompactDay;
    var s := a + [sep] + b;
    assert s[0..8] == a && s[9..17] == b && s[8] == sep && s[0] == a[0] && IsDigit(a[0]);
    assert forall i | 0 <= i < |s| :: IsDigit(s[i]) || s[i] == '-' || s[i] == '~' by {
      assert forall i | 0 <= i < |s| :: s[i] == if i < 8 then a[i] else if i == 8 then sep else b[i - 9];
    }
    LowerFixed(s);
    CompactOfWritten(ctx.cal, a, d, monthFirst);
    CompactOfWritten(ctx.cal, b, e, monthFirst);
    if monthFirst {
      MonthFirstIsNoYear(ctx.cal, a, d);
    }
    assert CompactRange(ctx.cal, s) == Some((t, StartOfNextDay(ctx.cal, u)));
    CompactApplied(ctx.cal, s, now);
    CompactWord(ctx, now, slashes, s);
  }

  // ----- Scope, pin, text and extensions -----

  ghost predicate Spells(w: string, lower: string) {
    LowerAll(w) == lower
  }

  lemma InsideIff(ctx: Context, w: string)
    ensures Classify(ctx, w) == Inside <==> Spells(w, "/inside")
  {
    hide IsCompactDate, ValidControl, LooksExtension, LowerAll;
  }

  lemma PinIff(ctx: Context, w: string)
    ensures Classify(ctx, w) == Pin <==> Spells(w, if ctx.dialect.Windows? then "/pin" else "//pin")
  {
    hide IsCompactDate, ValidControl, LooksExtension, LowerAll;
    var p := Prefix(ctx.dialect);
    if p <= w {
      var body := w[|p|..];
      assert w == p + body;
      LowerConcat(p, body);
      LowerFixed(p);
      assert LowerAll(w)[..|p|] == p && LowerAll(w)[|p|..] == LowerAll(body);
    }
    if Spells(w, p + "pin") {
      assert forall i | 0 <= i < |w| :: LowerAll(w)[i] == Lower(w[i]);
      assert w[..|p|] == p;
      ShortIsNotCompact(ctx.cal, w);
    }
  }

  lemma ShortIsNotCompact(cal: Calendar, w: string)
    requires |w| < 8
    ensures !IsCompactDate(cal, CompactCandidate(w))
  {
    LengthIsNotCompact(cal, CompactCandidate(w));
  }

  lemma ExtensionMeans(ctx: Context, w: string)
    ensures Classify(ctx, w).Extension? ==>
              var e := Classify(ctx, w).name; Spells(w, Prefix(ctx.dialect) + e) && e in ctx.registered && LooksExtension(e)
  {
    hide IsCompactDate, ValidControl, LowerAll, LooksExtension;
    var p := Prefix(ctx.dialect);
    if Classify(ctx, w).Extension? {
      var body := w[|p|..];
      assert w == p + body;
      LowerConcat(p, body);
      LowerFixed(p);
      LooksExtensionAgain(body);
    }
  }

  /** What a run of words makes of them. */
  ghost predicate Collected(ctx: Context, words: seq<string>, s: State, at: seq<nat>) {
    && (s.scope == ContentScope <==> exists w :: w in words && Spells(w, "/inside"))
    && (s.pinned <==> exists w :: w in words && Spells(w, if ctx.dialect.Windows? then "/pin" else "//pin"))
    && (forall e :: e in s.extensions <==> exists w :: w in words && Classify(ctx, w) == Extension(e))
    && Picked(words, s.parts, at)
    && (forall i: nat | i < |words| :: i in at <==> Classify(ctx, words[i]) == PlainText)
  }

  lemma {:induction false} RunCollects(ctx: Context, now: int, words: seq<string>) returns (at: seq<nat>)
    ensures Collected(ctx, words, Run(ctx, now, START, words), at)
  {
    hide Classify, ApplyDate, Spells, Collected;
    if words == [] {
      at := [];
      NothingCollected(ctx);
    } else {
      var front, last := words[..|words| - 1], words[|words| - 1];
      var before := RunCollects(ctx, now, front);
      var s := Run(ctx, now, START, front);
      assert words == front + [last];
      at := if Classify(ctx, last) == PlainText then before + [|front|] else before;
      OneMoreCollected(ctx, now, front, last, s, before);
    }
  }

  lemma NothingCollected(ctx: Context)
    ensures Collected(ctx, [], START, [])
  {
  }

  lemma OneMoreCollected(ctx: Context, now: int, words: seq<string>, w: string, s: State, at: seq<nat>)
    requires Collected(ctx, words, s, at)
    ensures Collected(ctx, words + [w], Step(ctx, now, s, w), if Classify(ctx, w) == PlainText then at + [|words|] else at)
  {
    hide Classify, ApplyDate, Spells, Picked;
    InsideIff(ctx, w);
    PinIff(ctx, w);
    var all, t, plain := words + [w], Step(ctx, now, s, w), Classify(ctx, w) == PlainText;
    PickedStep(words, s.parts, at, w, plain);
    assert all[|words|] == w && w in all && forall v :: v in all <==> v in words || v == w;
    forall i: nat | i < |all|
      ensures i in (if plain then at + [|words|] else at) <==> Classify(ctx, all[i]) == PlainText
    {
      assert i < |words| ==> all[i] == words[i];
    }
    StepExtensions(ctx, now, words, w, s);
  }

  lemma StepExtensions(ctx: Context, now: int, words: seq<string>, w: string, s: State)
    requires forall e :: e in s.extensions <==> exists v :: v in words && Classify(ctx, v) == Extension(e)
    ensures forall e :: e in Step(ctx, now, s, w).extensions <==> exists v :: v in words + [w] && Classify(ctx, v) == Extension(e)
  {
    hide Classify, ApplyDate;
    var all, t := words + [w], Step(ctx, now, s, w);
    assert w in all && forall v :: v in all <==> v in words || v == w;
    forall e
      ensures e in t.extensions <==> exists v :: v in all && Classify(ctx, v) == Extension(e)
    {
      if v :| v in all && Classify(ctx, v) == Extension(e) {
        assert v in words || v == w;
      }
    }
  }

  /** A query looks inside files exactly when some word is /inside, is pinned exactly when
      some word is the pin of its dialect, has exactly the extensions its words name, each
      of them registered and written behind the prefix, and its text is the other words
      that mean nothing, in order. */
  lemma QueryMeans(ctx: Context, now: int, query: string) returns (parts: seq<string>, at: seq<nat>)
    ensures var f, words := Parse(ctx, now, query), Words(Normalized(query, true));
            && f.text == Join(parts)
            && Picked(words, parts, at)
            && (forall i: nat | i < |words| :: i in at <==> Classify(ctx, words[i]) == PlainText)
            && (f.scope == ContentScope <==> exists w :: w in words && Spells(w, "/inside"))
            && (f.pinnedOnly <==> exists w :: w in words && Spells(w, if ctx.dialect.Windows? then "/pin" else "//pin"))
            && (forall e :: e in f.extensions <==> exists w :: w in words && Classify(ctx, w) == Extension(e))
            && forall e | e in f.extensions ::
                 e in ctx.registered && LooksExtension(e) && exists w :: w in words && Spells(w, Prefix(ctx.dialect) + e)
  {
    hide Classify, Spells, Run, Words, Normalized, LooksExtension, DetailTerms;
    var words := Words(Normalized(query, true));
    var s := Run(ctx, now, START, words);
    at := RunCollects(ctx, now, words);
    parts := s.parts;
    forall e | e in s.extensions
      ensures e in ctx.registered && LooksExtension(e) && exists w :: w in words && Spells(w, Prefix(ctx.dialect) + e)
    {
      var w :| w in words && Classify(ctx, w) == Extension(e);
      ExtensionMeans(ctx, w);
    }
  }

  /** A registered extension behind the prefix is a wish for it, unless it is a control
      word, a pin or a compact date. */
  lemma ExtensionQuery(ctx: Context, now: int, body: string)
    requires LooksExtension(body) && LowerAll(body) in ctx.registered && LowerAll(body) != "pin" && LowerAll(body) != "inside"
    requires !ValidControl(ctx.cal, body) && !IsCompactDate(ctx.cal, body)
    ensures Parse(ctx, now, Prefix(ctx.dialect) + body) == Filter("", [LowerAll(body)], [], NO_BOUNDS, false, FileScope)
  {
    hide Parse, ValidControl, IsCompactDate, LowerAll;
    var p := Prefix(ctx.dialect);
    var w := p + body;
    assert forall i | 0 <= i < |body| :: ExtensionChar(body[i]);
    CompactCandidateOfPrefixed(ctx.dialect, body);
    LowerConcat(p, body);
    LowerFixed(p);
    assert w[|p|..] == body;
    assert LowerAll(w) != "/inside" by {
      assert LowerAll(w)[|p|..] == LowerAll(body);
      assert "/inside"[1..] == "inside" && "/inside"[1] == 'i';
    }
    assert Classify(ctx, w) == Extension(LowerAll(body));
    NoSemicolon(w);
    OneWordQuery(ctx, now, w);
    assert [] + [LowerAll(body)] == [LowerAll(body)];
  }

  // ----- Several dates -----

  /** What one word says about the time. */
  function BoundsOfWord(ctx: Context, now: int, w: string): Bounds {
    Step(ctx, now, START, w).modified
  }

  /** It is what a query of that word alone asks for. */
  lemma BoundsOfWordQuery(ctx: Context, now: int, w: string)
    requires CleanWord(w)
    ensures BoundsOfWord(ctx, now, w) == Parse(ctx, now, w).modified
  {
    hide Step, Parse;
    OneWordQuery(ctx, now, w);
  }

  ghost predicate LastAfter(bounds: seq<Bounds>, i: nat, t: int) {
    i < |bounds| && bounds[i].after == Some(t) && forall j | i < j < |bounds| :: bounds[j].after == None
  }

  ghost predicate LastBefore(bounds: seq<Bounds>, i: nat, t: int) {
    i < |bounds| && bounds[i].before == Some(t) && forall j | i < j < |bounds| :: bounds[j].before == None
  }

  /** Each bound is the one that was given last. */
  ghost predicate LastGiven(bounds: seq<Bounds>, b: Bounds) {
    && (forall t :: b.after == Some(t) <==> exists i: nat :: LastAfter(bounds, i, t))
    && (forall t :: b.before == Some(t) <==> exists i: nat :: LastBefore(bounds, i, t))
  }

  lemma LastGivenStep(bounds: seq<Bounds>, b: Bounds, x: Bounds)
    requires LastGiven(bounds, b)
    ensures LastGiven(bounds + [x], Bounds(if x.after.Some? then x.after else b.after, if x.before.Some? then x.before else b.before))
  {
    var all, n := bounds + [x], |bounds|;
    forall i: nat, t
      ensures LastAfter(all, i, t) <==> (i == n && x.after == Some(t)) || (x.after == None && LastAfter(bounds, i, t))
      ensures LastBefore(all, i, t) <==> (i == n && x.before == Some(t)) || (x.before == None && LastBefore(bounds, i, t))
    {
      assert all[n] == x && forall j | 0 <= j < n :: all[j] == bounds[j];
    }
    assert forall t :: x.after == Some(t) ==> LastAfter(all, n, t);
    assert forall t :: x.before == Some(t) ==> LastBefore(all, n, t);
  }

  lemma DateOverrides(cal: Calendar, b: Bounds, body: string, now: int)
    ensures var x := ApplyDate(cal, NO_BOUNDS, body, now);
            ApplyDate(cal, b, body, now) == Bounds(if x.after.Some? then x.after else b.after, if x.before.Some? then x.before else b.before)
  {
    hide LowerAll, IsoDay, IsoMonth, CompactRange, CompactDayRange;
  }

  function BoundsOfWords(ctx: Context, now: int, words: seq<string>): seq<Bounds> {
    seq(|words|, i requires 0 <= i < |words| => BoundsOfWord(ctx, now, words[i]))
  }

  lemma {:induction false} LastGivenOfRun(ctx: Context, now: int, words: seq<string>)
    ensures LastGiven(BoundsOfWords(ctx, now, words), Run(ctx, now, START, words).modified)
  {
    hide Classify, ApplyDate;
    if words != [] {
      var front, w := words[..|words| - 1], words[|words| - 1];
      LastGivenOfRun(ctx, now, front);
      var b := Run(ctx, now, START, front).modified;
      LastGivenStep(BoundsOfWords(ctx, now, front), b, BoundsOfWord(ctx, now, w));
      assert BoundsOfWords(ctx, now, front) + [BoundsOfWord(ctx, now, w)] == BoundsOfWords(ctx, now, words);
      if Classify(ctx, w).DateToken? {
        DateOverrides(ctx.cal, b, Classify(ctx, w).body, now);
      }
    }
  }

  /** Of several dates in a query, each bound is the last one given, whatever stands around it. */
  lemma LastDateCounts(ctx: Context, now: int, query: string)
    ensures LastGiven(BoundsOfWords(ctx, now, Words(Normalized(query, true))), Parse(ctx, now, query).modified)
  {
    hide Words, Normalized, LastGiven, BoundsOfWords, Run, DetailTerms;
    LastGivenOfRun(ctx, now, Words(Normalized(query, true)));
  }

  // ----- Refinements -----

  /** The terms of a query are the texts of its refinements, each parsed alone, without the
      empty ones and in order. */
  lemma {:induction false} TermsAreTexts(ctx: Context, now: int, refinements: seq<string>) returns (texts: seq<string>, at: seq<nat>)
    ensures |texts| == |refinements|
    ensures forall i | 0 <= i < |texts| :: texts[i] == ParseImpl(ctx, now, refinements[i], false).text
    ensures Picked(texts, DetailTerms(ctx, now, refinements), at)
    ensures forall i: nat | i < |texts| :: i in at <==> texts[i] != ""
  {
    hide ParseImpl, StageText, DetailTerms, Picked;
    if refinements == [] {
      texts, at := [], [];
      NoTerms(ctx, now);
      NothingPicked<string>();
    } else {
      var front, last := refinements[..|refinements| - 1], refinements[|refinements| - 1];
      var before, positions := TermsAreTexts(ctx, now, front);
      var text, terms := StageText(ctx, now, last), DetailTerms(ctx, now, front);
      StageTextIsParsed(ctx, now, last);
      TermsStep(ctx, now, refinements);
      assert terms + [] == terms;
      PickedStep(before, terms, positions, text, text != "");
      texts, at := before + [text], if text != "" then positions + [|before|] else positions;
      forall i: nat | i < |texts|
        ensures i in at <==> texts[i] != ""
      {
        assert i < |before| ==> texts[i] == before[i];
      }
    }
  }

  lemma TermsStep(ctx: Context, now: int, refinements: seq<string>)
    requires refinements != []
    ensures var text := StageText(ctx, now, refinements[|refinements| - 1]);
            DetailTerms(ctx, now, refinements)
            == DetailTerms(ctx, now, refinements[..|refinements| - 1]) + if text != "" then [text] else []
  {
    hide StageText;
  }

  lemma StageTextIsParsed(ctx: Context, now: int, stage: string)
    ensures StageText(ctx, now, stage) == ParseImpl(ctx, now, stage, false).text
  {
    hide Run, Words;
  }
}
