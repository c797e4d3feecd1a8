/** When a parsed filter survives being compiled and parsed again. */
module QueryRoundTrip {

  import opened Results
  import opened Text
  import opened SearchDialect
  import opened QueryFilter

  // ----- What a parsed filter consists of -----

  predicate NoSeparator(s: string) {
    forall i | 0 <= i < |s| :: !SeparatorAt(s, i)
  }

  ghost predicate TextWord(ctx: Context, w: string) {
    IsWord(w) && NoSeparator(w) && Classify(ctx, w) == PlainText
  }

  ghost predicate ExtensionName(ctx: Context, e: string) {
    LooksExtension(e) && Classify(ctx, Prefix(ctx.dialect) + e) == Extension(e)
  }

  ghost predicate Distinct(s: seq<string>) {
    forall i, j | 0 <= i < j < |s| :: s[i] != s[j]
  }

  ghost predicate GoodState(ctx: Context, s: State) {
    && (forall w | w in s.parts :: TextWord(ctx, w))
    && (forall e | e in s.extensions :: ExtensionName(ctx, e))
    && Distinct(s.extensions)
  }

  lemma CompactCandidateOfPrefixed(dialect: Dialect, body: string)
    requires body != "" && body[0] != '/'
    ensures CompactCandidate(Prefix(dialect) + body) == body
  {
    var w := Prefix(dialect) + body;
    if dialect.Windows? {
      assert w[1] == body[0];
      assert w[1..] == body;
    } else {
      assert w[2..] == body && w[..2] == "//";
    }
  }

  lemma ShortIsCompactDay(cal: Calendar, s: string)
    requires |s| != 17
    ensures IsCompactDate(cal, s) ==> AllDigits(s)
  {
  }

  lemma ExtensionCharLower(c: char)
    requires ExtensionChar(c)
    ensures ExtensionChar(Lower(c)) && Lower(c) != '/' && Lower(Lower(c)) == Lower(c)
  {
  }

  /** The lower-case name of a recognised extension is recognised again. */
  lemma ExtensionAgain(ctx: Context, word: string, e: string)
    requires Classify(ctx, word) == Extension(e)
    ensures ExtensionName(ctx, e)
  {
    hide ValidControl, IsCompactDate, LowerAll, CompactCandidate, LooksExtension;
    var prefix := Prefix(ctx.dialect);
    var body := word[|prefix|..];
    assert word == prefix + body && e == LowerAll(body);
    LooksExtensionAgain(body);
    LowerAgain(body);
    LowerConcat(prefix, body);
    LowerConcat(prefix, e);
    CompactCandidateOfPrefixed(ctx.dialect, body);
    CompactCandidateOfPrefixed(ctx.dialect, e);
    CompactAgain(ctx.cal, body);
    ControlAgain(ctx.cal, body);
    assert (prefix + e)[|prefix|..] == e;
  }

  lemma LooksExtensionAgain(body: string)
    requires LooksExtension(body)
    ensures LooksExtension(LowerAll(body))
    ensures 0 < |body| <= 16 && body[0] != '/' && LowerAll(body)[0] != '/'
  {
    hide LowerAll;
    assert ExtensionChar(body[0]);
    ExtensionCharLower(body[0]);
    var e := LowerAll(body);
    forall i | 0 <= i < |e|
      ensures ExtensionChar(e[i])
    {
      ExtensionCharLower(body[i]);
    }
  }

  lemma CompactAgain(cal: Calendar, body: string)
    requires |body| <= 16
    ensures IsCompactDate(cal, LowerAll(body)) ==> IsCompactDate(cal, body)
  {
    if IsCompactDate(cal, LowerAll(body)) {
      ShortIsCompactDay(cal, LowerAll(body));
      LowerKeepsDigits(body);
    }
  }

  lemma ControlAgain(cal: Calendar, body: string)
    ensures ValidControl(cal, LowerAll(body)) == ValidControl(cal, body)
  {
    LowerAgain(body);
  }

  lemma {:induction false} RunIsGood(ctx: Context, now: int, words: seq<string>)
    requires forall w | w in words :: IsWord(w) && NoSeparator(w)
    ensures GoodState(ctx, Run(ctx, now, START, words))
  {
    hide Classify, ExtensionName;
    if words != [] {
      var front, word := words[..|words| - 1], words[|words| - 1];
      assert word in words && forall w | w in front :: w in words;
      RunIsGood(ctx, now, front);
      match Classify(ctx, word)
      case Extension(e) => ExtensionAgain(ctx, word, e);
      case _ =>
    }
  }

  // ----- No separator survives normalisation -----

  lemma {:induction false} WordsAreSlices(s: string)
    requires NoSeparator(s)
    ensures forall w | w in Words(s) :: NoSeparator(w)
    decreases |s|
  {
    if s != "" {
      if IsSpace(s[0]) {
        SuffixNoSeparator(s, 1);
        WordsAreSlices(s[1..]);
      } else {
        var n := WordLength(s);
        PrefixNoSeparator(s, n);
        SuffixNoSeparator(s, n);
        WordsAreSlices(s[n..]);
      }
    }
  }

  lemma SuffixNoSeparator(s: string, n: nat)
    requires n <= |s| && NoSeparator(s)
    ensures NoSeparator(s[n..])
  {
    assert forall i | 0 <= i < |s| - n :: SeparatorAt(s[n..], i) ==> SeparatorAt(s, n + i);
  }

  lemma PrefixNoSeparator(s: string, n: nat)
    requires n <= |s| && NoSeparator(s)
    ensures NoSeparator(s[..n])
  {
    assert forall i | 0 <= i < n :: SeparatorAt(s[..n], i) ==> SeparatorAt(s, i);
  }

  lemma SpacedNoSeparator(a: string, b: string)
    requires NoSeparator(a) && NoSeparator(b)
    ensures NoSeparator(a + " " + b)
  {
    var w := a + " " + b;
    forall i | 0 <= i < |w|
      ensures !SeparatorAt(w, i)
    {
      if i + 1 < |a| {
        assert SeparatorAt(w, i) <==> SeparatorAt(a, i);
      } else if i > |a| {
        assert SeparatorAt(w, i) <==> SeparatorAt(b, i - |a| - 1);
      }
    }
  }

  lemma {:induction false} FlattenNoSeparator(stages: seq<string>)
    requires forall s | s in stages :: NoSeparator(s)
    ensures NoSeparator(Flatten(stages))
  {
    if stages != [] {
      var front, last := stages[..|stages| - 1], stages[|stages| - 1];
      assert last in stages && forall s | s in front :: s in stages;
      FlattenNoSeparator(front);
      SpacedNoSeparator(Flatten(front), last);
      assert Flatten(front) + "" == Flatten(front) && "" + last == last;
    }
  }

  lemma {:induction false} JoinNoSeparator(words: seq<string>)
    requires forall w | w in words :: NoSeparator(w)
    ensures NoSeparator(Join(words))
  {
    if words != [] {
      assert words[0] in words && forall w | w in words[1..] :: w in words;
      JoinNoSeparator(words[1..]);
      if |words| > 1 {
        SpacedNoSeparator(words[0], Join(words[1..]));
      }
    }
  }

  lemma NormalizedNoSeparator(query: string)
    ensures NoSeparator(Normalized(query, true))
  {
    if |Stages(query)| > 1 {
      StagesAreStages(query, 0);
      FlattenNoSeparator(Stages(query));
    } else {
      var pos := FindSeparator(query, 0);
      assert pos == |query|;
    }
  }

  // ----- The words of a compiled filter -----

  /** The filter comes from the state a query leaves behind. */
  lemma ParsedState(ctx: Context, now: int, query: string) returns (s: State)
    ensures GoodState(ctx, s)
    ensures Parse(ctx, now, query) == FilterOf(s, DetailTerms(ctx, now, Stages(query)[1..]))
  {
    var text := Normalized(query, true);
    NormalizedNoSeparator(query);
    WordsAreSlices(text);
    RunIsGood(ctx, now, Words(text));
    s := Run(ctx, now, START, Words(text));
  }

  ghost predicate CleanWord(w: string) {
    IsWord(w) && NoSeparator(w)
  }

  lemma NoSemicolon(w: string)
    requires w != "" && forall i | 0 <= i < |w| :: !IsSpace(w[i]) && w[i] != ';'
    ensures CleanWord(w)
  {
  }

  lemma DigitsAndDashes(s: string)
    requires forall c | c in s :: IsDigit(c) || c == '-'
    ensures forall i | 0 <= i < |s| :: !IsSpace(s[i]) && s[i] != ';'
  {
    assert forall i | 0 <= i < |s| :: s[i] in s;
  }

  lemma DayTextChars(d: Date)
    ensures forall c | c in DayText(d) :: IsDigit(c) || c == '-'
  {
  }

  lemma BoundWordClean(ctx: Context, name: string, bound: Option<int>)
    requires name == "after:" || name == "before:"
    ensures forall w | w in BoundWord(ctx, name, bound) :: CleanWord(w)
  {
    if bound.Some? {
      var day := IsoLocalDay(ctx.cal, bound.value);
      if day != "" {
        DayTextChars(ctx.cal.localDay(bound.value).value);
        DigitsAndDashes(day);
        NoSemicolon(Prefix(ctx.dialect) + name + day);
      }
    }
  }

  lemma ExtensionWordClean(ctx: Context, e: string)
    requires LooksExtension(e)
    ensures CleanWord(Prefix(ctx.dialect) + e)
  {
    var w := Prefix(ctx.dialect) + e;
    forall i | 0 <= i < |w|
      ensures !IsSpace(w[i]) && w[i] != ';'
    {
      if i >= |Prefix(ctx.dialect)| {
        assert ExtensionChar(e[i - |Prefix(ctx.dialect)|]);
      }
    }
  }

  /** The words of a filter, its text taken apart again. */
  function AllWords(ctx: Context, s: State): seq<string> {
    s.parts + FilterWords(ctx, FilterOf(s, []))
  }

  lemma FilterWordsClean(ctx: Context, s: State)
    requires GoodState(ctx, s)
    ensures forall w | w in FilterWords(ctx, FilterOf(s, [])) :: CleanWord(w)
  {
    hide CleanWord, BoundWord;
    var f := FilterOf(s, []);
    BoundWordClean(ctx, "after:", f.modified.after);
    BoundWordClean(ctx, "before:", f.modified.before);
    NoSemicolon(Prefix(ctx.dialect) + "pin");
    forall w | w in ExtensionWords(ctx.dialect, s.extensions)
      ensures CleanWord(w)
    {
      var i :| 0 <= i < |s.extensions| && w == Prefix(ctx.dialect) + s.extensions[i];
      assert s.extensions[i] in s.extensions;
      ExtensionWordClean(ctx, s.extensions[i]);
    }
  }

  /** The text of a compiled filter is its words with single spaces. */
  lemma CompileIsJoin(ctx: Context, s: State, terms: seq<string>)
    requires GoodState(ctx, s)
    ensures Compile(ctx, FilterOf(s, terms)) == Join(AllWords(ctx, s))
  {
    hide FilterWords;
    var f := FilterOf(s, terms);
    var words := FilterWords(ctx, f);
    assert words == FilterWords(ctx, FilterOf(s, [])) by {
      SameFilterWords(ctx, f, FilterOf(s, []));
    }
    JoinIsEmpty(s.parts);
    JoinConcat(s.parts, words);
    JoinConcat([f.text], words);
    assert [] + words == words;
  }

  lemma SameFilterWords(ctx: Context, f: Filter, g: Filter)
    requires f.extensions == g.extensions && f.pinnedOnly == g.pinnedOnly && f.modified == g.modified
    ensures FilterWords(ctx, f) == FilterWords(ctx, g)
  {
  }

  /** Parsing a compiled filter runs over exactly those words. */
  lemma ParseOfCompiled(ctx: Context, now: int, s: State, terms: seq<string>)
    requires GoodState(ctx, s)
    ensures Parse(ctx, now, Compile(ctx, FilterOf(s, terms))) == FilterOf(Run(ctx, now, START, AllWords(ctx, s)), [])
  {
    hide FilterWords, Run, Classify;
    var words := AllWords(ctx, s);
    var query := Join(words);
    CompileIsJoin(ctx, s, terms);
    FilterWordsClean(ctx, s);
    assert forall w | w in words :: CleanWord(w);
    WordsOfJoin(words);
    JoinNoSeparator(words);
    assert !HasSeparator(query) by {
      assert forall i: nat :: SeparatorAt(query, i) ==> i < |query|;
    }
    OneStage(query);
  }

  // ----- Running over the words of a compiled filter -----

  lemma {:induction false} RunParts(ctx: Context, now: int, s: State, words: seq<string>)
    requires forall w | w in words :: Classify(ctx, w) == PlainText
    ensures Run(ctx, now, s, words) == s.(parts := s.parts + words)
  {
    hide Classify;
    if words == [] {
      assert s.parts + [] == s.parts;
    } else {
      var front, word := words[..|words| - 1], words[|words| - 1];
      assert word in words && forall w | w in front :: w in words;
      RunParts(ctx, now, s, front);
      assert s.parts + words == s.parts + front + [word];
    }
  }

  lemma {:induction false} RunExtensions(ctx: Context, now: int, s: State, names: seq<string>)
    requires s.extensions == [] && Distinct(names) && forall e | e in names :: ExtensionName(ctx, e)
    ensures Run(ctx, now, s, ExtensionWords(ctx.dialect, names)) == s.(extensions := names)
  {
    hide Classify, LooksExtension;
    var words := ExtensionWords(ctx.dialect, names);
    if names != [] {
      var front, name := names[..|names| - 1], names[|names| - 1];
      assert name in names && forall e | e in front :: e in names;
      RunExtensions(ctx, now, s, front);
      assert words[..|words| - 1] == ExtensionWords(ctx.dialect, front);
      assert words[|words| - 1] == Prefix(ctx.dialect) + name;
      assert ExtensionName(ctx, name) && name !in front;
      assert front + [name] == names;
    }
  }

  lemma ClassifyPin(ctx: Context)
    ensures Classify(ctx, Prefix(ctx.dialect) + "pin") == Pin
  {
    hide IsCompactDate, ValidControl, LowerAll;
    var prefix := Prefix(ctx.dialect);
    var w := prefix + "pin";
    CompactCandidateOfPrefixed(ctx.dialect, "pin");
    LengthIsNotCompact(ctx.cal, "pin");
    LowerFixed("pin");
    assert |LowerAll(w)| == |w| < |"/inside"|;
    assert w[|prefix|..] == "pin";
  }

  lemma LengthIsNotCompact(cal: Calendar, s: string)
    requires |s| != 8 && |s| != 17
    ensures !IsCompactDate(cal, s)
  {
  }

  predicate BoundName(name: string) {
    name == "after:" || name == "before:"
  }

  predicate DayChars(day: string) {
    forall c | c in day :: IsDigit(c) || c == '-'
  }

  lemma BoundBodyFacts(name: string, day: string)
    requires BoundName(name) && DayChars(day)
    ensures var body := name + day;
            && LowerAll(body) == body && (body[0] == 'a' || body[0] == 'b') && |body| >= 6
            && !LooksExtension(body) && !AllDigits(body) && (|body| >= 8 ==> !AllDigits(body[0..8]))
  {
    var body := name + day;
    assert forall c | c in body :: c in name || c in day;
    LowerFixed(body);
    assert body[0] in body;
    var colon := |name| - 1;
    assert body[colon] == ':' && !ExtensionChar(body[colon]);
    if |body| >= 8 {
      assert body[0..8][0] in body[0..8];
    }
  }

  lemma BoundIsNotCompact(cal: Calendar, name: string, day: string)
    requires BoundName(name) && DayChars(day)
    ensures !IsCompactDate(cal, name + day)
  {
    BoundBodyFacts(name, day);
  }

  lemma BoundControl(cal: Calendar, name: string, day: string)
    requires BoundName(name) && DayChars(day)
    ensures ValidControl(cal, name + day) <==> IsoDay(cal, day).Some?
    ensures LowerAll(name + day) != "pin"
    ensures forall b, now :: IsoDay(cal, day).Some? ==>
              ApplyDate(cal, b, name + day, now)
              == if name == "after:" then b.(after := IsoDay(cal, day)) else b.(before := IsoDay(cal, day))
  {
    hide IsoDay, CompactRange, CompactDayRange, IsoMonth, LowerAll, IsRelative, LooksExtension;
    var body := name + day;
    BoundBodyFacts(name, day);
    NotAKeyword(body);
    assert body[..|name|] == name && body[|name|..] == day;
    if name == "before:" {
      assert body[0] == 'b' && "after:"[0] == 'a';
    }
  }

  lemma NotAKeyword(body: string)
    requires body != "" && (body[0] == 'a' || body[0] == 'b')
    ensures body != "pin" && !IsRelative(body) && !StartsWith(body, "date:")
    ensures body != "today" && body != "yesterday" && body != "week" && body != "month" && body != "year"
  {
    assert "date:"[0] == 'd';
  }

  /** A compiled bound is read as that bound if its day is one, and as text otherwise. */
  lemma ClassifyBound(ctx: Context, name: string, day: string)
    requires BoundName(name) && DayChars(day)
    ensures Classify(ctx, Prefix(ctx.dialect) + name + day)
            == if IsoDay(ctx.cal, day).Some? then DateToken(name + day) else PlainText
  {
    hide ValidControl, IsCompactDate, IsoDay, LooksExtension, LowerAll, CompactCandidate, BoundName, DayChars;
    var prefix, body := Prefix(ctx.dialect), name + day;
    var w := prefix + name + day;
    assert w == prefix + body;
    BoundBodyFacts(name, day);
    BoundIsNotCompact(ctx.cal, name, day);
    BoundControl(ctx.cal, name, day);
    CompactCandidateOfPrefixed(ctx.dialect, body);
    assert w[|prefix|..] == body;
    NotInside(ctx.dialect, body);
  }

  lemma NotInside(dialect: Dialect, body: string)
    requires body != "" && (body[0] == 'a' || body[0] == 'b')
    ensures LowerAll(Prefix(dialect) + body) != "/inside"
  {
    hide LowerAll;
    var w := Prefix(dialect) + body;
    assert w[1] == (if dialect.Windows? then body[0] else '/');
    assert LowerAll(w)[1] == Lower(w[1]);
    assert "/inside"[1] == 'i';
  }

  /** The bound a compiled bound comes back as. */
  function ReadBack(cal: Calendar, bound: Option<int>): Option<int> {
    if bound.None? || IsoLocalDay(cal, bound.value) == "" then None else IsoDay(cal, IsoLocalDay(cal, bound.value))
  }

  function Unread(ctx: Context, name: string, bound: Option<int>): seq<string> {
    if ReadBack(ctx.cal, bound).Some? then [] else BoundWord(ctx, name, bound)
  }

  lemma RunBound(ctx: Context, now: int, s: State, name: string, bound: Option<int>)
    requires BoundName(name)
    requires if name == "after:" then s.modified.after == None else s.modified.before == None
    ensures Run(ctx, now, s, BoundWord(ctx, name, bound))
            == s.(parts := s.parts + Unread(ctx, name, bound),
                  modified := if name == "after:" then s.modified.(after := ReadBack(ctx.cal, bound))
                              else s.modified.(before := ReadBack(ctx.cal, bound)))
  {
    hide Classify, ApplyDate, IsoDay, IsoLocalDay;
    var words := BoundWord(ctx, name, bound);
    if words == [] {
      assert s.parts + [] == s.parts;
    } else {
      var day := IsoLocalDay(ctx.cal, bound.value);
      LocalDayChars(ctx.cal, bound.value);
      ClassifyBound(ctx, name, day);
      BoundControl(ctx.cal, name, day);
      RunOne(ctx, now, s, words[0]);
      assert words == [words[0]];
      assert s.parts + [] == s.parts;
    }
  }

  lemma RunOne(ctx: Context, now: int, s: State, word: string)
    ensures Run(ctx, now, s, [word]) == Step(ctx, now, s, word)
  {
    hide Step;
    assert [word][..0] == [];
  }

  lemma LocalDayChars(cal: Calendar, t: int)
    ensures DayChars(IsoLocalDay(cal, t))
  {
    if cal.localDay(t).Some? {
      DayTextChars(cal.localDay(t).value);
    }
  }

  /** The state after parsing a compiled filter. */
  lemma RunCompiled(ctx: Context, now: int, s: State)
    requires GoodState(ctx, s)
    ensures var m := s.modified;
            Run(ctx, now, START, AllWords(ctx, s))
            == State(s.parts + Unread(ctx, "after:", m.after) + Unread(ctx, "before:", m.before),
                     s.extensions, Bounds(ReadBack(ctx.cal, m.after), ReadBack(ctx.cal, m.before)), s.pinned, FileScope)
  {
    hide Run, Step, Classify, Unread, ReadBack, BoundWord;
    var f := FilterOf(s, []);
    var a := ExtensionWords(ctx.dialect, s.extensions);
    var b := if s.pinned then [Prefix(ctx.dialect) + "pin"] else [];
    var c := BoundWord(ctx, "after:", s.modified.after);
    var d := BoundWord(ctx, "before:", s.modified.before);
    assert AllWords(ctx, s) == s.parts + a + b + c + d;
    RunParts(ctx, now, START, s.parts);
    var s1 := START.(parts := s.parts);
    assert [] + s.parts == s.parts;
    RunConcat(ctx, now, START, s.parts, a);
    RunExtensions(ctx, now, s1, s.extensions);
    var s2 := s1.(extensions := s.extensions);
    RunConcat(ctx, now, START, s.parts + a, b);
    RunPin(ctx, now, s2, s.pinned);
    var s3 := s2.(pinned := s.pinned);
    RunConcat(ctx, now, START, s.parts + a + b, c);
    RunBound(ctx, now, s3, "after:", s.modified.after);
    var s4 := Run(ctx, now, s3, c);
    RunConcat(ctx, now, START, s.parts + a + b + c, d);
    RunBound(ctx, now, s4, "before:", s.modified.before);
  }

  lemma RunPin(ctx: Context, now: int, s: State, pinned: bool)
    requires !s.pinned
    ensures Run(ctx, now, s, if pinned then [Prefix(ctx.dialect) + "pin"] else []) == s.(pinned := pinned)
  {
    hide Classify;
    if pinned {
      ClassifyPin(ctx);
      RunOne(ctx, now, s, Prefix(ctx.dialect) + "pin");
    }
  }

  // ----- Days and midnights -----

  lemma FourDigits(y: nat)
    requires 1970 <= y <= 9999
    ensures |Decimal(y)| == 4 && Number(Decimal(y)) == y
  {
    NumberOfDecimal(y);
    assert |Decimal(y / 1000)| == 1;
    assert |Decimal(y / 100)| == 2;
    assert |Decimal(y / 10)| == 3;
  }

  lemma TwoDigits(n: nat)
    requires 1 <= n <= 31
    ensures |Two(n)| == 2 && AllDigits(Two(n)) && Number(Two(n)) == n
  {
    NumberOfDecimal(n);
    if n <= 9 {
      var s := Two(n);
      assert s == ['0', Digit(n)];
      assert s[..1] == ['0'] && s[..1][..0] == "";
      assert Number(s[..1]) == 0;
    } else {
      assert |Decimal(n / 10)| == 1;
    }
  }

  lemma IsoDayOfDayText(cal: Calendar, d: Date)
    requires InRange(d)
    ensures |DayText(d)| == 10 && IsoDay(cal, DayText(d)) == EpochOf(cal, d)
  {
    hide EpochOf, Two;
    FourDigits(d.year);
    TwoDigits(d.month);
    TwoDigits(d.day);
    var s := DayText(d);
    assert s[0..4] == Decimal(d.year) && s[5..7] == Two(d.month) && s[8..10] == Two(d.day);
  }

  /** A bound survives exactly when it is the midnight of a day the format can write. */
  lemma ReadBackIffMidnight(cal: Calendar, t: int)
    ensures ReadBack(cal, Some(t)) == Some(t) <==> IsMidnight(cal, t)
  {
    hide DayText;
    if IsMidnight(cal, t) {
      IsoDayOfDayText(cal, cal.localDay(t).value);
    }
  }

  ghost predicate BoundsAreMidnights(cal: Calendar, m: Bounds) {
    && (m.after.Some? ==> IsMidnight(cal, m.after.value))
    && (m.before.Some? ==> IsMidnight(cal, m.before.value))
  }

  /** For every query, both dialects, any calendar, any times of parsing and any set of
      registered extensions: compiling the parsed filter and parsing the result gives the
      same filter, in file scope and without detail terms, exactly when its date bounds
      are midnights of days from 1970 to 9999. */
  lemma ParseCompileRoundTrip(ctx: Context, now: int, query: string, later: int)
    ensures var f := Parse(ctx, now, query);
            Parse(ctx, later, Compile(ctx, f)) == f.(scope := FileScope, detailTerms := [])
            <==> BoundsAreMidnights(ctx.cal, f.modified)
  {
    hide Parse, Compile, GoodState;
    var s := ParsedState(ctx, now, query);
    StateRoundTrip(ctx, s, DetailTerms(ctx, now, Stages(query)[1..]), later);
  }

  /** The same for what a direct content search compiles: the constraints on files alone. */
  lemma ConstraintsRoundTrip(ctx: Context, now: int, query: string, later: int)
    ensures var f := Parse(ctx, now, query).(scope := FileScope, text := "", detailTerms := []);
            Parse(ctx, later, Compile(ctx, f)) == f <==> BoundsAreMidnights(ctx.cal, f.modified)
  {
    hide Parse, Compile;
    var s := ParsedState(ctx, now, query);
    StateRoundTrip(ctx, s.(parts := [], scope := FileScope), [], later);
  }

  lemma StateRoundTrip(ctx: Context, s: State, terms: seq<string>, later: int)
    requires GoodState(ctx, s)
    ensures var f := FilterOf(s, terms);
            Parse(ctx, later, Compile(ctx, f)) == f.(scope := FileScope, detailTerms := [])
            <==> BoundsAreMidnights(ctx.cal, f.modified)
  {
    hide Parse, Compile, GoodState, Run, ReadBack, IsMidnight;
    ParseOfCompiled(ctx, later, s, terms);
    RunCompiled(ctx, later, s);
    var m := s.modified;
    if m.after.Some? {
      ReadBackIffMidnight(ctx.cal, m.after.value);
    } else {
      ReadNothing(ctx, "after:");
    }
    if m.before.Some? {
      ReadBackIffMidnight(ctx.cal, m.before.value);
    } else {
      ReadNothing(ctx, "before:");
    }
    assert s.parts + [] + [] == s.parts;
  }

  lemma ReadNothing(ctx: Context, name: string)
    ensures ReadBack(ctx.cal, None) == None && Unread(ctx, name, None) == []
  {
  }

  /** A relative range is lost unless the second after now happens to be a midnight. */
  lemma WeekIsLost(ctx: Context, now: int, later: int)
    requires ctx.dialect.Windows? && !IsMidnight(ctx.cal, now + 1)
    ensures var f := Parse(ctx, now, "/week");
            Parse(ctx, later, Compile(ctx, f)) != f.(scope := FileScope, detailTerms := [])
  {
    hide Parse, Compile, Run, IsMidnight;
    ParseCompileRoundTrip(ctx, now, "/week", later);
    WeekBounds(ctx, now);
  }

  lemma WeekBounds(ctx: Context, now: int)
    requires ctx.dialect.Windows?
    ensures Parse(ctx, now, "/week").modified == Bounds(Some(now - 7 * DAY_SECONDS), Some(now + 1))
  {
    hide LowerAll, Classify, ApplyDate, DetailTerms;
    var q := "/week";
    assert NoSeparator(q);
    OneStage(q) by {
      assert forall i: nat :: SeparatorAt(q, i) ==> i < |q|;
    }
    assert q + "" == q;
    WordFirst(q, "");
    assert Words(q) == [q];
    RunOne(ctx, now, START, q);
    ClassifyWeek(ctx);
    LowerFixed("week");
    assert ApplyDate(ctx.cal, START.modified, "week", now) == Bounds(Some(now - 7 * DAY_SECONDS), Some(now + 1)) by {
      WeekApplied(ctx.cal, START.modified, now);
    }
  }

  lemma WeekApplied(cal: Calendar, b: Bounds, now: int)
    ensures ApplyDate(cal, b, "week", now) == Bounds(Some(now - 7 * DAY_SECONDS), Some(now + 1))
  {
    hide LowerAll;
    LowerFixed("week");
  }

  lemma ClassifyWeek(ctx: Context)
    requires ctx.dialect.Windows?
    ensures Classify(ctx, "/week") == DateToken("week")
  {
    hide IsCompactDate, LowerAll;
    var w := "/week";
    assert w == Prefix(ctx.dialect) + "week";
    CompactCandidateOfPrefixed(ctx.dialect, "week");
    LengthIsNotCompact(ctx.cal, "week");
    LowerFixed("week");
    assert |LowerAll(w)| == |w| < |"/inside"|;
    assert w[1..] == "week";
  }
}
