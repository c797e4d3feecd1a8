/** Searching: filters before caps, and the staged plan that turns file stages into
    the candidate set of a content search.
  */
module DrillSearch {

  import opened Results
  import opened Text
  import opened SearchDialect
  import opened QueryFilter
  import opened QueryRoundTrip
  import opened Sequences

  datatype Item = Item(
    fileId: nat,
    filename: string,
    path: string,
    extension: string,
    pinned: bool,
    indexed: bool,
    modified: int)

  /** A content request as it crosses the interface: no ids means no restriction. */
  datatype Request = Request(query: string, candidateIds: seq<nat>)

  /** The private runtime and the file name tests, as functions that may fail. */
  datatype Engine = Engine(
    searchFiles: string -> Option<seq<Item>>,
    searchContent: Option<Request -> Option<seq<Item>>>,
    compose: string -> string,
    admitsFile: (string, string) -> bool,
    admitsText: (string, string) -> bool)

  datatype Failure =
    | RuntimeFailed
    | StillIndexing
    | ContentUnsupported
    | InsideNotLast

  // ----- File results -----

  function Bare(extension: string): string {
    var e := LowerAll(extension);
    if e != "" && e[0] == '.' then e[1..] else e
  }

  predicate OccursAt(haystack: string, needle: string, i: nat) {
    i + |needle| <= |haystack| && haystack[i..i + |needle|] == needle
  }

  predicate Contains(haystack: string, needle: string) {
    exists i | 0 <= i <= |haystack| :: OccursAt(haystack, needle, i)
  }

  predicate Matches(engine: Engine, f: Filter, item: Item) {
    && engine.admitsFile(item.filename, item.extension)
    && (f.pinnedOnly ==> item.pinned)
    && (f.extensions != [] ==> exists e | e in f.extensions :: Bare(e) == Bare(item.extension))
    && (f.modified.after.Some? ==> f.modified.after.value <= item.modified)
    && (f.modified.before.Some? ==> item.modified < f.modified.before.value)
    && forall term | term in f.detailTerms :: term == "" || Contains(LowerAll(item.filename + "\n" + item.path), LowerAll(term))
  }

  function Select(engine: Engine, f: Filter, raw: seq<Item>): seq<Item> {
    if raw == [] then []
    else
      var front := Select(engine, f, raw[..|raw| - 1]);
      var last := raw[|raw| - 1];
      if Matches(engine, f, last) then front + [last] else front
  }

  /** The first `limit` results; 0 is no limit. */
  function Cap(items: seq<Item>, limit: nat): seq<Item> {
    if limit == 0 || |items| <= limit then items else items[..limit]
  }

  /** All file results of a query, before any cap. */
  function FileResults(engine: Engine, ctx: Context, now: int, query: string): Option<seq<Item>> {
    var f := Parse(ctx, now, query);
    var raw :- engine.searchFiles(Compile(ctx, f));
    Some(Select(engine, f, raw))
  }

  /** What may be searched inside: indexed text files, by id and in order. */
  function CandidateIds(engine: Engine, items: seq<Item>): seq<nat> {
    if items == [] then []
    else
      var front := CandidateIds(engine, items[..|items| - 1]);
      var last := items[|items| - 1];
      if last.indexed && engine.admitsText(last.filename, last.extension) then front + [last.fileId] else front
  }

  function TextHits(engine: Engine, hits: seq<Item>): seq<Item> {
    if hits == [] then []
    else
      var front := TextHits(engine, hits[..|hits| - 1]);
      var last := hits[|hits| - 1];
      if engine.admitsText(last.filename, last.extension) then front + [last] else front
  }

  predicate HasFileConstraints(f: Filter) {
    f.pinnedOnly || f.extensions != [] || f.modified.after.Some? || f.modified.before.Some?
  }

  function ConstraintFilter(f: Filter): Filter {
    f.(scope := FileScope, text := "", detailTerms := [])
  }

  // ----- The client -----

  class Client {
    const engine: Engine
    const ctx: Context
    const readOnly: bool
    var error: Option<Failure>
    /** The content requests made so far. */
    ghost var requests: seq<Request>

    constructor (engine: Engine, ctx: Context, readOnly: bool)
      ensures this.engine == engine && this.ctx == ctx && this.readOnly == readOnly
      ensures requests == [] && error == None
    {
      this.engine, this.ctx, this.readOnly := engine, ctx, readOnly;
      error, requests := None, [];
    }

    /** The cap applies to what the filters let through. */
    method SearchFiles(now: int, query: string, limit: nat) returns (r: Result<seq<Item>, Failure>)
      modifies this
      ensures requests == old(requests)
      ensures match FileResults(engine, ctx, now, query)
              case Some(items) => r == Ok(Cap(items, limit)) && error == None
              case None => r == Err(RuntimeFailed) && error == Some(RuntimeFailed)
    {
      hide Matches, ParseImpl, Compile;
      var filter := ParseQuery(ctx, now, query, true);
      var runtimeQuery := CompileRuntimeQuery(ctx, filter);
      var raw := engine.searchFiles(runtimeQuery);
      if raw.None? {
        error := Some(RuntimeFailed);
        return Err(RuntimeFailed);
      }
      var out: seq<Item> := [];
      var items := raw.value;
      for i := 0 to |items|
        invariant out == Select(engine, filter, items[..i])
        invariant limit != 0 ==> |out| < limit
        invariant requests == old(requests)
      {
        SelectStep(engine, filter, items, i);
        if !Matches(engine, filter, items[i]) {
          continue;
        }
        out := out + [items[i]];
        if limit != 0 && |out| >= limit {
          assert out == Select(engine, filter, items[..i + 1]);
          SelectPrefix(engine, filter, items, i + 1);
          assert FileResults(engine, ctx, now, query) == Some(Select(engine, filter, items));
          assert out == Cap(Select(engine, filter, items), limit);
          error := None;
          return Ok(out);
        }
      }
      assert items[..|items|] == items;
      error := None;
      r := Ok(out);
    }

    method CollectCandidates(items: seq<Item>) returns (ids: seq<nat>)
      ensures ids == CandidateIds(engine, items)
    {
      ids := [];
      for i := 0 to |items|
        invariant ids == CandidateIds(engine, items[..i])
      {
        assert items[..i + 1][..i] == items[..i];
        if items[i].indexed && engine.admitsText(items[i].filename, items[i].extension) {
          ids := ids + [items[i].fileId];
        }
      }
      assert items[..|items|] == items;
    }

    /** Runs one content request and keeps the text files among its hits. */
    method AskEngine(text: string, ids: seq<nat>, limit: nat) returns (r: Result<seq<Item>, Failure>)
      requires engine.searchContent.Some?
      modifies this
      ensures var request := Request(engine.compose(text), ids);
              && requests == old(requests) + [request]
              && match engine.searchContent.value(request)
                 case Some(hits) => r == Ok(Cap(TextHits(engine, hits), limit))
                 case None => r == Err(RuntimeFailed)
    {
      var request := Request(engine.compose(text), ids);
      requests := requests + [request];
      var found := engine.searchContent.value(request);
      if found.None? {
        error := Some(RuntimeFailed);
        return Err(RuntimeFailed);
      }
      var hits := found.value;
      var out: seq<Item> := [];
      for i := 0 to |hits|
        invariant out == TextHits(engine, hits[..i])
        invariant requests == old(requests) + [request]
      {
        assert hits[..i + 1][..i] == hits[..i];
        if engine.admitsText(hits[i].filename, hits[i].extension) {
          out := out + [hits[i]];
        }
      }
      assert hits[..|hits|] == hits;
      if limit != 0 && |out| > limit {
        out := out[..limit];
      }
      error := None;
      r := Ok(out);
    }

    /** A content search, restricted to `ids` when `restrictive`. */
    method SearchContent(now: int, filter: Filter, ids: seq<nat>, restrictive: bool, limit: nat)
      returns (r: Result<seq<Item>, Failure>)
      requires restrictive ==> ids != []
      modifies this
      ensures ContentPlan(engine, ctx, readOnly, now, filter, if restrictive then Some(ids) else None).Ran(engine, r, old(requests), requests, limit)
    {
      hide CandidateIds, FileResults, TextHits;
      if readOnly {
        error := Some(StillIndexing);
        return Err(StillIndexing);
      }
      if engine.searchContent.None? {
        error := Some(ContentUnsupported);
        return Err(ContentUnsupported);
      }
      if filter.text == "" {
        error := None;
        return Ok([]);
      }
      var candidateIds := if restrictive then ids else [];
      if !restrictive && HasFileConstraints(filter) {
        var candidateQuery := CompileRuntimeQuery(ctx, ConstraintFilter(filter));
        var candidates := SearchFiles(now, candidateQuery, 0);
        if candidates.Err? {
          return Err(candidates.error);
        }
        candidateIds := CollectCandidates(candidates.value);
        if candidateIds == [] {
          error := None;
          return Ok([]);
        }
      }
      r := AskEngine(filter.text, candidateIds, limit);
    }

    /** One search: a staged plan, a content search, or a file search. */
    method Search(now: int, query: string, limit: nat) returns (r: Result<seq<Item>, Failure>)
      modifies this
      ensures SearchPlan(engine, ctx, readOnly, now, query).Ran(engine, r, old(requests), requests, limit)
    {
      hide CandidateIds, FileResults, TextHits, ParseImpl, ContentPlan, Stages, Rejoin;
      var detail := SplitDetail(query);
      if detail.active {
        var stages := [detail.primary] + detail.refinements;
        assert stages == Stages(query);
        var contentStage := |stages|;
        for i := 0 to |stages|
          invariant contentStage == |stages|
          invariant forall j | 0 <= j < i :: Parse(ctx, now, stages[j]).scope == FileScope
          invariant requests == old(requests)
        {
          var stageFilter := ParseQuery(ctx, now, stages[i], true);
          if stageFilter.scope == ContentScope {
            contentStage := i;
            break;
          }
        }
        assert contentStage == FirstContent(ctx, now, stages) by {
          FirstContentIs(ctx, now, stages, contentStage);
        }
        if contentStage != |stages| {
          if contentStage + 1 != |stages| {
            error := Some(InsideNotLast);
            return Err(InsideNotLast);
          }
          var ids: seq<nat> := [];
          var restricted := false;
          if contentStage > 0 {
            var candidateQuery := RejoinStages(stages, contentStage);
            var candidates := SearchFiles(now, candidateQuery, 0);
            if candidates.Err? {
              return Err(candidates.error);
            }
            ids := CollectCandidates(candidates.value);
            if ids == [] {
              error := None;
              return Ok([]);
            }
            restricted := true;
          }
          var contentFilter := ParseQuery(ctx, now, stages[contentStage], true);
          r := SearchContent(now, contentFilter, ids, restricted, limit);
          return;
        }
      }
      var filter := ParseQuery(ctx, now, query, true);
      if filter.scope == ContentScope {
        r := SearchContent(now, filter, [], false, limit);
        return;
      }
      r := SearchFiles(now, query, limit);
    }
  }

  method RejoinStages(stages: seq<string>, n: nat) returns (query: string)
    requires 0 < n <= |stages|
    ensures query == Rejoin(stages[..n])
  {
    query := stages[0];
    for i := 1 to n
      invariant query == Rejoin(stages[..i])
    {
      assert stages[..i + 1][..i] == stages[..i];
      query := query + " /; " + stages[i];
    }
  }

  lemma SelectStep(engine: Engine, f: Filter, raw: seq<Item>, i: nat)
    requires i < |raw|
    ensures Select(engine, f, raw[..i + 1]) == Select(engine, f, raw[..i]) + if Matches(engine, f, raw[i]) then [raw[i]] else []
  {
    assert raw[..i + 1][..i] == raw[..i];
  }

  lemma {:induction false} SelectPrefix(engine: Engine, f: Filter, raw: seq<Item>, n: nat)
    requires n <= |raw|
    ensures Select(engine, f, raw[..n]) <= Select(engine, f, raw)
    decreases |raw| - n
  {
    hide Matches;
    if n == |raw| {
      assert raw[..n] == raw;
    } else {
      SelectPrefix(engine, f, raw, n + 1);
      assert raw[..n + 1][..n] == raw[..n];
    }
  }

  /** The first stage that searches inside files, or the number of stages. */
  function FirstContent(ctx: Context, now: int, stages: seq<string>): (i: nat)
    ensures i <= |stages|
  {
    if stages == [] || Parse(ctx, now, stages[0]).scope == ContentScope then 0
    else 1 + FirstContent(ctx, now, stages[1..])
  }

  lemma {:induction false} FirstContentIs(ctx: Context, now: int, stages: seq<string>, i: nat)
    requires i <= |stages| && forall j | 0 <= j < i :: Parse(ctx, now, stages[j]).scope == FileScope
    requires i < |stages| ==> Parse(ctx, now, stages[i]).scope == ContentScope
    ensures FirstContent(ctx, now, stages) == i
    decreases |stages|
  {
    hide Parse;
    if i > 0 {
      FirstContentIs(ctx, now, stages[1..], i - 1);
    }
  }

  // ----- Plans -----

  /** How a search is answered: at once, by one content request, or by file results. */
  datatype Plan =
    | Answer(result: Result<seq<Item>, Failure>)
    | Ask(text: string, ids: seq<nat>)
    | Files(items: seq<Item>)
  {
    ghost predicate Ran(engine: Engine, r: Result<seq<Item>, Failure>, before: seq<Request>, after: seq<Request>, limit: nat) {
      match this
      case Answer(result) => r == result && after == before
      case Files(items) => r == Ok(Cap(items, limit)) && after == before
      case Ask(text, ids) =>
        && engine.searchContent.Some?
        && var request := Request(engine.compose(text), ids);
        && after == before + [request]
        && match engine.searchContent.value(request)
           case Some(hits) => r == Ok(Cap(TextHits(engine, hits), limit))
           case None => r == Err(RuntimeFailed)
    }
  }

  /** A content search; `candidates` is the set a staged plan computed, if any. */
  function ContentPlan(engine: Engine, ctx: Context, readOnly: bool, now: int, f: Filter, candidates: Option<seq<nat>>): Plan {
    if readOnly then Answer(Err(StillIndexing))
    else if engine.searchContent.None? then Answer(Err(ContentUnsupported))
    else if f.text == "" then Answer(Ok([]))
    else if candidates.Some? then Ask(f.text, candidates.value)
    else if !HasFileConstraints(f) then Ask(f.text, [])
    else
      match FileResults(engine, ctx, now, Compile(ctx, ConstraintFilter(f)))
      case None => Answer(Err(RuntimeFailed))
      case Some(items) =>
        if CandidateIds(engine, items) == [] then Answer(Ok([])) else Ask(f.text, CandidateIds(engine, items))
  }

  function FilePlan(engine: Engine, ctx: Context, readOnly: bool, now: int, query: string): Plan {
    var f := Parse(ctx, now, query);
    if f.scope == ContentScope then ContentPlan(engine, ctx, readOnly, now, f, None)
    else
      match FileResults(engine, ctx, now, query)
      case None => Answer(Err(RuntimeFailed))
      case Some(items) => Files(items)
  }

  function SearchPlan(engine: Engine, ctx: Context, readOnly: bool, now: int, query: string): Plan {
    var stages := Stages(query);
    var c := FirstContent(ctx, now, stages);
    if |stages| == 1 || c == |stages| then FilePlan(engine, ctx, readOnly, now, query)
    else if c + 1 != |stages| then Answer(Err(InsideNotLast))
    else
      match FileResults(engine, ctx, now, Rejoin(stages[..c]))
      case None => Answer(Err(RuntimeFailed))
      case Some(items) =>
        var ids := CandidateIds(engine, items);
        if ids == [] then Answer(Ok([]))
        else ContentPlan(engine, ctx, readOnly, now, Parse(ctx, now, stages[c]), Some(ids))
  }

  // ----- What plans promise -----

  ghost predicate InsideAt(ctx: Context, now: int, stages: seq<string>, j: nat) {
    j < |stages| && Parse(ctx, now, stages[j]).scope == ContentScope
  }

  lemma {:induction false} FirstContentMeans(ctx: Context, now: int, stages: seq<string>)
    ensures var c := FirstContent(ctx, now, stages);
            && (c < |stages| ==> InsideAt(ctx, now, stages, c))
            && forall j: nat | j < c :: !InsideAt(ctx, now, stages, j)
    decreases |stages|
  {
    hide Parse;
    if stages != [] && Parse(ctx, now, stages[0]).scope != ContentScope {
      var tail := stages[1..];
      FirstContentMeans(ctx, now, tail);
      var c := FirstContent(ctx, now, stages);
      assert c < |stages| ==> tail[c - 1] == stages[c];
      forall j: nat | j < c
        ensures !InsideAt(ctx, now, stages, j)
      {
        assert j > 0 ==> (InsideAt(ctx, now, tail, j - 1) <==> InsideAt(ctx, now, stages, j));
      }
    }
  }

  /** A search fails for a misplaced /inside exactly when a stage other than the last has one. */
  lemma InsideMustBeLast(engine: Engine, ctx: Context, readOnly: bool, now: int, query: string)
    ensures SearchPlan(engine, ctx, readOnly, now, query) == Answer(Err(InsideNotLast))
            <==> exists j: nat :: j + 1 < |Stages(query)| && InsideAt(ctx, now, Stages(query), j)
  {
    hide FileResults, CandidateIds, Stages, Parse, Rejoin;
    var stages := Stages(query);
    var c := FirstContent(ctx, now, stages);
    FirstContentMeans(ctx, now, stages);
    if c + 1 < |stages| {
      assert InsideAt(ctx, now, stages, c);
    }
  }

  /** The stages before the last, put together again, are those same stages. */
  lemma PrecedingStages(query: string)
    requires |Stages(query)| > 1
    ensures var front := Stages(query)[..|Stages(query)| - 1];
            Stages(Rejoin(front)) == front
  {
    var stages := Stages(query);
    StagesAreStages(query, 0);
    var front := stages[..|stages| - 1];
    assert forall s | s in front :: s in stages;
    SplitRejoined(front);
  }

  /** A staged content search asks once, for the text of the last stage, restricted to
      the indexed text files among all results of the stages before it. */
  lemma StagedSearchAsks(engine: Engine, ctx: Context, readOnly: bool, now: int, query: string)
    requires |Stages(query)| > 1 && SearchPlan(engine, ctx, readOnly, now, query).Ask?
    ensures var stages, plan := Stages(query), SearchPlan(engine, ctx, readOnly, now, query);
            var preceding := Rejoin(stages[..|stages| - 1]);
            && FirstContent(ctx, now, stages) == |stages| - 1
            && Stages(preceding) == stages[..|stages| - 1]
            && var items := FileResults(engine, ctx, now, preceding);
            && items.Some?
            && plan.ids == CandidateIds(engine, items.value) != []
            && plan.text == Parse(ctx, now, stages[|stages| - 1]).text
  {
    hide FileResults, CandidateIds, Stages, Parse, Rejoin, FirstContent;
    PrecedingStages(query);
    var stages := Stages(query);
    if FirstContent(ctx, now, stages) == |stages| {
      NoContentStage(ctx, now, query);
    }
  }

  lemma {:induction false} WordsAfterSpace(a: string, b: string)
    ensures Words(a + " " + b) == Words(a) + Words(b)
    decreases |a|
  {
    hide Words;
    var rest := " " + b;
    assert a + " " + b == a + rest && rest[1..] == b;
    NoWords();
    if a == "" {
      assert a + rest == rest;
      SpaceFirst(rest);
      assert [] + Words(b) == Words(b);
    } else if IsSpace(a[0]) {
      SpaceFirst(a);
      SpaceFirst(a + rest);
      assert (a + rest)[1..] == a[1..] + " " + b;
      WordsAfterSpace(a[1..], b);
    } else {
      var w, tail := FirstWord(a);
      assert a + rest == w + (tail + rest) && tail + " " + b == tail + rest;
      WordFirst(w, tail);
      WordFirst(w, tail + rest);
      WordsAfterSpace(tail, b);
    }
  }

  lemma SpaceFirst(s: string)
    requires s != "" && IsSpace(s[0])
    ensures Words(s) == Words(s[1..])
  {
  }

  lemma FirstWord(s: string) returns (w: string, tail: string)
    requires s != "" && !IsSpace(s[0])
    ensures IsWord(w) && s == w + tail && (tail == "" || IsSpace(tail[0]))
  {
    var n := WordLength(s);
    w, tail := s[..n], s[n..];
    assert forall i | 0 <= i < n :: w[i] == s[i];
  }

  /** The words of all stages, in order. */
  function WordsOf(stages: seq<string>): seq<string> {
    if stages == [] then [] else WordsOf(stages[..|stages| - 1]) + Words(stages[|stages| - 1])
  }

  lemma {:induction false} WordsOfFlatten(stages: seq<string>)
    ensures Words(Flatten(stages)) == WordsOf(stages)
  {
    hide Words;
    NoWords();
    if stages != [] {
      var front, last := Flatten(stages[..|stages| - 1]), stages[|stages| - 1];
      WordsOfFlatten(stages[..|stages| - 1]);
      WordsAfterSpace(front, last);
      assert "" + last == last && front + "" == front;
    }
  }

  lemma NoWords()
    ensures Words("") == []
  {
  }

  lemma {:induction false} ScopeOfRun(ctx: Context, now: int, s: State, words: seq<string>)
    ensures Run(ctx, now, s, words).scope == FileScope <==> s.scope == FileScope && Run(ctx, now, START, words).scope == FileScope
  {
    hide Classify, ApplyDate;
    if words != [] {
      ScopeOfRun(ctx, now, s, words[..|words| - 1]);
    }
  }

  lemma {:induction false} ScopeOfStages(ctx: Context, now: int, stages: seq<string>)
    requires forall s | s in stages :: Run(ctx, now, START, Words(s)).scope == FileScope
    ensures Run(ctx, now, START, WordsOf(stages)).scope == FileScope
  {
    hide Words, Step, Run;
    RunNothing(ctx, now);
    if stages != [] {
      var front, last := stages[..|stages| - 1], stages[|stages| - 1];
      assert last in stages && forall s | s in front :: s in stages;
      ScopeOfStages(ctx, now, front);
      RunConcat(ctx, now, START, WordsOf(front), Words(last));
      ScopeOfRun(ctx, now, Run(ctx, now, START, WordsOf(front)), Words(last));
    }
  }

  lemma RunNothing(ctx: Context, now: int)
    ensures Run(ctx, now, START, []) == START
  {
  }

  lemma ParseStage(ctx: Context, now: int, stage: string)
    requires IsStage(stage)
    ensures Parse(ctx, now, stage).scope == Run(ctx, now, START, Words(stage)).scope
  {
    hide Words, Run, Trim, DetailTerms;
    assert !HasSeparator(stage) by {
      assert forall i: nat :: SeparatorAt(stage, i) ==> i < |stage|;
    }
    OneStage(stage);
  }

  /** A query none of whose stages searches inside files does not do so as a whole. */
  lemma NoContentStage(ctx: Context, now: int, query: string)
    requires |Stages(query)| > 1 && FirstContent(ctx, now, Stages(query)) == |Stages(query)|
    ensures Parse(ctx, now, query).scope == FileScope
  {
    hide Words, Run, Stages, DetailTerms, FirstContent, IsStage;
    var stages := Stages(query);
    assert stages == StagesFrom(query, 0) by {
      StagesFromStart(query);
    }
    StagesAreStages(query, 0);
    FirstContentMeans(ctx, now, stages);
    forall s | s in stages
      ensures Run(ctx, now, START, Words(s)).scope == FileScope
    {
      var j: nat :| j < |stages| && stages[j] == s;
      assert !InsideAt(ctx, now, stages, j);
      ParseStage(ctx, now, s);
    }
    WordsOfFlatten(stages);
    ScopeOfStages(ctx, now, stages);
  }

  lemma StagesFromStart(query: string)
    ensures Stages(query) == StagesFrom(query, 0)
  {
  }

  /** The engine is asked without restriction exactly when a one-stage query has no
      constraint on files: no pin, no extension and no date.  An empty candidate set is
      never sent. */
  lemma UnrestrictedIffUnconstrained(engine: Engine, ctx: Context, readOnly: bool, now: int, query: string)
    requires SearchPlan(engine, ctx, readOnly, now, query).Ask?
    ensures SearchPlan(engine, ctx, readOnly, now, query).ids == []
            <==> var f := Parse(ctx, now, query);
                 |Stages(query)| == 1 && !f.pinnedOnly && f.extensions == [] && f.modified.after.None? && f.modified.before.None?
  {
    hide FileResults, CandidateIds, Stages, Parse, Rejoin, FirstContent;
    if |Stages(query)| > 1 {
      StagedSearchAsks(engine, ctx, readOnly, now, query);
    }
  }

  /** A query without /inside lists files, and nothing else does. */
  lemma FilesUnlessInside(engine: Engine, ctx: Context, readOnly: bool, now: int, query: string)
    ensures SearchPlan(engine, ctx, readOnly, now, query).Files?
            <==> FileResults(engine, ctx, now, query).Some? && Parse(ctx, now, query).scope == FileScope
                 && (|Stages(query)| > 1 ==> forall j: nat :: !InsideAt(ctx, now, Stages(query), j))
  {
    hide FileResults, CandidateIds, Stages, Parse, Rejoin;
    FirstContentMeans(ctx, now, Stages(query));
    assert forall j: nat :: InsideAt(ctx, now, Stages(query), j) ==> j < |Stages(query)|;
  }

  // ----- What the filters let through -----

  ghost predicate OccursFrom(text: string, term: string, k: nat) {
    k + |term| <= |text| && forall j | 0 <= j < |term| :: Lower(text[k + j]) == Lower(term[j])
  }

  /** `term` occurs in `text`, up to the case of letters. */
  ghost predicate OccursIn(text: string, term: string) {
    exists k: nat :: OccursFrom(text, term, k)
  }

  /** What a filter asks of a row: a name that may be shown, a pin, one of the extensions
      (the row may give it with a dot and in any case), a time from `after` up to but not
      including `before`, and every refinement in the name or in the path. */
  ghost predicate Wanted(engine: Engine, f: Filter, x: Item) {
    && engine.admitsFile(x.filename, x.extension)
    && (f.pinnedOnly ==> x.pinned)
    && (f.extensions == [] || exists e :: e in f.extensions && (LowerAll(x.extension) == e || LowerAll(x.extension) == "." + e))
    && (forall after :: f.modified.after == Some(after) ==> x.modified >= after)
    && (forall before :: f.modified.before == Some(before) ==> x.modified < before)
    && forall term :: term in f.detailTerms ==> OccursIn(x.filename, term) || OccursIn(x.path, term)
  }

  lemma LowerAt(s: string, i: nat)
    requires i < |s|
    ensures LowerAll(s)[i] == Lower(s[i])
  {
  }

  lemma OccursMeans(text: string, term: string, k: nat)
    ensures OccursAt(LowerAll(text), LowerAll(term), k) <==> OccursFrom(text, term, k)
  {
    hide LowerAll;
    var h, n := LowerAll(text), LowerAll(term);
    if k + |term| <= |text| {
      assert forall j | 0 <= j < |term| :: h[k..k + |n|][j] == Lower(text[k + j]) && n[j] == Lower(term[j]);
    }
  }

  /** A term without a line break is found in the name or in the path. */
  lemma ContainsMeans(name: string, path: string, term: string)
    requires '\n' !in term
    ensures Contains(LowerAll(name + "\n" + path), LowerAll(term)) <==> OccursIn(name, term) || OccursIn(path, term)
  {
    hide LowerAll, OccursAt;
    var all := name + "\n" + path;
    if Contains(LowerAll(all), LowerAll(term)) {
      var k: nat :| k <= |LowerAll(all)| && OccursAt(LowerAll(all), LowerAll(term), k);
      OccursMeans(all, term, k);
      SplitOccurrence(name, path, term, k);
    }
    if OccursIn(name, term) {
      var k: nat :| OccursFrom(name, term, k);
      OccursMoved(name, all, term, k, k);
      OccursMeans(all, term, k);
    }
    if OccursIn(path, term) {
      var k: nat :| OccursFrom(path, term, k);
      var l := |name| + 1 + k;
      OccursMoved(path, all, term, k, l);
      OccursMeans(all, term, l);
    }
  }

  /** A character that is no letter and not in the term is not inside its occurrence. */
  lemma OccurrenceAvoids(text: string, term: string, k: nat, c: char)
    requires OccursFrom(text, term, k) && c !in term && c < 'A'
    ensures forall p | k <= p < k + |term| :: text[p] != c
  {
    forall p | k <= p < k + |term|
      ensures text[p] != c
    {
      var j := p - k;
      assert term[j] in term && Lower(text[k + j]) == Lower(term[j]);
    }
  }

  lemma SplitOccurrence(name: string, path: string, term: string, k: nat)
    requires '\n' !in term && OccursFrom(name + "\n" + path, term, k)
    ensures OccursIn(name, term) || OccursIn(path, term)
  {
    var all, n := name + "\n" + path, |name|;
    OccurrenceAvoids(all, term, k, '\n');
    assert all[n] == '\n';
    if k + |term| <= n {
      OccursMoved(all, name, term, k, k);
    } else {
      OccursMoved(all, path, term, k, k - n - 1);
    }
  }

  lemma OccursMoved(text: string, other: string, term: string, k: nat, l: nat)
    requires OccursFrom(text, term, k) && l + |term| <= |other| && other[l..l + |term|] == text[k..k + |term|]
    ensures OccursFrom(other, term, l)
  {
    forall j | 0 <= j < |term|
      ensures Lower(other[l + j]) == Lower(term[j])
    {
      assert other[l..l + |term|][j] == text[k..k + |term|][j];
      assert Lower(text[k + j]) == Lower(term[j]);
    }
  }

  lemma {:induction false} JoinHasNoBreak(words: seq<string>)
    requires forall w | w in words :: IsWord(w)
    ensures '\n' !in Join(words)
  {
    if words != [] {
      assert words[0] in words && forall w | w in words[1..] :: w in words;
      JoinHasNoBreak(words[1..]);
    }
  }

  lemma {:induction false} PartsAreWords(ctx: Context, now: int, words: seq<string>)
    requires forall w | w in words :: IsWord(w)
    ensures forall w | w in Run(ctx, now, START, words).parts :: IsWord(w)
  {
    hide Classify, ApplyDate, IsWord;
    if words != [] {
      var front, last := words[..|words| - 1], words[|words| - 1];
      assert last in words && forall w | w in front :: w in words;
      PartsAreWords(ctx, now, front);
    }
  }

  lemma {:induction false} TermsHaveNoBreak(ctx: Context, now: int, refinements: seq<string>)
    ensures forall t | t in DetailTerms(ctx, now, refinements) :: '\n' !in t
  {
    hide Run, Words;
    if refinements != [] {
      TermsHaveNoBreak(ctx, now, refinements[..|refinements| - 1]);
      var words := Words(refinements[|refinements| - 1]);
      PartsAreWords(ctx, now, words);
      JoinHasNoBreak(Run(ctx, now, START, words).parts);
    }
  }

  /** A parsed extension is in lower case and has no dot. */
  lemma ParsedExtension(ctx: Context, e: string)
    requires ExtensionName(ctx, e)
    ensures LowerAll(e) == e && e != "" && '.' !in e
  {
    hide IsCompactDate, ValidControl, LowerAll;
    var word := Prefix(ctx.dialect) + e;
    assert word[|Prefix(ctx.dialect)|..] == e;
    assert forall i | 0 <= i < |e| :: ExtensionChar(e[i]);
  }

  lemma BareMeans(e: string, x: string)
    requires LowerAll(e) == e && e != "" && '.' !in e
    ensures Bare(e) == Bare(x) <==> LowerAll(x) == e || LowerAll(x) == "." + e
  {
    hide LowerAll;
    assert e[0] in e;
    var l := LowerAll(x);
    if l != "" && l[0] == '.' {
      assert l == "." + l[1..];
    }
    assert ("." + e)[1..] == e;
  }

  /** The test of the loop is that, for every filter that a query can give. */
  lemma MatchesIffWanted(engine: Engine, ctx: Context, now: int, query: string, x: Item)
    ensures var f := Parse(ctx, now, query); Matches(engine, f, x) <==> Wanted(engine, f, x)
  {
    hide Parse, LowerAll, Bare, Contains, OccursIn, GoodState, DetailTerms;
    var s := ParsedState(ctx, now, query);
    var f := Parse(ctx, now, query);
    forall e | e in f.extensions
      ensures Bare(e) == Bare(x.extension) <==> LowerAll(x.extension) == e || LowerAll(x.extension) == "." + e
    {
      GoodExtension(ctx, s, e);
      ParsedExtension(ctx, e);
      BareMeans(e, x.extension);
    }
    TermsHaveNoBreak(ctx, now, Stages(query)[1..]);
    forall t | t in f.detailTerms
      ensures t == "" || Contains(LowerAll(x.filename + "\n" + x.path), LowerAll(t)) <==> OccursIn(x.filename, t) || OccursIn(x.path, t)
    {
      ContainsMeans(x.filename, x.path, t);
      if t == "" {
        OccursEmpty(x.filename);
      }
    }
  }

  lemma OccursEmpty(text: string)
    ensures OccursIn(text, "")
  {
    assert OccursFrom(text, "", 0);
  }

  lemma GoodExtension(ctx: Context, s: State, e: string)
    requires GoodState(ctx, s) && e in s.extensions
    ensures ExtensionName(ctx, e)
  {
  }

  lemma {:induction false} SelectPicks(engine: Engine, f: Filter, raw: seq<Item>) returns (at: seq<nat>)
    ensures Picked(raw, Select(engine, f, raw), at)
    ensures forall i: nat | i < |raw| :: i in at <==> Matches(engine, f, raw[i])
  {
    hide Matches, Picked;
    if raw == [] {
      at := [];
      NothingPicked<Item>();
    } else {
      var front, last := raw[..|raw| - 1], raw[|raw| - 1];
      var before := SelectPicks(engine, f, front);
      assert raw == front + [last];
      var out := Select(engine, f, front);
      PickedStep(front, out, before, last, Matches(engine, f, last));
      at := if Matches(engine, f, last) then before + [|front|] else before;
      assert forall i: nat | i < |front| :: raw[i] == front[i];
    }
  }

  /** The file results of a query are exactly the rows its filter wants, in their order. */
  lemma FileResultsAreWanted(engine: Engine, ctx: Context, now: int, query: string) returns (at: seq<nat>)
    ensures var f := Parse(ctx, now, query);
            var raw := engine.searchFiles(Compile(ctx, f));
            var items := FileResults(engine, ctx, now, query);
            && (raw.Some? <==> items.Some?)
            && (raw.Some? ==>
                  && Picked(raw.value, items.value, at)
                  && forall i: nat | i < |raw.value| :: i in at <==> Wanted(engine, f, raw.value[i]))
  {
    hide Parse, Compile, Matches, Wanted, Select;
    var f := Parse(ctx, now, query);
    var raw := engine.searchFiles(Compile(ctx, f));
    at := [];
    if raw.Some? {
      at := SelectPicks(engine, f, raw.value);
      forall i: nat | i < |raw.value|
        ensures i in at <==> Wanted(engine, f, raw.value[i])
      {
        MatchesIffWanted(engine, ctx, now, query, raw.value[i]);
      }
    }
  }

  // ----- Membership -----

  ghost predicate Searchable(engine: Engine, item: Item) {
    item.indexed && engine.admitsText(item.filename, item.extension)
  }

  lemma {:induction false} CandidateMembers(engine: Engine, items: seq<Item>)
    ensures forall id :: id in CandidateIds(engine, items) <==> exists x :: x in items && Searchable(engine, x) && x.fileId == id
  {
    if items != [] {
      var front, last := items[..|items| - 1], items[|items| - 1];
      CandidateMembers(engine, front);
      assert items == front + [last];
      forall id
        ensures id in CandidateIds(engine, items) <==> exists x :: x in items && Searchable(engine, x) && x.fileId == id
      {
        if id in CandidateIds(engine, front) {
          var x :| x in front && Searchable(engine, x) && x.fileId == id;
          assert x in items;
        }
        assert Searchable(engine, last) ==> last in items;
      }
    }
  }

  function IdsOf(items: seq<Item>): seq<nat> {
    seq(|items|, i requires 0 <= i < |items| => items[i].fileId)
  }

  /** Candidates keep the order of the results they come from. */
  lemma {:induction false} CandidatesArePicked(engine: Engine, items: seq<Item>) returns (chosen: seq<Item>, at: seq<nat>)
    ensures Picked(items, chosen, at) && CandidateIds(engine, items) == IdsOf(chosen)
    ensures forall i: nat | i < |items| :: i in at <==> Searchable(engine, items[i])
  {
    hide Picked;
    if items == [] {
      chosen, at := [], [];
      NothingPicked<Item>();
    } else {
      var front, last := items[..|items| - 1], items[|items| - 1];
      var before, there := CandidatesArePicked(engine, front);
      var pick := Searchable(engine, last);
      PickedStep(front, before, there, last, pick);
      chosen, at := if pick then before + [last] else before, if pick then there + [|front|] else there;
      assert items == front + [last];
      assert forall i: nat | i < |front| :: items[i] == front[i];
    }
  }

  /** And so do the hits that are shown. */
  lemma {:induction false} TextHitsArePicked(engine: Engine, hits: seq<Item>) returns (at: seq<nat>)
    ensures Picked(hits, TextHits(engine, hits), at)
    ensures forall i: nat | i < |hits| :: i in at <==> engine.admitsText(hits[i].filename, hits[i].extension)
  {
    hide Picked;
    if hits == [] {
      at := [];
      NothingPicked<Item>();
    } else {
      var front, last := hits[..|hits| - 1], hits[|hits| - 1];
      var there := TextHitsArePicked(engine, front);
      var pick := engine.admitsText(last.filename, last.extension);
      PickedStep(front, TextHits(engine, front), there, last, pick);
      at := if pick then there + [|front|] else there;
      assert hits == front + [last];
      assert forall i: nat | i < |front| :: hits[i] == front[i];
    }
  }

  lemma {:induction false} TextHitsMembers(engine: Engine, hits: seq<Item>)
    ensures forall x :: x in TextHits(engine, hits) <==> x in hits && engine.admitsText(x.filename, x.extension)
  {
    if hits != [] {
      TextHitsMembers(engine, hits[..|hits| - 1]);
      assert hits == hits[..|hits| - 1] + [hits[|hits| - 1]];
    }
  }

  /** The documented duty of the engine: a request with ids is answered from those ids. */
  ghost predicate HonoursCandidates(engine: Engine) {
    engine.searchContent.Some? ==>
      forall request: Request :: request.candidateIds != [] && engine.searchContent.value(request).Some? ==>
        forall hit | hit in engine.searchContent.value(request).value :: hit.fileId in request.candidateIds
  }

  ghost predicate IsResultOf(engine: Engine, items: seq<Item>, id: nat) {
    exists x :: x in items && Searchable(engine, x) && x.fileId == id
  }

  /** Every hit of a search with several stages, one of which looks inside files, is a
      searchable result of the file search that the stages before it describe. */
  lemma DrillIsSound(engine: Engine, ctx: Context, readOnly: bool, now: int, query: string, limit: nat,
      r: Result<seq<Item>, Failure>, before: seq<Request>, after: seq<Request>)
    requires HonoursCandidates(engine)
    requires |Stages(query)| > 1 && FirstContent(ctx, now, Stages(query)) < |Stages(query)|
    requires SearchPlan(engine, ctx, readOnly, now, query).Ran(engine, r, before, after, limit)
    requires r.Ok? && r.value != []
    ensures var items := FileResults(engine, ctx, now, Rejoin(Stages(query)[..|Stages(query)| - 1]));
            items.Some? && forall hit | hit in r.value :: IsResultOf(engine, items.value, hit.fileId)
  {
    hide FileResults, CandidateIds, Stages, Parse, Rejoin, FirstContent, TextHits;
    var plan := SearchPlan(engine, ctx, readOnly, now, query);
    assert plan.Ask?;
    StagedSearchAsks(engine, ctx, readOnly, now, query);
    var items := FileResults(engine, ctx, now, Rejoin(Stages(query)[..|Stages(query)| - 1])).value;
    CandidateMembers(engine, items);
    var request := Request(engine.compose(plan.text), plan.ids);
    var hits := engine.searchContent.value(request).value;
    TextHitsMembers(engine, hits);
    forall hit | hit in r.value
      ensures IsResultOf(engine, items, hit.fileId)
    {
      assert hit in TextHits(engine, hits);
      assert hit.fileId in plan.ids;
    }
  }

  /** Direct content searches with constraints on files: the candidates are the files the
      constraints want, provided the date bounds are midnights. */
  lemma ConstraintsSelectCandidates(engine: Engine, ctx: Context, now: int, query: string)
    requires BoundsAreMidnights(ctx.cal, Parse(ctx, now, query).modified)
    ensures var constraints := ConstraintFilter(Parse(ctx, now, query));
            match FileResults(engine, ctx, now, Compile(ctx, constraints))
            case None => true
            case Some(items) => forall x | x in items :: Wanted(engine, constraints, x)
  {
    hide Parse, Compile, Wanted, FileResults, BoundsAreMidnights;
    var constraints := ConstraintFilter(Parse(ctx, now, query));
    var compiled := Compile(ctx, constraints);
    ConstraintsRoundTrip(ctx, now, query, now);
    var at := FileResultsAreWanted(engine, ctx, now, compiled);
    var items := FileResults(engine, ctx, now, compiled);
    if items.Some? {
      forall x | x in items.value
        ensures Wanted(engine, constraints, x)
      {
        var k :| 0 <= k < |items.value| && items.value[k] == x;
        assert at[k] in at;
      }
    }
  }
}
