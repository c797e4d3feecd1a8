/** The query language of the search box: splitting at `/;`, classifying words,
    building a filter, and compiling a filter back into a query.

    Local time is a parameter.  Nothing is assumed about it: the program checks every
    date it converts by converting it back, and that check is part of the model.
  */
module SearchDialect {

  import opened Results
  import opened Text

  // ----- Splitting at /; -----

  predicate SeparatorAt(s: string, i: nat) {
    i + 1 < |s| && s[i] == '/' && s[i + 1] == ';'
  }

  ghost predicate HasSeparator(s: string) {
    exists i: nat :: SeparatorAt(s, i)
  }

  /** The position of the first `/;` at or after `start`, or the length. */
  function FindSeparator(s: string, start: nat): (pos: nat)
    requires start <= |s|
    ensures start <= pos <= |s|
    ensures pos < |s| ==> SeparatorAt(s, pos)
    ensures forall i | start <= i < pos :: !SeparatorAt(s, i)
    ensures pos == |s| ==> forall i: nat | start <= i :: !SeparatorAt(s, i)
    decreases |s| - start
  {
    if start == |s| then start
    else if SeparatorAt(s, start) then start
    else FindSeparator(s, start + 1)
  }

  /** The trimmed pieces between separators, from `start` on. */
  function StagesFrom(query: string, start: nat): (stages: seq<string>)
    requires start <= |query|
    ensures |stages| > 0
    decreases |query| - start
  {
    var pos := FindSeparator(query, start);
    if pos == |query| then [Trim(query[start..])]
    else [Trim(query[start..pos])] + StagesFrom(query, pos + 2)
  }

  function Stages(query: string): (stages: seq<string>)
    ensures |stages| > 0
  {
    StagesFrom(query, 0)
  }

  datatype DetailSearch = DetailSearch(primary: string, refinements: seq<string>, active: bool)

  method SplitDetail(query: string) returns (out: DetailSearch)
    ensures out == DetailSearch(Stages(query)[0], Stages(query)[1..], |Stages(query)| > 1)
  {
    hide FindSeparator, StagesFrom, Trim;
    var start, first := 0, true;
    var primary: string := "";
    var refinements: seq<string> := [];
    while true
      invariant 0 <= start <= |query|
      invariant first ==> start == 0 && refinements == []
      invariant !first ==> [primary] + refinements + StagesFrom(query, start) == Stages(query)
      decreases |query| - start
    {
      StagesStep(query, start);
      var pos := FindSeparator(query, start);
      var part := TrimAscii(query[start..pos]);
      assert query[start..|query|] == query[start..];
      if first {
        primary := part;
        first := false;
      } else {
        assert [primary] + (refinements + [part]) == [primary] + refinements + [part];
        refinements := refinements + [part];
      }
      if pos == |query| {
        assert [primary] + refinements == Stages(query);
        break;
      }
      start := pos + 2;
    }
    out := DetailSearch(primary, refinements, refinements != []);
  }

  lemma SliceHasNoSeparator(s: string, a: nat, b: nat)
    requires a <= b <= |s| && forall i | a <= i < b :: !SeparatorAt(s, i) || i + 1 >= b
    ensures !HasSeparator(s[a..b])
  {
    forall i: nat
      ensures !SeparatorAt(s[a..b], i)
    {
      if SeparatorAt(s[a..b], i) {
        assert s[a..b][i] == s[a + i] && s[a..b][i + 1] == s[a + i + 1];
        assert SeparatorAt(s, a + i);
      }
    }
  }

  lemma TrimHasNoSeparator(s: string)
    requires !HasSeparator(s)
    ensures !HasSeparator(Trim(s))
  {
    var a, b := TrimIsSlice(s);
    SliceHasNoSeparator(s, a, b);
  }

  /** Stages are trimmed and contain no separator. */
  predicate IsStage(s: string) {
    IsTrimmed(s) && forall i | 0 <= i < |s| :: !SeparatorAt(s, i)
  }

  lemma StageOfSlice(s: string)
    requires !HasSeparator(s)
    ensures IsStage(Trim(s))
  {
    TrimIsTrimmed(s);
    TrimHasNoSeparator(s);
  }

  lemma {:induction false} StagesAreStages(query: string, start: nat)
    requires start <= |query|
    ensures forall s | s in StagesFrom(query, start) :: IsStage(s)
    decreases |query| - start
  {
    hide IsStage, Trim;
    var pos := FindSeparator(query, start);
    SliceHasNoSeparator(query, start, pos);
    StageOfSlice(query[start..pos]);
    assert query[start..|query|] == query[start..];
    if pos < |query| {
      StagesAreStages(query, pos + 2);
    }
  }

  /** A query without separators is a single stage. */
  lemma OneStage(query: string)
    requires !HasSeparator(query)
    ensures Stages(query) == [Trim(query)]
  {
    var pos := FindSeparator(query, 0);
    assert query[0..] == query;
  }

  /** No `/` is followed by a `;`. */
  ghost predicate NoPair(s: string) {
    forall i | 0 < i < |s| :: !(s[i - 1] == '/' && s[i] == ';')
  }

  /** What splitting means: text without a separator is one trimmed stage, and the first
      separator ends the first stage. */
  lemma SplitAtSeparator(a: string, b: string)
    requires NoPair(a)
    ensures Stages(a) == [Trim(a)]
    ensures Stages(a + "/;" + b) == [Trim(a)] + Stages(b)
  {
    hide Trim;
    assert !HasSeparator(a) by {
      forall i: nat
        ensures !SeparatorAt(a, i)
      {
        assert i + 1 < |a| ==> !(a[i + 1 - 1] == '/' && a[i + 1] == ';');
      }
    }
    OneStage(a);
    FirstPair(a, b);
    var w := a + "/;" + b;
    StagesStep(w, 0);
    assert w[0..|a|] == a && w == (a + "/;") + b;
    StagesShift(a + "/;", b, 0);
  }

  lemma FirstPair(a: string, b: string)
    requires NoPair(a)
    ensures FindSeparator(a + "/;" + b, 0) == |a|
  {
    var w := a + "/;" + b;
    assert SeparatorAt(w, |a|);
    forall i: nat | i < |a|
      ensures !SeparatorAt(w, i)
    {
      assert w[i] == a[i] && w[i + 1] == if i + 1 < |a| then a[i + 1] else '/';
      assert i + 1 < |a| ==> !(a[i + 1 - 1] == '/' && a[i + 1] == ';');
    }
  }

  /** How a staged plan puts stages together again. */
  function Rejoin(stages: seq<string>): string
    requires stages != []
  {
    if |stages| == 1 then stages[0] else Rejoin(stages[..|stages| - 1]) + " /; " + stages[|stages| - 1]
  }

  /** The same from the front. */
  function RejoinFront(stages: seq<string>): string
    requires stages != []
  {
    if |stages| == 1 then stages[0] else stages[0] + " /; " + RejoinFront(stages[1..])
  }

  lemma {:induction false} RejoinBothWays(stages: seq<string>)
    requires stages != []
    ensures Rejoin(stages) == RejoinFront(stages)
    decreases |stages|
  {
    if |stages| == 2 {
      assert stages[..1] == [stages[0]] && stages[1..] == [stages[1]];
    } else if |stages| > 2 {
      var front, tail := stages[..|stages| - 1], stages[1..];
      RejoinBothWays(front);
      RejoinBothWays(tail);
      RejoinBothWays(front[1..]);
      assert front[1..] == tail[..|tail| - 1] && tail[|tail| - 1] == stages[|stages| - 1];
      assert Rejoin(stages) == stages[0] + " /; " + RejoinFront(front[1..]) + " /; " + stages[|stages| - 1];
      assert RejoinFront(stages) == stages[0] + " /; " + (Rejoin(front[1..]) + " /; " + stages[|stages| - 1]);
    }
  }

  lemma {:induction false} FindSeparatorShift(prefix: string, s: string, start: nat)
    requires start <= |s|
    ensures FindSeparator(prefix + s, |prefix| + start) == |prefix| + FindSeparator(s, start)
    decreases |s| - start
  {
    var w := prefix + s;
    if start < |s| {
      assert SeparatorAt(w, |prefix| + start) <==> SeparatorAt(s, start);
      FindSeparatorShift(prefix, s, start + 1);
    }
  }

  lemma StagesStep(query: string, start: nat)
    requires start <= |query|
    ensures var pos := FindSeparator(query, start);
            StagesFrom(query, start)
            == if pos == |query| then [Trim(query[start..])] else [Trim(query[start..pos])] + StagesFrom(query, pos + 2)
  {
    hide Trim;
  }

  lemma {:induction false} StagesShift(prefix: string, s: string, start: nat)
    requires start <= |s|
    ensures StagesFrom(prefix + s, |prefix| + start) == StagesFrom(s, start)
    decreases |s| - start
  {
    hide FindSeparator, Trim, StagesFrom;
    var w, pos := prefix + s, FindSeparator(s, start);
    StagesStep(s, start);
    StagesStep(w, |prefix| + start);
    FindSeparatorShift(prefix, s, start);
    assert w[|prefix| + start..|prefix| + pos] == s[start..pos];
    assert w[|prefix| + start..] == s[start..];
    if pos < |s| {
      StagesShift(prefix, s, pos + 2);
    }
  }

  /** The first separator of a stage followed by ` /; ` is the one that was added. */
  lemma FirstAdded(stage: string, pad: string, rest: string)
    requires IsStage(stage) && (pad == "" || pad == " ")
    ensures FindSeparator(pad + stage + " /; " + rest, 0) == |pad| + |stage| + 1
  {
    hide Trim, SeparatorAt, FindSeparator;
    var w := pad + stage + " /; " + rest;
    var at := |pad| + |stage| + 1;
    FirstAddedChars(stage, pad, rest);
    forall i: nat | i < at
      ensures !SeparatorAt(w, i)
    {
      if |pad| <= i && i + 1 < at - 1 {
        assert !SeparatorAt(stage, i - |pad|);
      }
    }
    FindFirst(w, at);
  }

  lemma FirstAddedChars(stage: string, pad: string, rest: string)
    requires pad == "" || pad == " "
    ensures var w, at := pad + stage + " /; " + rest, |pad| + |stage| + 1;
            && SeparatorAt(w, at)
            && forall i: nat | i < at ::
                 SeparatorAt(w, i) <==> |pad| <= i && i + 1 < at - 1 && SeparatorAt(stage, i - |pad|)
  {
    var w, at := pad + stage + " /; " + rest, |pad| + |stage| + 1;
    assert w[at - 1] == ' ' && w[at] == '/' && w[at + 1] == ';' && (pad != "" ==> w[0] == ' ');
    assert forall k | 0 <= k < |stage| :: w[|pad| + k] == stage[k];
  }

  lemma FindFirst(s: string, at: nat)
    requires SeparatorAt(s, at) && forall i: nat | i < at :: !SeparatorAt(s, i)
    ensures FindSeparator(s, 0) == at
  {
    hide SeparatorAt;
  }

  /** Splitting the rejoined stages gives the same stages. */
  lemma SplitRejoined(stages: seq<string>)
    requires stages != [] && forall s | s in stages :: IsStage(s)
    ensures Stages(Rejoin(stages)) == stages
  {
    RejoinBothWays(stages);
    SplitPadded("", stages);
    assert "" + RejoinFront(stages) == RejoinFront(stages);
  }

  lemma {:induction false} SplitPadded(pad: string, stages: seq<string>)
    requires stages != [] && (forall s | s in stages :: IsStage(s)) && (pad == "" || pad == " ")
    ensures StagesFrom(pad + RejoinFront(stages), 0) == stages
    decreases |stages|
  {
    hide IsStage, StagesFrom, RejoinFront;
    var stage := stages[0];
    assert stage in stages && forall s | s in stages[1..] :: s in stages;
    RejoinStep(stages);
    if |stages| == 1 {
      LastPadded(pad, stage);
    } else {
      FirstPadded(pad, stage, RejoinFront(stages[1..]));
      SplitPadded(" ", stages[1..]);
    }
    assert stages == [stage] + stages[1..];
  }

  lemma FirstPadded(pad: string, stage: string, tail: string)
    requires IsStage(stage) && (pad == "" || pad == " ")
    ensures StagesFrom(pad + (stage + " /; " + tail), 0) == [stage] + StagesFrom(" " + tail, 0)
  {
    hide IsStage, FindSeparator, Trim, StagesFrom, SeparatorAt;
    var w := pad + stage + " /; " + tail;
    assert pad + (stage + " /; " + tail) == w;
    StagesStep(w, 0);
    FirstAdded(stage, pad, tail);
    var pos := |pad| + |stage| + 1;
    assert w[0..pos] == pad + stage + " ";
    TrimPaddedStage(pad, stage, " ");
    var head := w[..pos + 2];
    assert w == head + (" " + tail);
    StagesShift(head, " " + tail, 0);
  }

  lemma LastPadded(pad: string, stage: string)
    requires IsStage(stage) && (pad == "" || pad == " ")
    ensures StagesFrom(pad + stage, 0) == [stage]
  {
    hide IsStage, FindSeparator, Trim, StagesFrom;
    var w := pad + stage;
    StagesStep(w, 0);
    NoneAdded(pad, stage);
    TrimPaddedStage(pad, stage, "");
    assert w[0..] == w && pad + stage + "" == w;
  }

  lemma RejoinStep(stages: seq<string>)
    requires stages != []
    ensures RejoinFront(stages) == if |stages| == 1 then stages[0] else stages[0] + " /; " + RejoinFront(stages[1..])
  {
  }

  lemma TrimPaddedStage(pad: string, stage: string, after: string)
    requires IsStage(stage) && (pad == "" || pad == " ") && (after == "" || after == " ")
    ensures Trim(pad + stage + after) == stage
  {
    TrimPadded(stage, pad, after);
  }

  lemma NoneAdded(pad: string, stage: string)
    requires IsStage(stage) && (pad == "" || pad == " ")
    ensures FindSeparator(pad + stage, 0) == |pad + stage|
  {
    var w := pad + stage;
    assert pad != "" ==> w[0] == ' ';
    assert forall k | 0 <= k < |stage| :: w[|pad| + k] == stage[k];
    forall i: nat
      ensures !SeparatorAt(w, i)
    {
      if |pad| <= i && i + 1 < |w| {
        assert SeparatorAt(w, i) <==> SeparatorAt(stage, i - |pad|);
      }
    }
    var pos := FindSeparator(w, 0);
  }
}
