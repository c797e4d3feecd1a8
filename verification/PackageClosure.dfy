/** The packages an offline bundle needs: a worklist over the installed packages. */
module PackageClosure {

  import opened Results

  // ----- Installed packages -----

  /** One line of the package query; `architecture` is empty when it is not shown. */
  datatype Line = Line(package: string, architecture: string, virtuals: seq<string>, installed: bool) {
    function Binary(): string {
      if architecture == "" then package else package + ":" + architecture
    }

    predicate Valid() {
      ':' !in package
    }
  }

  /** From names, real and virtual, to the installed binary package that provides them. */
  type Table = map<string, string>

  /** The package of a binary package name: the part before the architecture. */
  function PackageOf(binary: string): (p: string)
    ensures ':' !in p
    ensures ':' !in binary ==> p == binary
  {
    if binary == "" || binary[0] == ':' then "" else [binary[0]] + PackageOf(binary[1..])
  }

  lemma {:induction false} PackageOfBinary(p: string, rest: string)
    requires ':' !in p && (rest == "" || rest[0] == ':')
    ensures PackageOf(p + rest) == p
  {
    if p == "" {
      assert p + rest == rest;
    } else {
      assert p[0] in p && (p + rest)[1..] == p[1..] + rest;
      PackageOfBinary(p[1..], rest);
    }
  }

  lemma LinePackage(line: Line)
    requires line.Valid()
    ensures PackageOf(line.Binary()) == line.package
    ensures ':' !in line.Binary() ==> line.Binary() == line.package
  {
    if line.architecture != "" {
      assert line.package + ":" + line.architecture == line.package + (":" + line.architecture);
      PackageOfBinary(line.package, ":" + line.architecture);
      assert line.Binary()[|line.package|] == ':';
    }
  }

  /** A virtual name keeps the first provider it got. */
  function AddProvided(t: Table, names: seq<string>, binary: string): Table {
    if names == [] then t
    else
      var front := AddProvided(t, names[..|names| - 1], binary);
      var name := names[|names| - 1];
      if name == "" || name in front then front else front[name := binary]
  }

  function AddLine(t: Table, line: Line): Table {
    if !line.installed then t
    else AddProvided(t[line.package := line.Binary()][line.Binary() := line.Binary()], line.virtuals, line.Binary())
  }

  function TableOf(lines: seq<Line>): Table {
    if lines == [] then map[] else AddLine(TableOf(lines[..|lines| - 1]), lines[|lines| - 1])
  }

  method InstalledPackages(lines: seq<Line>) returns (result: Table)
    ensures result == TableOf(lines)
  {
    result := map[];
    for i := 0 to |lines|
      invariant result == TableOf(lines[..i])
    {
      assert lines[..i + 1][..i] == lines[..i];
      var line := lines[i];
      if !line.installed {
        continue;
      }
      var binary := line.Binary();
      result := result[line.package := binary];
      result := result[binary := binary];
      ghost var start := result;
      for j := 0 to |line.virtuals|
        invariant result == AddProvided(start, line.virtuals[..j], binary)
      {
        assert line.virtuals[..j + 1][..j] == line.virtuals[..j];
        if line.virtuals[j] != "" && line.virtuals[j] !in result {
          result := result[line.virtuals[j] := binary];
        }
      }
      assert line.virtuals[..|line.virtuals|] == line.virtuals;
    }
    assert lines[..|lines|] == lines;
  }

  /** The package of every provider is itself a name, provided by that package. */
  ghost predicate Consistent(t: Table) {
    forall n :: n in t ==> PackageOf(t[n]) in t && PackageOf(t[PackageOf(t[n])]) == PackageOf(t[n])
  }

  lemma {:induction false} ProvidedConsistent(t: Table, names: seq<string>, binary: string)
    requires Consistent(t) && PackageOf(binary) in t && PackageOf(t[PackageOf(binary)]) == PackageOf(binary)
    ensures Consistent(AddProvided(t, names, binary))
    ensures forall n :: n in t ==> n in AddProvided(t, names, binary) && AddProvided(t, names, binary)[n] == t[n]
  {
    hide PackageOf;
    if names != [] {
      ProvidedConsistent(t, names[..|names| - 1], binary);
    }
  }

  lemma LineConsistent(t: Table, line: Line)
    requires Consistent(t) && line.Valid()
    ensures Consistent(AddLine(t, line))
  {
    hide PackageOf;
    var b := line.Binary();
    LinePackage(line);
    var named := t[line.package := b][b := b];
    assert Consistent(named) && PackageOf(named[line.package]) == line.package;
    ProvidedConsistent(named, line.virtuals, b);
  }

  lemma {:induction false} TableConsistent(lines: seq<Line>)
    requires forall line | line in lines :: line.Valid()
    ensures Consistent(TableOf(lines))
  {
    hide AddLine;
    if lines != [] {
      var front, last := lines[..|lines| - 1], lines[|lines| - 1];
      assert last in lines && forall line | line in front :: line in lines;
      TableConsistent(front);
      LineConsistent(TableOf(front), last);
    }
  }

  // ----- The worklist -----

  /** The alternatives of every dependency group of a binary package. */
  type Dependencies = string -> seq<seq<string>>

  function FirstInstalled(t: Table, alternatives: seq<string>): Option<string> {
    if alternatives == [] then None
    else if alternatives[0] in t then Some(t[alternatives[0]])
    else FirstInstalled(t, alternatives[1..])
  }

  function PushGroups(t: Table, groups: seq<seq<string>>, resolved: set<string>, stack: seq<string>): Option<seq<string>> {
    if groups == [] then Some(stack)
    else
      var front :- PushGroups(t, groups[..|groups| - 1], resolved, stack);
      var chosen :- FirstInstalled(t, groups[|groups| - 1]);
      Some(if PackageOf(chosen) in resolved then front else front + [PackageOf(chosen)])
  }

  function Packages(t: Table): set<string> {
    set n | n in t :: PackageOf(t[n])
  }

  lemma LessLeft(all: set<string>, resolved: set<string>, p: string)
    requires p in all && p !in resolved
    ensures |all - (resolved + {p})| < |all - resolved|
  {
    assert all - resolved == (all - (resolved + {p})) + {p};
  }

  /** None is the abort of the program. */
  function Work(t: Table, deps: Dependencies, stack: seq<string>, resolved: set<string>): Option<set<string>>
    decreases |Packages(t) - resolved|, |stack|
  {
    if stack == [] then Some(resolved)
    else
      var requested, rest := stack[|stack| - 1], stack[..|stack| - 1];
      if requested !in t then None
      else
        var p := PackageOf(t[requested]);
        if p in resolved then Work(t, deps, rest, resolved)
        else
          var next :- PushGroups(t, deps(t[requested]), resolved + {p}, rest);
          LessLeft(Packages(t), resolved, p);
          Work(t, deps, next, resolved + {p})
  }

  method ResolveClosure(t: Table, deps: Dependencies, roots: seq<string>) returns (r: Option<set<string>>)
    ensures r == Work(t, deps, roots, {})
  {
    hide PackageOf, PushGroups, FirstInstalled;
    var resolved: set<string> := {};
    var stack := roots;
    while stack != []
      invariant Work(t, deps, stack, resolved) == Work(t, deps, roots, {})
      decreases |Packages(t) - resolved|, |stack|
    {
      var requested := stack[|stack| - 1];
      stack := stack[..|stack| - 1];
      if requested !in t {
        return None;
      }
      var binary := t[requested];
      var package := PackageOf(binary);
      if package in resolved {
        continue;
      }
      LessLeft(Packages(t), resolved, package);
      resolved := resolved + {package};
      var next := PushDependencies(t, deps(binary), resolved, stack);
      if next.None? {
        return None;
      }
      stack := next.value;
    }
    r := Some(resolved);
  }

  method PushDependencies(t: Table, groups: seq<seq<string>>, resolved: set<string>, stack: seq<string>) returns (next: Option<seq<string>>)
    ensures next == PushGroups(t, groups, resolved, stack)
  {
    hide PackageOf, FirstInstalled;
    var pushed := stack;
    assert groups[..0] == [];
    for i := 0 to |groups|
      invariant PushGroups(t, groups[..i], resolved, stack) == Some(pushed)
    {
      var chosen := ChooseInstalled(t, groups[i]);
      PushStep(t, groups, i, resolved, stack);
      PushFails(t, groups, i + 1, resolved, stack);
      if chosen.None? {
        return None;
      }
      if PackageOf(chosen.value) !in resolved {
        pushed := pushed + [PackageOf(chosen.value)];
      }
    }
    assert groups[..|groups|] == groups;
    next := Some(pushed);
  }

  method ChooseInstalled(t: Table, alternatives: seq<string>) returns (chosen: Option<string>)
    ensures chosen == FirstInstalled(t, alternatives)
  {
    chosen := None;
    assert alternatives[0..] == alternatives;
    for i := 0 to |alternatives|
      invariant FirstInstalled(t, alternatives) == FirstInstalled(t, alternatives[i..])
    {
      assert alternatives[i..][1..] == alternatives[i + 1..];
      if alternatives[i] in t {
        return Some(t[alternatives[i]]);
      }
    }
  }

  lemma PushStep(t: Table, groups: seq<seq<string>>, i: nat, resolved: set<string>, stack: seq<string>)
    requires i < |groups| && PushGroups(t, groups[..i], resolved, stack).Some?
    ensures var front, chosen := PushGroups(t, groups[..i], resolved, stack).value, FirstInstalled(t, groups[i]);
            PushGroups(t, groups[..i + 1], resolved, stack)
            == if chosen.None? then None
               else Some(if PackageOf(chosen.value) in resolved then front else front + [PackageOf(chosen.value)])
  {
    hide PackageOf, FirstInstalled;
    assert groups[..i + 1][..i] == groups[..i];
  }

  lemma {:induction false} PushFails(t: Table, groups: seq<seq<string>>, n: nat, resolved: set<string>, stack: seq<string>)
    requires n <= |groups|
    ensures PushGroups(t, groups[..n], resolved, stack).None? ==> PushGroups(t, groups, resolved, stack).None?
    decreases |groups| - n
  {
    hide PackageOf, FirstInstalled;
    if n == |groups| {
      assert groups[..n] == groups;
    } else {
      assert groups[..n + 1][..n] == groups[..n];
      PushFails(t, groups, n + 1, resolved, stack);
    }
  }

  // ----- The closure -----

  /** `binary` provides the alternative at `i`, and no earlier one is installed. */
  ghost predicate FirstAt(t: Table, alternatives: seq<string>, i: nat, binary: string) {
    && i < |alternatives| && alternatives[i] in t && t[alternatives[i]] == binary
    && forall j | 0 <= j < i :: alternatives[j] !in t
  }

  ghost predicate FirstProvider(t: Table, alternatives: seq<string>, binary: string) {
    exists i: nat :: FirstAt(t, alternatives, i, binary)
  }

  ghost predicate NoProvider(t: Table, alternatives: seq<string>) {
    forall i | 0 <= i < |alternatives| :: alternatives[i] !in t
  }

  /** The search finds the provider of the first installed alternative, if there is one. */
  lemma {:induction false} FirstInstalledIsFirst(t: Table, g: seq<string>)
    ensures FirstInstalled(t, g).None? <==> NoProvider(t, g)
    ensures forall b :: FirstInstalled(t, g) == Some(b) <==> FirstProvider(t, g, b)
  {
    if g != [] {
      var tail := g[1..];
      if g[0] in t {
        assert FirstAt(t, g, 0, t[g[0]]);
      } else {
        FirstInstalledIsFirst(t, tail);
        forall b
          ensures FirstProvider(t, g, b) <==> FirstProvider(t, tail, b)
        {
          if i: nat :| FirstAt(t, g, i, b) {
            assert FirstAt(t, tail, i - 1, b);
          }
          if i: nat :| FirstAt(t, tail, i, b) {
            assert FirstAt(t, g, i + 1, b);
          }
        }
        assert NoProvider(t, tail) ==> NoProvider(t, g) by {
          assert forall i | 0 < i < |g| :: g[i] == tail[i - 1];
        }
      }
    }
  }

  lemma FirstIsProvider(t: Table)
    ensures forall g :: FirstInstalled(t, g).None? <==> NoProvider(t, g)
    ensures forall g, b :: FirstInstalled(t, g) == Some(b) <==> FirstProvider(t, g, b)
  {
    hide FirstInstalled, FirstProvider, NoProvider;
    forall g
      ensures FirstInstalled(t, g).None? <==> NoProvider(t, g)
      ensures forall b :: FirstInstalled(t, g) == Some(b) <==> FirstProvider(t, g, b)
    {
      FirstInstalledIsFirst(t, g);
    }
  }

  /** A set with the package of every installed root, closed under the package of the
      first installed alternative of every dependency group. */
  ghost predicate Closed(t: Table, deps: Dependencies, roots: seq<string>, s: set<string>) {
    && (forall r :: r in roots && r in t ==> PackageOf(t[r]) in s)
    && (forall p, g, b :: p in s && p in t && g in deps(t[p]) && FirstProvider(t, g, b) ==> PackageOf(b) in s)
  }

  /** In every such set. */
  ghost predicate Needed(t: Table, deps: Dependencies, roots: seq<string>, p: string) {
    forall s :: Closed(t, deps, roots, s) ==> p in s
  }

  ghost predicate Unsatisfied(t: Table, deps: Dependencies, p: string) {
    p in t && exists g :: g in deps(t[p]) && NoProvider(t, g)
  }

  /** A root or a dependency group of a needed package has no installed provider. */
  ghost predicate Missing(t: Table, deps: Dependencies, roots: seq<string>) {
    || (exists r :: r in roots && r !in t)
    || (exists p :: Needed(t, deps, roots, p) && Unsatisfied(t, deps, p))
  }

  /** A name that stands for the binary package its package name stands for. */
  predicate Canonical(t: Table, name: string) {
    name in t ==> PackageOf(t[name]) in t && t[PackageOf(t[name])] == t[name]
  }

  ghost predicate SamePackage(t: Table, x: string, y: string) {
    x in t && y in t && PackageOf(t[x]) == PackageOf(t[y])
  }

  /** The name at `i` will meet its package resolved, or is canonical. */
  ghost predicate Decided(t: Table, stack: seq<string>, resolved: set<string>, i: nat) {
    i < |stack| && stack[i] in t ==>
      || Canonical(t, stack[i])
      || PackageOf(t[stack[i]]) in resolved
      || exists j :: i < j < |stack| && SamePackage(t, stack[j], stack[i])
  }

  ghost predicate Pending(t: Table, stack: seq<string>, resolved: set<string>, p: string) {
    p in resolved || exists x :: x in stack && x in t && PackageOf(t[x]) == p
  }

  ghost predicate Expected(t: Table, deps: Dependencies, roots: seq<string>, x: string) {
    if x in t then Needed(t, deps, roots, PackageOf(t[x])) else x in roots
  }

  ghost predicate Settled(t: Table, deps: Dependencies, roots: seq<string>, stack: seq<string>, resolved: set<string>, p: string) {
    && p in t
    && Needed(t, deps, roots, p)
    && forall g :: g in deps(t[p]) ==> FirstInstalled(t, g).Some? && Pending(t, stack, resolved, PackageOf(FirstInstalled(t, g).value))
  }

  ghost predicate Invariant(t: Table, deps: Dependencies, roots: seq<string>, stack: seq<string>, resolved: set<string>) {
    && (forall x :: x in stack ==> Expected(t, deps, roots, x))
    && (forall i: nat :: Decided(t, stack, resolved, i))
    && (forall p :: p in resolved ==> Settled(t, deps, roots, stack, resolved, p))
    && (forall r :: r in roots ==> r in stack || (r in t && PackageOf(t[r]) in resolved))
  }

  lemma NeededNext(t: Table, deps: Dependencies, roots: seq<string>, p: string, g: seq<string>)
    requires Needed(t, deps, roots, p) && p in t && g in deps(t[p]) && FirstInstalled(t, g).Some?
    ensures Needed(t, deps, roots, PackageOf(FirstInstalled(t, g).value))
  {
    hide PackageOf, FirstInstalled, FirstProvider, NoProvider;
    FirstIsProvider(t);
    assert FirstProvider(t, g, FirstInstalled(t, g).value);
  }

  lemma {:induction false} FirstInstalledIsListed(t: Table, g: seq<string>)
    requires FirstInstalled(t, g).Some?
    ensures exists n :: n in t && t[n] == FirstInstalled(t, g).value
  {
    if g[0] !in t {
      FirstInstalledIsListed(t, g[1..]);
    }
  }

  /** What pushing the groups of a package leaves on the stack. */
  lemma {:induction false} PushMeans(t: Table, deps: Dependencies, roots: seq<string>, groups: seq<seq<string>>, resolved: set<string>, stack: seq<string>)
    requires Consistent(t)
    requires forall g :: g in groups && FirstInstalled(t, g).Some? ==> Needed(t, deps, roots, PackageOf(FirstInstalled(t, g).value))
    requires PushGroups(t, groups, resolved, stack).Some?
    ensures var next := PushGroups(t, groups, resolved, stack).value;
            && stack <= next
            && (forall i | |stack| <= i < |next| :: next[i] in t && Expected(t, deps, roots, next[i]) && Canonical(t, next[i]))
            && (forall g :: g in groups ==> FirstInstalled(t, g).Some? && Pending(t, next, resolved, PackageOf(FirstInstalled(t, g).value)))
  {
    hide PackageOf, FirstInstalled, Needed;
    if groups != [] {
      var front, last := groups[..|groups| - 1], groups[|groups| - 1];
      assert forall g :: g in groups <==> g in front || g == last;
      PushMeans(t, deps, roots, front, resolved, stack);
      FirstInstalledIsListed(t, last);
      var p := PackageOf(FirstInstalled(t, last).value);
      var before, next := PushGroups(t, front, resolved, stack).value, PushGroups(t, groups, resolved, stack).value;
      assert last in groups && p in t && PackageOf(t[p]) == p;
      assert p !in resolved ==> next == before + [p] && p in next;
      forall g | g in groups
        ensures FirstInstalled(t, g).Some? && Pending(t, next, resolved, PackageOf(FirstInstalled(t, g).value))
      {
        if g in front {
          assert Pending(t, before, resolved, PackageOf(FirstInstalled(t, g).value));
          assert forall x :: x in before ==> x in next;
        }
      }
    }
  }

  lemma {:induction false} PushFailsMeans(t: Table, groups: seq<seq<string>>, resolved: set<string>, stack: seq<string>)
    requires PushGroups(t, groups, resolved, stack).None?
    ensures exists g :: g in groups && FirstInstalled(t, g).None?
  {
    hide PackageOf, FirstInstalled;
    if groups != [] {
      var last := groups[|groups| - 1];
      assert last in groups;
      if FirstInstalled(t, last).Some? {
        PushFailsMeans(t, groups[..|groups| - 1], resolved, stack);
        var g :| g in groups[..|groups| - 1] && FirstInstalled(t, g).None?;
        assert g in groups;
      }
    }
  }

  ghost predicate Least(t: Table, deps: Dependencies, roots: seq<string>, r: Option<set<string>>) {
    match r
    case None => Missing(t, deps, roots)
    case Some(s) => !Missing(t, deps, roots) && Closed(t, deps, roots, s) && forall u :: Closed(t, deps, roots, u) ==> s <= u
  }

  lemma DoneIsLeast(t: Table, deps: Dependencies, roots: seq<string>, resolved: set<string>)
    requires Invariant(t, deps, roots, [], resolved)
    ensures Least(t, deps, roots, Some(resolved))
  {
    hide PackageOf, FirstInstalled, FirstProvider, NoProvider;
    FirstIsProvider(t);
    assert forall p :: p in resolved ==> Settled(t, deps, roots, [], resolved, p);
    forall p, g | p in resolved && p in t && g in deps(t[p])
      ensures FirstInstalled(t, g).Some? && PackageOf(FirstInstalled(t, g).value) in resolved
    {
      assert Pending(t, [], resolved, PackageOf(FirstInstalled(t, g).value));
    }
    assert Closed(t, deps, roots, resolved);
    assert forall p :: Needed(t, deps, roots, p) ==> p in resolved;
    assert forall p :: p in resolved ==> !Unsatisfied(t, deps, p);
  }

  /** Taking the last name away keeps the others decided when its package is resolved. */
  lemma SkipDecided(t: Table, stack: seq<string>, resolved: set<string>, grown: set<string>, next: seq<string>)
    requires stack != [] && stack[|stack| - 1] in t && PackageOf(t[stack[|stack| - 1]]) in grown && resolved <= grown
    requires stack[..|stack| - 1] <= next && forall i | |stack| - 1 <= i < |next| :: Canonical(t, next[i])
    requires forall i: nat :: Decided(t, stack, resolved, i)
    ensures forall i: nat :: Decided(t, next, grown, i)
  {
    hide PackageOf, Canonical;
    forall i: nat | i < |stack| - 1
      ensures Decided(t, next, grown, i)
    {
      assert stack[i] == next[i] && Decided(t, stack, resolved, i);
      if j :| i < j < |stack| && SamePackage(t, stack[j], stack[i]) {
        assert j < |stack| - 1 ==> next[j] == stack[j];
      }
    }
  }

  lemma SkipKeeps(t: Table, deps: Dependencies, roots: seq<string>, stack: seq<string>, resolved: set<string>)
    requires stack != [] && Invariant(t, deps, roots, stack, resolved)
    requires stack[|stack| - 1] in t && PackageOf(t[stack[|stack| - 1]]) in resolved
    ensures Invariant(t, deps, roots, stack[..|stack| - 1], resolved)
  {
    hide PackageOf, FirstInstalled, Needed, Canonical;
    SkipDecided(t, stack, resolved, resolved, stack[..|stack| - 1]);
    var rest, last := stack[..|stack| - 1], stack[|stack| - 1];
    assert forall x :: x in stack <==> x in rest || x == last;
    forall p | p in resolved
      ensures Settled(t, deps, roots, rest, resolved, p)
    {
      assert Settled(t, deps, roots, stack, resolved, p);
      forall g | g in deps(t[p])
        ensures Pending(t, rest, resolved, PackageOf(FirstInstalled(t, g).value))
      {
        assert Pending(t, stack, resolved, PackageOf(FirstInstalled(t, g).value));
      }
    }
  }

  lemma ResolveKeeps(t: Table, deps: Dependencies, roots: seq<string>, stack: seq<string>, resolved: set<string>)
    requires stack != [] && Invariant(t, deps, roots, stack, resolved) && Consistent(t)
    requires var requested := stack[|stack| - 1];
             requested in t && PackageOf(t[requested]) !in resolved && PushGroups(t, deps(t[requested]), resolved + {PackageOf(t[requested])}, stack[..|stack| - 1]).Some?
    ensures var p := PackageOf(t[stack[|stack| - 1]]);
            Invariant(t, deps, roots, PushGroups(t, deps(t[stack[|stack| - 1]]), resolved + {p}, stack[..|stack| - 1]).value, resolved + {p})
  {
    hide PackageOf, FirstInstalled, Needed, PushGroups;
    var rest, requested := stack[..|stack| - 1], stack[|stack| - 1];
    assert forall x :: x in stack <==> x in rest || x == requested;
    var p := PackageOf(t[requested]);
    assert Expected(t, deps, roots, requested);
    assert Decided(t, stack, resolved, |stack| - 1);
    var groups, grown := deps(t[p]), resolved + {p};
    forall g | g in groups && FirstInstalled(t, g).Some?
      ensures Needed(t, deps, roots, PackageOf(FirstInstalled(t, g).value))
    {
      NeededNext(t, deps, roots, p, g);
    }
    PushMeans(t, deps, roots, groups, grown, rest);
    var next := PushGroups(t, groups, grown, rest).value;
    assert forall x :: x in rest ==> x in next;
    SkipDecided(t, stack, resolved, grown, next);
    forall x | x in next
      ensures Expected(t, deps, roots, x)
    {
      var i :| 0 <= i < |next| && next[i] == x;
      assert i < |rest| ==> x in rest;
    }
    forall q | q in grown
      ensures Settled(t, deps, roots, next, grown, q)
    {
      if q != p {
        assert Settled(t, deps, roots, stack, resolved, q);
        forall g | g in deps(t[q])
          ensures Pending(t, next, grown, PackageOf(FirstInstalled(t, g).value))
        {
          assert Pending(t, stack, resolved, PackageOf(FirstInstalled(t, g).value));
        }
      }
    }
  }

  lemma {:induction false} WorkIsLeast(t: Table, deps: Dependencies, roots: seq<string>, stack: seq<string>, resolved: set<string>)
    requires Consistent(t) && Invariant(t, deps, roots, stack, resolved)
    ensures Least(t, deps, roots, Work(t, deps, stack, resolved))
    decreases |Packages(t) - resolved|, |stack|
  {
    hide PackageOf, FirstInstalled, PushGroups, Invariant, Consistent, Least, Closed, Needed, Missing;
    if stack == [] {
      DoneIsLeast(t, deps, roots, resolved);
    } else {
      var requested, rest := stack[|stack| - 1], stack[..|stack| - 1];
      assert requested in stack;
      LastIsExpected(t, deps, roots, stack, resolved);
      if requested !in t {
        MissingRoot(t, deps, roots, requested);
      } else {
        var p := PackageOf(t[requested]);
        if p in resolved {
          SkipKeeps(t, deps, roots, stack, resolved);
          WorkIsLeast(t, deps, roots, rest, resolved);
        } else {
          var next := PushGroups(t, deps(t[requested]), resolved + {p}, rest);
          LessLeft(Packages(t), resolved, p);
          if next.Some? {
            ResolveKeeps(t, deps, roots, stack, resolved);
            WorkIsLeast(t, deps, roots, next.value, resolved + {p});
          } else {
            PushFailsMeans(t, deps(t[requested]), resolved + {p}, rest);
            MissingGroup(t, deps, roots, p);
          }
        }
      }
    }
  }

  lemma LastIsExpected(t: Table, deps: Dependencies, roots: seq<string>, stack: seq<string>, resolved: set<string>)
    requires stack != [] && Invariant(t, deps, roots, stack, resolved)
    ensures var r := stack[|stack| - 1];
            Expected(t, deps, roots, r) && (r in t && PackageOf(t[r]) !in resolved ==> PackageOf(t[r]) in t && t[PackageOf(t[r])] == t[r])
  {
    assert stack[|stack| - 1] in stack && Decided(t, stack, resolved, |stack| - 1);
  }

  lemma MissingRoot(t: Table, deps: Dependencies, roots: seq<string>, r: string)
    requires r in roots && r !in t
    ensures Least(t, deps, roots, None)
  {
  }

  lemma MissingGroup(t: Table, deps: Dependencies, roots: seq<string>, p: string)
    requires Needed(t, deps, roots, p) && p in t && exists g :: g in deps(t[p]) && FirstInstalled(t, g).None?
    ensures Least(t, deps, roots, None)
  {
    hide PackageOf, FirstInstalled, Needed, FirstProvider, NoProvider;
    FirstIsProvider(t);
    assert Unsatisfied(t, deps, p);
  }

  // ----- When the closure is the least one -----

  /** For every package among the roots, the last root with that package stands for the
      binary package that the package name itself stands for. */
  ghost predicate LastAreCanonical(t: Table, roots: seq<string>) {
    forall i: nat :: LastOfPackage(t, roots, i) ==> Canonical(t, roots[i])
  }

  ghost predicate LastOfPackage(t: Table, roots: seq<string>, i: nat) {
    i < |roots| && roots[i] in t && forall j | i < j < |roots| :: !SamePackage(t, roots[j], roots[i])
  }

  ghost predicate SomeRootMissing(t: Table, roots: seq<string>) {
    exists r :: r in roots && r !in t
  }

  lemma {:induction false} PushKeepsStack(t: Table, groups: seq<seq<string>>, resolved: set<string>, stack: seq<string>)
    requires PushGroups(t, groups, resolved, stack).Some?
    ensures stack <= PushGroups(t, groups, resolved, stack).value
  {
    hide PackageOf, FirstInstalled;
    if groups != [] {
      PushKeepsStack(t, groups[..|groups| - 1], resolved, stack);
    }
  }

  lemma {:induction false} MissingAborts(t: Table, deps: Dependencies, stack: seq<string>, resolved: set<string>, r: string)
    requires r in stack && r !in t
    ensures Work(t, deps, stack, resolved).None?
    decreases |Packages(t) - resolved|, |stack|
  {
    hide PackageOf, PushGroups, Work;
    WorkStep(t, deps, stack, resolved);
    var requested, rest := stack[|stack| - 1], stack[..|stack| - 1];
    assert stack == rest + [requested];
    if requested in t {
      var p := PackageOf(t[requested]);
      if p in resolved {
        MissingAborts(t, deps, rest, resolved, r);
      } else {
        var next := PushGroups(t, deps(t[requested]), resolved + {p}, rest);
        LessLeft(Packages(t), resolved, p);
        if next.Some? {
          PushKeepsStack(t, deps(t[requested]), resolved + {p}, rest);
          MissingAborts(t, deps, next.value, resolved + {p}, r);
        }
      }
    }
  }

  /** Whatever the dependencies are, the worklist returns the least closed set, and aborts
      exactly when a root or a group of a needed package has no installed provider, if the
      last root of every package is canonical or some root is not installed at all. */
  lemma ClosureIsLeast(t: Table, deps: Dependencies, roots: seq<string>)
    requires Consistent(t) && (LastAreCanonical(t, roots) || SomeRootMissing(t, roots))
    ensures Least(t, deps, roots, Work(t, deps, roots, {}))
  {
    hide Work, PackageOf, FirstInstalled, Canonical;
    if SomeRootMissing(t, roots) {
      var r :| r in roots && r !in t;
      MissingAborts(t, deps, roots, {}, r);
      MissingRoot(t, deps, roots, r);
    } else {
      forall x | x in roots
        ensures Expected(t, deps, roots, x)
      {
      }
      forall i: nat
        ensures Decided(t, roots, {}, i)
      {
        if i < |roots| && roots[i] in t && LastOfPackage(t, roots, i) {
          assert Canonical(t, roots[i]);
        }
      }
      WorkIsLeast(t, deps, roots, roots, {});
    }
  }

  lemma {:induction false} LongerThanAll(names: set<string>) returns (n: nat)
    ensures forall x | x in names :: |x| < n
  {
    n := 0;
    if names != {} {
      var x :| x in names;
      var m := LongerThanAll(names - {x});
      n := if m > |x| then m else |x| + 1;
    }
  }

  /** One binary package needs a name that is not installed; no other needs anything. */
  function NeedsAbsent(binary: string, absent: string): Dependencies {
    b => if b == binary then [[absent]] else []
  }

  lemma AbsentFails(t: Table, absent: string, resolved: set<string>, stack: seq<string>)
    requires absent !in t
    ensures FirstInstalled(t, [absent]).None? && PushGroups(t, [[absent]], resolved, stack).None?
    ensures PushGroups(t, [], resolved, stack) == Some(stack)
  {
    hide PackageOf;
    assert [absent][1..] == [] && [[absent]][..0] == [];
  }

  lemma {:induction false} LastRootAborts(t: Table, roots: seq<string>, i: nat, n: nat, absent: string, resolved: set<string>)
    requires i < n <= |roots| && LastOfPackage(t, roots, i) && (forall r | r in roots :: r in t) && absent !in t
    requires PackageOf(t[roots[i]]) !in resolved
    ensures Work(t, NeedsAbsent(t[roots[i]], absent), roots[..n], resolved).None?
    decreases n
  {
    hide PackageOf, PushGroups, Work, FirstInstalled;
    var deps, stack := NeedsAbsent(t[roots[i]], absent), roots[..n];
    WorkStep(t, deps, stack, resolved);
    var requested := roots[n - 1];
    assert stack[|stack| - 1] == requested && stack[..|stack| - 1] == roots[..n - 1] && requested in roots;
    var p := PackageOf(t[requested]);
    AbsentFails(t, absent, resolved + {p}, roots[..n - 1]);
    if n - 1 > i {
      assert !SamePackage(t, requested, roots[i]);
      LastRootAborts(t, roots, i, n - 1, absent, if p in resolved then resolved else resolved + {p});
    }
  }

  /** With those dependencies nothing needed is missing. */
  lemma NothingNeededIsMissing(t: Table, roots: seq<string>, i: nat, absent: string)
    requires Consistent(t) && i < |roots| && (forall r | r in roots :: r in t)
    requires !Canonical(t, roots[i]) && absent !in t
    ensures !Missing(t, NeedsAbsent(t[roots[i]], absent), roots)
  {
    hide PackageOf, FirstInstalled, FirstProvider, NoProvider;
    FirstIsProvider(t);
    var deps := NeedsAbsent(t[roots[i]], absent);
    var all := set r | r in roots :: PackageOf(t[r]);
    AbsentFails(t, absent, {}, []);
    assert Closed(t, deps, roots, all);
    forall p | Needed(t, deps, roots, p)
      ensures !Unsatisfied(t, deps, p)
    {
      assert p in all;
      var r :| r in roots && PackageOf(t[r]) == p;
      assert PackageOf(t[p]) == p;
      assert roots[i] in roots && PackageOf(t[roots[i]]) in t;
    }
  }

  /** The worklist returns the least closed set for all dependencies exactly when the last
      root of every package is canonical or some root is not installed at all. */
  lemma LeastIffLastAreCanonical(lines: seq<Line>, roots: seq<string>)
    requires forall line | line in lines :: line.Valid()
    ensures var t := TableOf(lines);
            (forall deps: Dependencies :: Least(t, deps, roots, Work(t, deps, roots, {})))
            <==> LastAreCanonical(t, roots) || SomeRootMissing(t, roots)
  {
    hide Work, TableOf, PackageOf, Least, Canonical;
    var t := TableOf(lines);
    TableConsistent(lines);
    if LastAreCanonical(t, roots) || SomeRootMissing(t, roots) {
      forall deps: Dependencies
        ensures Least(t, deps, roots, Work(t, deps, roots, {}))
      {
        ClosureIsLeast(t, deps, roots);
      }
    } else {
      var i: nat :| LastOfPackage(t, roots, i) && !Canonical(t, roots[i]);
      var n := LongerThanAll(t.Keys);
      var absent := seq(n, _ => 'x');
      assert absent !in t by {
        assert |absent| == n;
      }
      var deps := NeedsAbsent(t[roots[i]], absent);
      LastRootAborts(t, roots, i, |roots|, absent, {});
      assert roots[..|roots|] == roots;
      NothingNeededIsMissing(t, roots, i, absent);
      NoneIsMissing(t, deps, roots);
    }
  }

  lemma NoneIsMissing(t: Table, deps: Dependencies, roots: seq<string>)
    ensures Least(t, deps, roots, None) ==> Missing(t, deps, roots)
  {
  }

  // ----- Roots that are not canonical -----

  /** Two architectures of one package: the one listed first provides `v`. */
  const TWO_ARCHITECTURES: seq<Line> := [
    Line("p", "b", ["v"], true), Line("p", "a", [], true), Line("x", "", [], true)]

  function OneNeedsX(binary: string): seq<seq<string>> {
    if binary == "p:a" then [["x"]] else []
  }

  lemma TableOfTwo() returns (t: Table)
    ensures t == TableOf(TWO_ARCHITECTURES)
    ensures t == map["p" := "p:a", "p:b" := "p:b", "v" := "p:b", "p:a" := "p:a", "x" := "x"]
  {
    var l := TWO_ARCHITECTURES;
    var t1: Table := map["p" := "p:b", "p:b" := "p:b", "v" := "p:b"];
    var t2 := t1["p" := "p:a"]["p:a" := "p:a"];
    t := t2["x" := "x"];
    assert l[0].Binary() == "p:b" && l[1].Binary() == "p:a" && l[2].Binary() == "x";
    assert l[..3] == l && l[..3][..2] == l[..2] && l[..2][..1] == l[..1] && l[..1][..0] == [];
    assert ["v"][..0] == [];
    var m: Table := map["p" := "p:b"]["p:b" := "p:b"];
    assert "v"[0] != "p"[0] && "v"[0] != "p:b"[0];
    assert AddProvided(m, ["v"], "p:b") == m["v" := "p:b"] == t1;
    assert TableOf(l[..1]) == AddLine(map[], l[0]) == t1;
    assert TableOf(l[..2]) == AddLine(t1, l[1]) == t2;
    assert TableOf(l[..3]) == AddLine(t2, l[2]) == t;
  }

  /** Without that condition the result can depend on the order of the roots: here the
      last root of the package `p` is once canonical and once not. */
  lemma OrderCanMatter()
    ensures var t := TableOf(TWO_ARCHITECTURES);
            && Work(t, OneNeedsX, ["v", "p"], {}) == Some({"p", "x"})
            && Work(t, OneNeedsX, ["p", "v"], {}) == Some({"p"})
            && !Canonical(t, "v")
  {
    hide Work, PackageOf, PushGroups, TableOf;
    var t := TableOfTwo();
    PackageOfBinary("p", ":a");
    PackageOfBinary("p", ":b");
    PackageOfBinary("x", "");
    assert "p" + ":a" == "p:a" && "p" + ":b" == "p:b" && "x" + "" == "x";
    PushX(t);
    WorkStep(t, OneNeedsX, ["v", "p"], {});
    WorkStep(t, OneNeedsX, ["v", "x"], {"p"});
    WorkStep(t, OneNeedsX, ["v"], {"p", "x"});
    WorkStep(t, OneNeedsX, [], {"p", "x"});
    WorkStep(t, OneNeedsX, ["p", "v"], {});
    WorkStep(t, OneNeedsX, ["p"], {"p"});
    WorkStep(t, OneNeedsX, [], {"p"});
    assert ["v", "p"][..1] == ["v"] && ["v", "x"][..1] == ["v"] && ["p", "v"][..1] == ["p"] && ["v"][..0] == [] && ["p"][..0] == [];
    assert {"p"} + {"x"} == {"p", "x"} && {} + {"p"} == {"p"};
  }

  lemma PushX(t: Table)
    requires "x" in t && t["x"] == "x"
    ensures PushGroups(t, [["x"]], {"p"}, ["v"]) == Some(["v", "x"])
    ensures forall resolved, stack :: PushGroups(t, [], resolved, stack) == Some(stack)
  {
    hide PackageOf;
    PackageOfBinary("x", "");
    assert "x" + "" == "x" && [["x"]][..0] == [] && ["v"] + ["x"] == ["v", "x"];
  }

  lemma WorkStep(t: Table, deps: Dependencies, stack: seq<string>, resolved: set<string>)
    ensures Work(t, deps, stack, resolved)
            == if stack == [] then Some(resolved)
               else if stack[|stack| - 1] !in t then None
               else
                 var p := PackageOf(t[stack[|stack| - 1]]);
                 if p in resolved then Work(t, deps, stack[..|stack| - 1], resolved)
                 else
                   var next := PushGroups(t, deps(t[stack[|stack| - 1]]), resolved + {p}, stack[..|stack| - 1]);
                   if next.None? then None else Work(t, deps, next.value, resolved + {p})
  {
    hide PackageOf, PushGroups;
  }
}
