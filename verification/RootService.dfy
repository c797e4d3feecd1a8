/** Search-root changes against a runtime that may refuse any call, and the bounded
    clean-up that runs while the runtime is idle.
  */
module RootService {

  import opened Results
  import opened PathPolicy
  import opened Sequences

  type FilePath = string

  datatype ResolvedRoot = ResolvedRoot(path: FilePath, explicitAppData: bool)

  datatype Prepared = Prepared(roots: seq<ResolvedRoot>, exclusions: seq<FilePath>)

  /** What the service takes from its environment: how paths are compared, which names
      stand for a known folder, the planner, and the paths of the installed program. */
  datatype Policy = Policy(
    platform: Platform,
    key: FilePath -> string,
    alias: FilePath -> Option<FilePath>,
    isAppData: FilePath -> bool,
    touchesInstall: FilePath -> bool,
    plan: seq<ResolvedRoot> -> Result<seq<FilePath>, string>)

  function ResolveRequest(policy: Policy, requested: FilePath): ResolvedRoot {
    match policy.alias(requested)
    case Some(path) => ResolvedRoot(path, true)
    case None => ResolvedRoot(requested, false)
  }

  function ResolvePersisted(policy: Policy, persisted: FilePath): ResolvedRoot {
    ResolvedRoot(persisted, policy.isAppData(persisted))
  }

  function ResolveRequests(policy: Policy, requested: seq<FilePath>): (r: seq<ResolvedRoot>)
    ensures |r| == |requested|
  {
    seq(|requested|, i requires 0 <= i < |requested| => ResolveRequest(policy, requested[i]))
  }

  function ResolveAllPersisted(policy: Policy, persisted: seq<FilePath>): (r: seq<ResolvedRoot>)
    ensures |r| == |persisted|
  {
    seq(|persisted|, i requires 0 <= i < |persisted| => ResolvePersisted(policy, persisted[i]))
  }

  function Paths(roots: seq<ResolvedRoot>): (r: seq<FilePath>)
    ensures |r| == |roots|
  {
    seq(|roots|, i requires 0 <= i < |roots| => roots[i].path)
  }

  // ----- Duplicate roots -----

  /** The first position in `unique` whose path has the key of `path`. */
  function FindKey(policy: Policy, unique: seq<ResolvedRoot>, path: FilePath): (i: nat)
    ensures i <= |unique|
    ensures i < |unique| ==> policy.key(unique[i].path) == policy.key(path)
    ensures forall j | 0 <= j < i :: policy.key(unique[j].path) != policy.key(path)
  {
    if unique == [] || policy.key(unique[0].path) == policy.key(path) then 0
    else 1 + FindKey(policy, unique[1..], path)
  }

  function AddUnique(policy: Policy, unique: seq<ResolvedRoot>, root: ResolvedRoot): seq<ResolvedRoot> {
    var i := FindKey(policy, unique, root.path);
    if i == |unique| then unique + [root]
    else if root.explicitAppData then unique[i := ResolvedRoot(unique[i].path, true)]
    else unique
  }

  function Unique(policy: Policy, roots: seq<ResolvedRoot>): seq<ResolvedRoot> {
    if roots == [] then []
    else AddUnique(policy, Unique(policy, roots[..|roots| - 1]), roots[|roots| - 1])
  }

  /** `i` is the first position of its key. */
  ghost predicate FirstOfKey(policy: Policy, roots: seq<ResolvedRoot>, i: nat) {
    i < |roots| && forall j | 0 <= j < i :: policy.key(roots[j].path) != policy.key(roots[i].path)
  }

  /** `at` lists, in order, first positions of keys of `roots`, and `unique` holds those paths. */
  ghost predicate Positions(policy: Policy, roots: seq<ResolvedRoot>, unique: seq<ResolvedRoot>, at: seq<nat>) {
    && |at| == |unique|
    && (forall k | 0 <= k < |at| :: at[k] < |roots| && FirstOfKey(policy, roots, at[k]) && unique[k].path == roots[at[k]].path)
    && (forall k, l | 0 <= k < l < |at| :: at[k] < at[l])
  }

  ghost predicate HasKey(policy: Policy, roots: seq<ResolvedRoot>, key: string) {
    exists k :: 0 <= k < |roots| && policy.key(roots[k].path) == key
  }

  ghost predicate HasExplicit(policy: Policy, roots: seq<ResolvedRoot>, key: string) {
    exists k :: 0 <= k < |roots| && roots[k].explicitAppData && policy.key(roots[k].path) == key
  }

  /** Every key survives, and a path is explicit when any of its duplicates is. */
  ghost predicate SameKeys(policy: Policy, roots: seq<ResolvedRoot>, unique: seq<ResolvedRoot>) {
    && (forall i | 0 <= i < |roots| :: HasKey(policy, unique, policy.key(roots[i].path)))
    && (forall k | 0 <= k < |unique| ::
          unique[k].explicitAppData <==> HasExplicit(policy, roots, policy.key(unique[k].path)))
  }

  lemma UniqueStep(policy: Policy, roots: seq<ResolvedRoot>)
    requires roots != []
    ensures Unique(policy, roots) == AddUnique(policy, Unique(policy, roots[..|roots| - 1]), roots[|roots| - 1])
  {
    hide AddUnique;
  }

  lemma {:induction false} UniqueIsFirstOccurrences(policy: Policy, roots: seq<ResolvedRoot>) returns (at: seq<nat>)
    ensures Positions(policy, roots, Unique(policy, roots), at)
    ensures SameKeys(policy, roots, Unique(policy, roots))
  {
    hide Positions, SameKeys, FindKey, Unique;
    if roots == [] {
      at := [];
      UniqueOfNothing(policy);
    } else {
      UniqueStep(policy, roots);
      var front, root := roots[..|roots| - 1], roots[|roots| - 1];
      at := UniqueIsFirstOccurrences(policy, front);
      var unique := Unique(policy, front);
      var i := FindKey(policy, unique, root.path);
      assert roots == front + [root];
      if i == |unique| {
        AppendPosition(policy, front, root, unique, at);
        AppendKey(policy, front, root, unique);
        at := at + [|front|];
      } else {
        RepeatPosition(policy, front, root, unique, at, AddUnique(policy, unique, root));
        RepeatKey(policy, front, root, unique, at, i, AddUnique(policy, unique, root));
      }
    }
  }

  lemma UniqueOfNothing(policy: Policy)
    ensures Positions(policy, [], Unique(policy, []), []) && SameKeys(policy, [], Unique(policy, []))
  {
  }

  lemma AppendPosition(policy: Policy, front: seq<ResolvedRoot>, root: ResolvedRoot, unique: seq<ResolvedRoot>, at: seq<nat>)
    requires Positions(policy, front, unique, at) && SameKeys(policy, front, unique)
    requires forall j | 0 <= j < |unique| :: policy.key(unique[j].path) != policy.key(root.path)
    ensures Positions(policy, front + [root], unique + [root], at + [|front|])
  {
    var roots := front + [root];
    forall j | 0 <= j < |front|
      ensures policy.key(front[j].path) != policy.key(root.path)
    {
      assert HasKey(policy, unique, policy.key(front[j].path));
    }
    forall k | 0 <= k < |at|
      ensures FirstOfKey(policy, roots, at[k])
    {
      assert FirstOfKey(policy, front, at[k]);
    }
    assert FirstOfKey(policy, roots, |front|);
  }

  lemma HasKeyMore(policy: Policy, roots: seq<ResolvedRoot>, root: ResolvedRoot, key: string)
    ensures HasKey(policy, roots + [root], key) <==> HasKey(policy, roots, key) || policy.key(root.path) == key
    ensures HasExplicit(policy, roots + [root], key)
            <==> HasExplicit(policy, roots, key) || (root.explicitAppData && policy.key(root.path) == key)
  {
    var more := roots + [root];
    assert more[|roots|] == root;
    if k :| 0 <= k < |roots| && policy.key(roots[k].path) == key {
      assert more[k] == roots[k];
    }
    if k :| 0 <= k < |roots| && roots[k].explicitAppData && policy.key(roots[k].path) == key {
      assert more[k] == roots[k];
    }
  }

  lemma AppendKey(policy: Policy, front: seq<ResolvedRoot>, root: ResolvedRoot, unique: seq<ResolvedRoot>)
    requires SameKeys(policy, front, unique)
    requires forall j | 0 <= j < |unique| :: policy.key(unique[j].path) != policy.key(root.path)
    ensures SameKeys(policy, front + [root], unique + [root])
  {
    hide HasKey, HasExplicit;
    var roots, more := front + [root], unique + [root];
    forall i | 0 <= i < |roots|
      ensures HasKey(policy, more, policy.key(roots[i].path))
    {
      HasKeyMore(policy, unique, root, policy.key(roots[i].path));
    }
    forall k | 0 <= k < |more|
      ensures more[k].explicitAppData <==> HasExplicit(policy, roots, policy.key(more[k].path))
    {
      HasKeyMore(policy, front, root, policy.key(more[k].path));
      if k == |unique| {
        ExplicitHasKey(policy, front, unique, policy.key(root.path));
      }
    }
  }

  lemma ExplicitHasKey(policy: Policy, front: seq<ResolvedRoot>, unique: seq<ResolvedRoot>, key: string)
    requires SameKeys(policy, front, unique)
    requires forall j | 0 <= j < |unique| :: policy.key(unique[j].path) != key
    ensures !HasExplicit(policy, front, key)
  {
    assert forall i | 0 <= i < |front| :: HasKey(policy, unique, policy.key(front[i].path));
  }

  /** `more` is `unique`, with the flag of a path with the key of `root` raised if `root` is explicit. */
  ghost predicate Repeated(policy: Policy, unique: seq<ResolvedRoot>, root: ResolvedRoot, i: nat, more: seq<ResolvedRoot>) {
    && i < |unique| && policy.key(unique[i].path) == policy.key(root.path)
    && more == if root.explicitAppData then unique[i := ResolvedRoot(unique[i].path, true)] else unique
  }

  lemma RepeatPosition(policy: Policy, front: seq<ResolvedRoot>, root: ResolvedRoot, unique: seq<ResolvedRoot>, at: seq<nat>,
                       more: seq<ResolvedRoot>)
    requires Positions(policy, front, unique, at)
    requires |more| == |unique| && forall k | 0 <= k < |unique| :: more[k].path == unique[k].path
    ensures Positions(policy, front + [root], more, at)
  {
    var roots := front + [root];
    forall k | 0 <= k < |at|
      ensures FirstOfKey(policy, roots, at[k])
    {
      assert FirstOfKey(policy, front, at[k]);
    }
  }

  lemma RepeatKey(policy: Policy, front: seq<ResolvedRoot>, root: ResolvedRoot, unique: seq<ResolvedRoot>, at: seq<nat>,
                  i: nat, more: seq<ResolvedRoot>)
    requires Positions(policy, front, unique, at) && SameKeys(policy, front, unique)
    requires Repeated(policy, unique, root, i, more)
    ensures SameKeys(policy, front + [root], more)
  {
    hide HasExplicit;
    var roots := front + [root];
    assert forall k | 0 <= k < |unique| :: more[k].path == unique[k].path;
    forall j | 0 <= j < |roots|
      ensures HasKey(policy, more, policy.key(roots[j].path))
    {
      if j < |front| {
        assert HasKey(policy, unique, policy.key(front[j].path));
        var k :| 0 <= k < |unique| && policy.key(unique[k].path) == policy.key(front[j].path);
        assert policy.key(more[k].path) == policy.key(roots[j].path);
      } else {
        assert policy.key(more[i].path) == policy.key(root.path);
      }
    }
    forall k | 0 <= k < |more|
      ensures more[k].explicitAppData <==> HasExplicit(policy, roots, policy.key(more[k].path))
    {
      HasKeyMore(policy, front, root, policy.key(more[k].path));
      if k != i {
        KeysDiffer(policy, front, unique, at, k, i);
      }
    }
  }

  lemma KeysDiffer(policy: Policy, roots: seq<ResolvedRoot>, unique: seq<ResolvedRoot>, at: seq<nat>, k: nat, l: nat)
    requires Positions(policy, roots, unique, at) && k < |at| && l < |at| && k != l
    ensures policy.key(unique[k].path) != policy.key(unique[l].path)
  {
    var a, b := if k < l then k else l, if k < l then l else k;
    assert at[a] < at[b] && FirstOfKey(policy, roots, at[b]);
  }

  ghost predicate DistinctPaths(roots: seq<ResolvedRoot>) {
    forall k, l | 0 <= k < l < |roots| :: roots[k].path != roots[l].path
  }

  lemma UniquePathsDiffer(policy: Policy, roots: seq<ResolvedRoot>)
    ensures DistinctPaths(Unique(policy, roots))
  {
    var at := UniqueIsFirstOccurrences(policy, roots);
    var unique := Unique(policy, roots);
    forall k, l | 0 <= k < l < |unique|
      ensures unique[k].path != unique[l].path
    {
      KeysDiffer(policy, roots, unique, at, k, l);
    }
  }

  /** Roots without duplicates stay as they are, so installing the current roots again
      keeps the list. */
  lemma {:induction false} UniqueOfDistinct(policy: Policy, roots: seq<ResolvedRoot>)
    requires forall k, l | 0 <= k < l < |roots| :: policy.key(roots[k].path) != policy.key(roots[l].path)
    ensures Unique(policy, roots) == roots
  {
    if roots != [] {
      UniqueOfDistinct(policy, roots[..|roots| - 1]);
    }
  }

  lemma ReinstallKeepsRoots(policy: Policy, persisted: seq<FilePath>, p: Prepared)
    requires forall k, l | 0 <= k < l < |persisted| :: policy.key(persisted[k]) != policy.key(persisted[l])
    requires PrepareCurrent(policy, persisted) == Ok(p)
    ensures Paths(p.roots) == persisted
  {
    UniqueOfDistinct(policy, ResolveAllPersisted(policy, persisted));
  }

  /** The loop that removes duplicates, upgrading an earlier root in place. */
  method RemoveDuplicates(policy: Policy, roots: seq<ResolvedRoot>) returns (unique: seq<ResolvedRoot>)
    ensures unique == Unique(policy, roots)
  {
    unique := [];
    for n := 0 to |roots|
      invariant unique == Unique(policy, roots[..n])
    {
      assert roots[..n + 1][..n] == roots[..n];
      var root := roots[n];
      var existing := 0;
      while existing < |unique| && policy.key(unique[existing].path) != policy.key(root.path)
        invariant 0 <= existing <= |unique|
        invariant forall j | 0 <= j < existing :: policy.key(unique[j].path) != policy.key(root.path)
      {
        existing := existing + 1;
      }
      if existing == |unique| {
        unique := unique + [root];
      } else if root.explicitAppData {
        unique := unique[existing := ResolvedRoot(unique[existing].path, true)];
      }
    }
    assert roots[..|roots|] == roots;
  }

  // ----- Preparation -----

  function Prepare(policy: Policy, roots: seq<ResolvedRoot>): Result<Prepared, string> {
    var unique := Unique(policy, roots);
    match policy.plan(unique)
    case Ok(exclusions) => Ok(Prepared(unique, exclusions))
    case Err(reason) => Err(reason)
  }

  /** The root set that is installed now, with the policy it would get today. */
  function PrepareCurrent(policy: Policy, roots: seq<FilePath>): Result<Prepared, string> {
    Prepare(policy, ResolveAllPersisted(policy, roots))
  }

  method PrepareRootSet(policy: Policy, roots: seq<ResolvedRoot>) returns (r: Result<Prepared, string>)
    ensures r == Prepare(policy, roots)
    ensures r.Ok? ==> DistinctPaths(r.value.roots)
  {
    hide Unique;
    UniquePathsDiffer(policy, roots);
    var unique := RemoveDuplicates(policy, roots);
    var plan := policy.plan(unique);
    if plan.Err? {
      return Err(plan.error);
    }
    r := Ok(Prepared(unique, plan.value));
  }

  // ----- The runtime -----

  datatype View = View(roots: seq<FilePath>, exclusions: set<FilePath>)

  function Elements(s: seq<FilePath>): set<FilePath> {
    set x | x in s
  }

  function Without(roots: seq<FilePath>, path: FilePath): seq<FilePath> {
    if roots == [] then []
    else
      var front := Without(roots[..|roots| - 1], path);
      if roots[|roots| - 1] == path then front else front + [roots[|roots| - 1]]
  }

  /** The roots other than `path`, in their order. */
  lemma {:induction false} WithoutIsPicked(roots: seq<FilePath>, path: FilePath) returns (at: seq<nat>)
    ensures Picked(roots, Without(roots, path), at)
    ensures forall i: nat | i < |roots| :: i in at <==> roots[i] != path
  {
    hide Picked;
    if roots == [] {
      at := [];
      NothingPicked<FilePath>();
    } else {
      var front, last := roots[..|roots| - 1], roots[|roots| - 1];
      var before := WithoutIsPicked(front, path);
      assert roots == front + [last];
      PickedStep(front, Without(front, path), before, last, last != path);
      at := if last != path then before + [|front|] else before;
      assert forall i: nat | i < |front| :: roots[i] == front[i];
    }
  }

  function Failed(ok: bool): nat {
    if ok then 0 else 1
  }

  /** One attempt to hide a path. */
  datatype Call = Call(path: FilePath, accepted: bool)

  /** One search for a noise term; None is a search that failed. */
  datatype Search = Search(term: nat, rows: Option<seq<string>>)

  /** All attempts so far, and the exclusion table they led to. */
  datatype Log = Recorded(calls: seq<Call>, exclusions: set<FilePath>)

  /** The private runtime as the service sees it: a root list, an exclusion table and a
      background crawl.  A call that fails changes nothing. */
  class Runtime {
    const platform: Platform
    var roots: seq<FilePath>
    var exclusions: set<FilePath>
    var busy: bool
    /** Every state in which the root list or the exclusion table has been. */
    ghost var trace: seq<View>
    /** Every attempt to hide a path, and the number of calls that failed. */
    ghost var calls: seq<Call>
    ghost var refusals: nat
    ghost var searches: seq<Search>
    ghost const initial: View
    /** For each noise term, the prefixes searches for it can lead to. */
    const possible: seq<set<string>>

    ghost predicate Valid()
      reads this
    {
      |possible| == |NOISE_TERMS| && Now() == if trace == [] then initial else trace[|trace| - 1]
    }

    ghost function Now(): View
      reads this
    {
      View(roots, exclusions)
    }

    ghost function Log(): Log
      reads this
    {
      Recorded(calls, exclusions)
    }

    constructor (platform: Platform, roots: seq<FilePath>, exclusions: set<FilePath>, possible: seq<set<string>>)
      requires |possible| == |NOISE_TERMS|
      ensures Valid() && this.roots == roots && this.exclusions == exclusions && this.possible == possible
      ensures calls == [] && refusals == 0 && searches == []
    {
      this.platform, this.roots, this.exclusions := platform, roots, exclusions;
      this.possible, busy := possible, false;
      trace, initial, calls, refusals, searches := [], View(roots, exclusions), [], 0, [];
    }

    /** Replaces the root list and clears the exclusion table. */
    method ReplaceRoots(paths: seq<FilePath>) returns (ok: bool)
      requires Valid()
      modifies this
      ensures Valid()
      ensures ok ==> Now() == View(paths, {}) && trace == old(trace) + [Now()]
      ensures !ok ==> Now() == old(Now()) && trace == old(trace)
      ensures calls == old(calls) && refusals == old(refusals) + Failed(ok)
    {
      ok := *;
      refusals := refusals + Failed(ok);
      if ok {
        roots, exclusions, busy := paths, {}, true;
        trace := trace + [Now()];
      }
    }

    /** Adds a root and keeps the exclusion table. */
    method AddRoot(path: FilePath) returns (ok: bool)
      requires Valid()
      modifies this
      ensures Valid()
      ensures ok ==> Now() == View(if path in old(roots) then old(roots) else old(roots) + [path], old(exclusions))
      ensures ok ==> trace == old(trace) + [Now()]
      ensures !ok ==> Now() == old(Now()) && trace == old(trace)
      ensures calls == old(calls) && refusals == old(refusals) + Failed(ok)
    {
      ok := *;
      refusals := refusals + Failed(ok);
      if ok {
        if path !in roots {
          roots := roots + [path];
        }
        busy := true;
        trace := trace + [Now()];
      }
    }

    method RemoveRoot(path: FilePath) returns (ok: bool)
      requires Valid()
      modifies this
      ensures Valid()
      ensures ok ==> Now() == View(Without(old(roots), path), old(exclusions)) && trace == old(trace) + [Now()]
      ensures !ok ==> Now() == old(Now()) && trace == old(trace)
      ensures calls == old(calls) && refusals == old(refusals) + Failed(ok)
    {
      ok := *;
      refusals := refusals + Failed(ok);
      if ok {
        var kept: seq<FilePath> := [];
        for i := 0 to |roots|
          invariant kept == Without(roots[..i], path)
          invariant Valid() && roots == old(roots) && exclusions == old(exclusions) && trace == old(trace)
          invariant calls == old(calls) && refusals == old(refusals)
        {
          assert roots[..i + 1][..i] == roots[..i];
          if roots[i] != path {
            kept := kept + [roots[i]];
          }
        }
        assert roots[..|roots|] == roots;
        roots, busy := kept, true;
        trace := trace + [Now()];
      }
    }

    /** Hides a path, which may start a crawl. */
    method Exclude(path: FilePath) returns (ok: bool)
      requires Valid()
      modifies this
      ensures Valid()
      ensures ok ==> Now() == View(old(roots), old(exclusions) + {path}) && trace == old(trace) + [Now()]
      ensures !ok ==> Now() == old(Now()) && trace == old(trace)
      ensures searches == old(searches)
      ensures calls == old(calls) + [Call(path, ok)] && refusals == old(refusals) + Failed(ok)
    {
      ok := *;
      refusals := refusals + Failed(ok);
      calls := calls + [Call(path, ok)];
      if ok {
        exclusions := exclusions + {path};
        trace := trace + [Now()];
      }
      busy := *;
    }

    method ListRoots() returns (r: Option<seq<FilePath>>)
      modifies this`refusals
      ensures r.Some? ==> r.value == roots
      ensures refusals == old(refusals) + Failed(r.Some?)
    {
      var ok: bool := *;
      refusals := refusals + Failed(ok);
      r := if ok then Some(roots) else None;
    }

    /** What happens outside the service between two polls: crawls start and end. */
    method Settle(indexing: bool)
      modifies this`busy
      ensures busy == indexing
    {
      busy := indexing;
    }

    method ReindexAsync()
      modifies this`busy
    {
      busy := true;
    }

    method WaitForIdle()
      modifies this`busy
      ensures !busy
    {
      busy := false;
    }

    predicate RowsAllowed(term: nat, rows: seq<string>)
      requires term < |NOISE_TERMS| && |possible| == |NOISE_TERMS|
    {
      forall row | row in rows ::
        var prefix := NoisePrefix(platform, row, NOISE_TERMS[term]);
        prefix.Some? ==> prefix.value in possible[term]
    }

    /** Paths of rows that match a noise term; any rows, or a failure. */
    method SearchNoise(term: nat) returns (r: Option<seq<string>>)
      requires Valid() && term < |NOISE_TERMS|
      modifies this`searches
      ensures searches == old(searches) + [Search(term, r)]
      ensures r.Some? ==> RowsAllowed(term, r.value)
    {
      var ok: bool := *;
      r := None;
      if ok {
        assert RowsAllowed(term, []);
        var rows: seq<string> :| RowsAllowed(term, rows);
        r := Some(rows);
      }
      searches := searches + [Search(term, r)];
    }
  }

  /** The exclusions planned for a list of installed roots. */
  ghost predicate IsPlan(policy: Policy, roots: seq<FilePath>, exclusions: seq<FilePath>) {
    var p := PrepareCurrent(policy, roots);
    p.Ok? && p.value.exclusions == exclusions
  }

  // ----- What an observer may see while a root set is installed -----

  /** Nothing is visible before every planned exclusion is in place. */
  ghost predicate Installing(v: View, p: Prepared) {
    || (v.roots == [] && v.exclusions <= Elements(p.exclusions))
    || (v.roots <= Paths(p.roots) && v.exclusions == Elements(p.exclusions))
  }

  ghost predicate Installed(v: View, p: Prepared) {
    v.roots == Paths(p.roots) && v.exclusions == Elements(p.exclusions)
  }

  ghost predicate AllInstalling(trace: seq<View>, from: nat, to: nat, p: Prepared) {
    from <= to <= |trace| && forall i | from <= i < to :: Installing(trace[i], p)
  }

  /** First the new set and then, perhaps, the previous one again. */
  ghost predicate NewThenPrevious(trace: seq<View>, from: nat, new_: Prepared, previous: Result<Prepared, string>) {
    exists k: nat ::
      && AllInstalling(trace, from, k, new_)
      && if previous.Ok? then AllInstalling(trace, k, |trace|, previous.value) else k == |trace|
  }

  datatype Failure =
    | Refused(reason: string)
    | RuntimeUnavailable
    | MutationFailed
    | RolledBack
    | RollbackFailed

  const MUTATION_LIMIT := 16

  // ----- The service -----

  class Service {
    const runtime: Runtime
    const policy: Policy
    const enabled: bool
    var pending: bool
    var fixedReady: bool
    var fixedIndex: nat
    var fixedExclusions: seq<FilePath>
    var noiseTerm: nat
    var seen: seq<set<string>>
    /** The roots for which the planned exclusions were computed. */
    ghost var plannedFor: seq<FilePath>

    constructor (runtime: Runtime, policy: Policy, enabled: bool)
      requires runtime.Valid() && runtime.platform == policy.platform
      ensures Valid() && !pending
      ensures this.runtime == runtime && this.policy == policy && this.enabled == enabled
    {
      this.runtime, this.policy, this.enabled := runtime, policy, enabled;
      pending, fixedReady, fixedIndex, fixedExclusions := false, false, 0, [];
      noiseTerm, seen, plannedFor := 0, [{}, {}, {}], [];
    }

    ghost predicate Valid()
      reads this, runtime
    {
      && runtime.Valid() && runtime.platform == policy.platform
      && |seen| == |NOISE_TERMS| && noiseTerm <= |NOISE_TERMS| && fixedIndex <= |fixedExclusions|
      && (forall t | 0 <= t < |NOISE_TERMS| :: seen[t] <= runtime.possible[t])
      && (pending ==> enabled && noiseTerm < |NOISE_TERMS|)
      && (fixedReady ==> IsPlan(policy, plannedFor, fixedExclusions))
      && (noiseTerm > 0 ==> fixedReady && fixedIndex == |fixedExclusions|)
    }

    method RequestMaintenance()
      requires Valid()
      modifies this
      ensures Valid() && pending == (enabled || old(pending))
      ensures enabled ==> FreshRequest()
    {
      if !enabled {
        return;
      }
      pending, fixedReady, fixedIndex, fixedExclusions := true, false, 0, [];
      noiseTerm, seen, plannedFor := 0, [{}, {}, {}], [];
    }

    method ApplyExclusions(exclusions: seq<FilePath>) returns (ok: bool)
      requires runtime.Valid()
      modifies runtime
      ensures runtime.Valid()
      ensures old(runtime.trace) <= runtime.trace && runtime.roots == old(runtime.roots)
      ensures old(runtime.exclusions) <= runtime.exclusions <= old(runtime.exclusions) + Elements(exclusions)
      ensures ok ==> runtime.exclusions == old(runtime.exclusions) + Elements(exclusions)
      ensures runtime.refusals >= old(runtime.refusals) + Failed(ok)
      ensures forall i | |old(runtime.trace)| <= i < |runtime.trace| ::
                runtime.trace[i].roots == old(runtime.roots) && runtime.trace[i].exclusions <= old(runtime.exclusions) + Elements(exclusions)
    {
      for n := 0 to |exclusions|
        invariant runtime.Valid()
        invariant old(runtime.trace) <= runtime.trace && runtime.roots == old(runtime.roots)
        invariant runtime.exclusions == old(runtime.exclusions) + Elements(exclusions[..n])
        invariant runtime.refusals == old(runtime.refusals)
        invariant forall i | |old(runtime.trace)| <= i < |runtime.trace| ::
                    runtime.trace[i].roots == old(runtime.roots) && runtime.trace[i].exclusions <= old(runtime.exclusions) + Elements(exclusions)
      {
        assert exclusions[..n + 1] == exclusions[..n] + [exclusions[n]];
        var done := runtime.Exclude(exclusions[n]);
        if !done {
          return false;
        }
      }
      assert exclusions[..|exclusions|] == exclusions;
      ok := true;
    }

    /** Reset, then the exclusions, then the roots. */
    method ApplyPrepared(prepared: Prepared) returns (ok: bool)
      requires runtime.Valid()
      requires DistinctPaths(prepared.roots)
      modifies runtime
      ensures runtime.Valid()
      ensures old(runtime.trace) <= runtime.trace
      ensures AllInstalling(runtime.trace, |old(runtime.trace)|, |runtime.trace|, prepared)
      ensures ok ==> Installed(runtime.Now(), prepared)
      ensures runtime.refusals >= old(runtime.refusals) + Failed(ok)
    {
      ok := runtime.ReplaceRoots([]);
      if !ok {
        return;
      }
      ghost var reset := runtime.trace;
      ok := ApplyExclusions(prepared.exclusions);
      ghost var excluded := runtime.trace;
      assert forall i | |old(runtime.trace)| <= i < |excluded| :: Installing(excluded[i], prepared);
      if !ok {
        return;
      }
      var paths := Paths(prepared.roots);
      for n := 0 to |prepared.roots|
        invariant runtime.roots == paths[..n] && runtime.exclusions == Elements(prepared.exclusions)
        invariant excluded <= runtime.trace && runtime.refusals >= old(runtime.refusals)
        invariant forall i | |excluded| <= i < |runtime.trace| :: Installing(runtime.trace[i], prepared)
        invariant runtime.Valid()
      {
        assert paths[..n + 1] == paths[..n] + [paths[n]];
        ok := runtime.AddRoot(prepared.roots[n].path);
        if !ok {
          return;
        }
      }
      assert paths[..|paths|] == paths;
    }

    /** Puts the previous roots back, with the policy they have today. */
    method RollbackRoots(previous: seq<FilePath>) returns (restored: bool)
      requires Valid()
      modifies this, runtime
      ensures Valid() && (enabled ==> FreshRequest())
      ensures old(runtime.trace) <= runtime.trace
      ensures var p := PrepareCurrent(policy, previous);
              && (restored ==> p.Ok? && Installed(runtime.Now(), p.value))
              && if p.Ok? then AllInstalling(runtime.trace, |old(runtime.trace)|, |runtime.trace|, p.value)
                 else runtime.trace == old(runtime.trace)
      ensures runtime.refusals >= old(runtime.refusals)
    {
      hide Unique;
      var prepared := PrepareRootSet(policy, ResolveAllPersisted(policy, previous));
      restored := prepared.Ok?;
      if restored {
        restored := ApplyPrepared(prepared.value);
      }
      RequestMaintenance();
    }

    /** Installs a prepared root set or rolls back. */
    method SeedRootSet(prepared: Prepared, previous: seq<FilePath>) returns (r: Result<(), Failure>)
      requires Valid()
      requires DistinctPaths(prepared.roots)
      modifies this, runtime
      ensures Valid() && (enabled ==> FreshRequest())
      ensures Seeded(r, prepared, PrepareCurrent(policy, previous), |old(runtime.trace)|)
      ensures r.Err? ==> runtime.refusals > old(runtime.refusals)
      ensures old(runtime.trace) <= runtime.trace
    {
      hide Installing, Installed;
      var ok := ApplyPrepared(prepared);
      if !ok {
        ghost var k := |runtime.trace|;
        assert AllInstalling(runtime.trace, |old(runtime.trace)|, k, prepared);
        var restored := RollbackRoots(previous);
        assert AllInstalling(runtime.trace, |old(runtime.trace)|, k, prepared);
        return Err(if restored then RolledBack else RollbackFailed);
      }
      assert AllInstalling(runtime.trace, |old(runtime.trace)|, |runtime.trace|, prepared);
      NothingPrevious(runtime.trace, |old(runtime.trace)|, prepared, PrepareCurrent(policy, previous));
      RequestMaintenance();
      r := Ok(());
    }

    /** How an installation ends: installed, or restored, or a reported rollback failure. */
    ghost predicate Seeded(r: Result<(), Failure>, prepared: Prepared, previous: Result<Prepared, string>, from: nat)
      reads runtime
    {
      && NewThenPrevious(runtime.trace, from, prepared, previous)
      && match r
         case Ok(_) => Installed(runtime.Now(), prepared)
         case Err(RolledBack) => previous.Ok? && Installed(runtime.Now(), previous.value)
         case Err(RollbackFailed) => true
         case Err(_) => false
    }

    ghost predicate FreshRequest()
      reads this
    {
      pending && !fixedReady && fixedIndex == 0 && fixedExclusions == [] && noiseTerm == 0 && seen == [{}, {}, {}]
    }

    /** Replaces the whole root set. */
    method ReplaceRoots(requested: seq<FilePath>) returns (r: Result<(), Failure>)
      requires Valid()
      modifies this, runtime
      ensures Valid() && old(runtime.trace) <= runtime.trace
      ensures r.Ok? && enabled ==> FreshRequest()
      ensures r.Err? && !r.error.Refused? ==> runtime.refusals > old(runtime.refusals)
      ensures var p := Prepare(policy, ResolveRequests(policy, requested));
              match r
              case Err(Refused(reason)) => p == Err(reason) && runtime.Now() == old(runtime.Now()) && runtime.trace == old(runtime.trace)
              case Err(RuntimeUnavailable) => p.Ok? && runtime.Now() == old(runtime.Now()) && runtime.trace == old(runtime.trace)
              case _ => p.Ok? && Seeded(r, p.value, PrepareCurrent(policy, old(runtime.roots)), |old(runtime.trace)|)
    {
      hide Unique, Seeded, Prepare, DistinctPaths;
      var prepared := PrepareRootSet(policy, ResolveRequests(policy, requested));
      if prepared.Err? {
        return Err(Refused(prepared.error));
      }
      var previous := runtime.ListRoots();
      if previous.None? {
        return Err(RuntimeUnavailable);
      }
      r := SeedRootSet(prepared.value, previous.value);
      SeededError(r, prepared.value, PrepareCurrent(policy, previous.value), |old(runtime.trace)|);
    }

    lemma SeededError(r: Result<(), Failure>, prepared: Prepared, previous: Result<Prepared, string>, from: nat)
      requires Seeded(r, prepared, previous, from)
      ensures r.Err? ==> r.error.RolledBack? || r.error.RollbackFailed?
    {
    }

    /** Installs the current roots again, so that stale exclusions disappear. */
    method ReindexAsync() returns (r: Result<(), Failure>)
      requires Valid()
      modifies this, runtime
      ensures Valid() && old(runtime.trace) <= runtime.trace
      ensures r.Ok? && enabled ==> FreshRequest()
      ensures r.Err? && !r.error.Refused? ==> runtime.refusals > old(runtime.refusals)
      ensures var p := PrepareCurrent(policy, old(runtime.roots));
              match r
              case Err(Refused(reason)) => p == Err(reason) && runtime.Now() == old(runtime.Now()) && runtime.trace == old(runtime.trace)
              case Err(RuntimeUnavailable) => runtime.Now() == old(runtime.Now()) && runtime.trace == old(runtime.trace)
              case _ =>
                if old(runtime.roots) == [] then r.Ok? && runtime.Now() == old(runtime.Now()) && runtime.trace == old(runtime.trace)
                else p.Ok? && Seeded(r, p.value, p, |old(runtime.trace)|)
    {
      hide Unique, Seeded, Prepare, DistinctPaths;
      var persisted := runtime.ListRoots();
      if persisted.None? {
        return Err(RuntimeUnavailable);
      }
      if persisted.value == [] {
        runtime.ReindexAsync();
        RequestMaintenance();
        return Ok(());
      }
      var prepared := PrepareRootSet(policy, ResolveAllPersisted(policy, persisted.value));
      if prepared.Err? {
        return Err(Refused(prepared.error));
      }
      r := SeedRootSet(prepared.value, persisted.value);
      SeededError(r, prepared.value, prepared, |old(runtime.trace)|);
    }

    /** Adds one root; the policy is compiled for the complete new root set. */
    method AddRoot(requested: FilePath) returns (r: Result<(), Failure>)
      requires Valid()
      modifies this, runtime
      ensures Valid() && old(runtime.trace) <= runtime.trace
      ensures r.Ok? && enabled ==> FreshRequest()
      ensures r.Err? && !r.error.Refused? ==> runtime.refusals > old(runtime.refusals)
      ensures var root := ResolveRequest(policy, requested);
              var current := ResolveAllPersisted(policy, old(runtime.roots));
              var p := Prepare(policy, current + [root]);
              match r
              case Err(RuntimeUnavailable) => runtime.Now() == old(runtime.Now()) && runtime.trace == old(runtime.trace)
              case Err(Refused(reason)) => p == Err(reason) && runtime.Now() == old(runtime.Now()) && runtime.trace == old(runtime.trace)
              case _ =>
                && p.Ok?
                && if root.explicitAppData
                   then Seeded(r, p.value, PrepareCurrent(policy, old(runtime.roots)), |old(runtime.trace)|)
                   else Added(r, old(runtime.Now()), root, p.value, HasKey(policy, current, policy.key(root.path)), |old(runtime.trace)|)
    {
      hide Unique, Seeded, Prepare, FindKey, HasKey, DistinctPaths;
      var persisted := runtime.ListRoots();
      if persisted.None? {
        return Err(RuntimeUnavailable);
      }
      var current := ResolveAllPersisted(policy, persisted.value);
      var root := ResolveRequest(policy, requested);
      var present := FindKey(policy, current, root.path) < |current|;
      var prepared := PrepareRootSet(policy, current + [root]);
      if prepared.Err? {
        return Err(Refused(prepared.error));
      }
      if root.explicitAppData {
        r := SeedRootSet(prepared.value, persisted.value);
        SeededError(r, prepared.value, PrepareCurrent(policy, persisted.value), |old(runtime.trace)|);
        return;
      }
      var ok := ApplyExclusions(prepared.value.exclusions);
      if !ok {
        return Err(MutationFailed);
      }
      NewPath(policy, persisted.value, root.path);
      if !present {
        ok := runtime.AddRoot(root.path);
        if !ok {
          return Err(MutationFailed);
        }
      }
      RequestMaintenance();
      r := Ok(());
    }

    /** A new root becomes visible only when every planned exclusion is in place. */
    ghost predicate Added(r: Result<(), Failure>, before: View, root: ResolvedRoot, p: Prepared, present: bool, from: nat)
      reads runtime
    {
      && from <= |runtime.trace|
      && (forall i | from <= i < |runtime.trace| ::
            || runtime.trace[i].roots == before.roots
            || (runtime.trace[i].roots == before.roots + [root.path] && Elements(p.exclusions) <= runtime.trace[i].exclusions))
      && before.exclusions <= runtime.exclusions <= before.exclusions + Elements(p.exclusions)
      && match r
         case Ok(_) =>
           && runtime.exclusions == before.exclusions + Elements(p.exclusions)
           && runtime.roots == if present then before.roots else before.roots + [root.path]
         case Err(MutationFailed) => runtime.roots == before.roots
         case Err(_) => false
    }

    /** Removes one root; the rest keeps at least its planned exclusions. */
    method RemoveRoot(requested: FilePath) returns (r: Result<(), Failure>)
      requires Valid()
      modifies this, runtime
      ensures Valid() && old(runtime.trace) <= runtime.trace
      ensures r.Ok? && enabled ==> FreshRequest()
      ensures r.Err? && !r.error.Refused? ==> runtime.refusals > old(runtime.refusals)
      ensures var root := ResolveRequest(policy, requested);
              var current := ResolveAllPersisted(policy, old(runtime.roots));
              var p := Prepare(policy, WithoutKey(policy, current, policy.key(root.path)));
              match r
              case Err(RuntimeUnavailable) => runtime.Now() == old(runtime.Now()) && runtime.trace == old(runtime.trace)
              case Err(Refused(reason)) => p == Err(reason) && runtime.Now() == old(runtime.Now()) && runtime.trace == old(runtime.trace)
              case _ =>
                && p.Ok?
                && if HasExplicit(policy, current, policy.key(root.path))
                   then Seeded(r, p.value, PrepareCurrent(policy, old(runtime.roots)), |old(runtime.trace)|)
                   else Removed(r, old(runtime.Now()), root.path, p.value)
    {
      hide Unique, Seeded, Prepare, DistinctPaths;
      var root := ResolveRequest(policy, requested);
      var persisted := runtime.ListRoots();
      if persisted.None? {
        return Err(RuntimeUnavailable);
      }
      var current := ResolveAllPersisted(policy, persisted.value);
      var rest, removedExplicit := DropKey(policy, current, policy.key(root.path));
      var prepared := PrepareRootSet(policy, rest);
      if prepared.Err? {
        return Err(Refused(prepared.error));
      }
      if removedExplicit {
        r := SeedRootSet(prepared.value, persisted.value);
        SeededError(r, prepared.value, PrepareCurrent(policy, persisted.value), |old(runtime.trace)|);
        return;
      }
      var ok := runtime.RemoveRoot(root.path);
      if !ok {
        return Err(MutationFailed);
      }
      ok := ApplyExclusions(prepared.value.exclusions);
      if !ok {
        return Err(MutationFailed);
      }
      RequestMaintenance();
      r := Ok(());
    }

    ghost predicate Removed(r: Result<(), Failure>, before: View, path: FilePath, p: Prepared)
      reads runtime
    {
      && runtime.exclusions <= before.exclusions + Elements(p.exclusions)
      && match r
         case Ok(_) =>
           && runtime.exclusions == before.exclusions + Elements(p.exclusions)
           && runtime.roots == Without(before.roots, path)
         case Err(MutationFailed) => runtime.Now() == before || runtime.roots == Without(before.roots, path)
         case Err(_) => false
    }

    // ----- Maintenance -----

    /** Fixed exclusions the next request would find. */
    ghost function PlannedFixed(): nat
      reads this, runtime
    {
      match PrepareCurrent(policy, runtime.roots)
      case Ok(p) => |p.exclusions|
      case Err(_) => 0
    }

    ghost function PossibleLeft(): int
      requires Valid()
      reads this, runtime
    {
      |runtime.possible[0]| - |seen[0]| + (|runtime.possible[1]| - |seen[1]|) + (|runtime.possible[2]| - |seen[2]|)
    }

    /** How many more polls of an idle runtime maintenance can take. */
    ghost function Budget(): nat
      requires Valid()
      reads this, runtime
    {
      SeenWithinPossible();
      if !pending then 0
      else FixedPolls(if fixedReady then |fixedExclusions| - fixedIndex else PlannedFixed())
           + PossibleLeft() + (|NOISE_TERMS| - noiseTerm)
    }

    lemma SeenWithinPossible()
      requires Valid()
      ensures PossibleLeft() >= 0
    {
      SubsetSize(seen[0], runtime.possible[0]);
      SubsetSize(seen[1], runtime.possible[1]);
      SubsetSize(seen[2], runtime.possible[2]);
    }

    /** A request starts with a budget of max(0, ceil(F/16) - 1) polls for F planned
        exclusions, one for every possible prefix, and one for each of the three terms. */
    lemma BudgetOfRequest()
      requires Valid() && FreshRequest()
      ensures var f := PlannedFixed();
              Budget() == (if f == 0 then 0 else (f + 15) / 16 - 1)
                          + |runtime.possible[0]| + |runtime.possible[1]| + |runtime.possible[2]| + 3
    {
      hide Unique, Prepare;
    }

    method PrepareFixedMaintenance() returns (ok: bool)
      requires Valid() && !fixedReady
      modifies this`fixedReady, this`fixedIndex, this`fixedExclusions, this`plannedFor, runtime`refusals
      ensures Valid() && fixedReady == ok
      ensures ok ==> fixedIndex == 0 && plannedFor == runtime.roots && |fixedExclusions| == PlannedFixed()
      ensures !ok ==> fixedIndex == old(fixedIndex) && fixedExclusions == old(fixedExclusions) && plannedFor == old(plannedFor)
      ensures !ok ==> runtime.refusals > old(runtime.refusals) || PrepareCurrent(policy, runtime.roots).Err?
    {
      hide Unique;
      var persisted := runtime.ListRoots();
      if persisted.None? {
        return false;
      }
      var prepared := PrepareRootSet(policy, ResolveAllPersisted(policy, persisted.value));
      if prepared.Err? {
        return false;
      }
      fixedExclusions, fixedIndex, fixedReady := prepared.value.exclusions, 0, true;
      plannedFor := runtime.roots;
      ok := true;
    }

    /** One poll: it tries the planned paths `fixed`, then hides the prefixes `noise`, and
        calls the runtime for nothing else. */
    method ScrubOneBatch() returns (ghost fixed: seq<FilePath>, ghost noise: seq<string>)
      requires Valid()
      modifies this, runtime
      ensures Valid() && runtime.roots == old(runtime.roots) && old(runtime.trace) <= runtime.trace
      ensures !old(pending) ==> !pending
      ensures old(pending) && !old(runtime.busy) ==> Budget() < old(Budget())
      ensures old(runtime.busy) ==> Budget() == old(Budget())
      ensures Batch(old(runtime.Log()), runtime.Log(), fixed, noise)
      ensures |fixed| <= MUTATION_LIMIT && |noise| <= MUTATION_LIMIT
      ensures PlanStep(old(Plan()), Plan(), fixed, runtime.roots)
      ensures Plan().Searching() || |runtime.calls| == |old(runtime.calls)| + |fixed|
      ensures HiddenBy(policy, noise, Searched(old(runtime.Log()), runtime.Log(), fixed), old(noiseTerm), old(seen), seen)
      // What has to happen: a failure ends maintenance, sixteen planned paths end the poll,
      // and otherwise the current term is searched for.
      ensures old(pending) && !old(runtime.busy) && !fixedReady ==>
                !pending && (runtime.refusals > old(runtime.refusals) || PrepareCurrent(policy, runtime.roots).Err?)
      ensures old(pending) && !old(runtime.busy) && fixedReady && fixedIndex < |fixedExclusions| ==>
                pending && |fixed| == MUTATION_LIMIT
      ensures old(pending) && !old(runtime.busy) && fixedReady && fixedIndex == |fixedExclusions| ==>
                |runtime.searches| == |old(runtime.searches)| + 1
                && NoiseRound(policy, runtime.searches[|old(runtime.searches)|], old(noiseTerm), noise,
                     Searched(old(runtime.Log()), runtime.Log(), fixed), seen, noiseTerm, pending)
      ensures !old(pending) || old(runtime.busy) ==> pending == old(pending) && fixed == [] && noise == []
    {
      hide NoiseRound, PrepareCurrent, IsPlan, FixedPolls, Batch, HiddenBy, PlanStep, Searched, PlanState.Searching;
      fixed, noise := [], [];
      SeenWithinPossible();
      HiddenNothing(policy, noiseTerm, seen);
      NoBatch(runtime.Log());
      PlanNothing(Plan(), runtime.roots);
      if !pending || !enabled {
        return;
      }
      if runtime.busy {
        return;
      }
      if !fixedReady {
        ghost var before := Plan();
        var ready := PrepareFixedMaintenance();
        if !ready {
          pending := false;
          PlanUnmade(before, Plan(), runtime.roots);
          return;
        }
        PlanMade(before, Plan(), runtime.roots);
      }
      ghost var made := Plan();
      fixed, noise := ScrubReady();
      PlanTwice(old(Plan()), made, Plan(), [], fixed, runtime.roots);
      assert [] + fixed == fixed;
      SeenWithinPossible();
    }

    ghost function Plan(): PlanState
      reads this
    {
      PlanState(fixedReady, fixedIndex, fixedExclusions, plannedFor)
    }

    /** The part of a poll after the planned exclusions are known. */
    method ScrubReady() returns (ghost fixed: seq<FilePath>, ghost noise: seq<string>)
      requires Valid() && pending && fixedReady
      modifies this`fixedIndex, this`pending, this`noiseTerm, this`seen, runtime
      ensures Valid() && runtime.roots == old(runtime.roots) && old(runtime.trace) <= runtime.trace
      ensures pending ==>
                FixedPolls(|fixedExclusions| - fixedIndex) + PossibleLeft() - noiseTerm
                < old(FixedPolls(|fixedExclusions| - fixedIndex) + PossibleLeft() - noiseTerm)
      ensures Batch(old(runtime.Log()), runtime.Log(), fixed, noise)
      ensures |fixed| <= MUTATION_LIMIT && |noise| <= MUTATION_LIMIT
      ensures PlanStep(old(Plan()), Plan(), fixed, runtime.roots)
      ensures Plan().Searching() || |runtime.calls| == |old(runtime.calls)| + |fixed|
      ensures HiddenBy(policy, noise, Searched(old(runtime.Log()), runtime.Log(), fixed), old(noiseTerm), old(seen), seen)
      ensures fixedIndex < |fixedExclusions| ==> pending && |fixed| == MUTATION_LIMIT
      ensures fixedIndex == |fixedExclusions| ==>
                |runtime.searches| == |old(runtime.searches)| + 1
                && NoiseRound(policy, runtime.searches[|old(runtime.searches)|], old(noiseTerm), noise,
                     Searched(old(runtime.Log()), runtime.Log(), fixed), seen, noiseTerm, pending)
    {
      hide NoiseRound, FixedPolls, Batch, IsPlan, HiddenBy, Searched;
      noise := [];
      HiddenNothing(policy, noiseTerm, seen);
      ghost var remaining, start := |fixedExclusions| - fixedIndex, runtime.Log();
      fixed := ScrubFixed();
      FixedPollsStep(remaining);
      BatchSizes(start, runtime.Log(), fixed, []);
      ghost var middle := runtime.Log();
      SearchedParts(start, middle, middle, fixed);
      if fixedIndex < |fixedExclusions| {
        return;
      }
      noise := ScrubNoise();
      BatchTwice(start, middle, runtime.Log(), fixed, [], [], noise);
      SearchedParts(start, middle, runtime.Log(), fixed);
      assert fixed + [] == fixed && [] + noise == noise;
    }

    /** At most sixteen planned exclusions; refusals are ignored. */
    method ScrubFixed() returns (ghost fixed: seq<FilePath>)
      requires Valid() && fixedReady
      modifies this`fixedIndex, runtime
      ensures Valid() && runtime.roots == old(runtime.roots) && old(runtime.trace) <= runtime.trace
      ensures runtime.searches == old(runtime.searches)
      ensures |fixed| <= MUTATION_LIMIT && old(fixedIndex) <= fixedIndex
      ensures fixed == fixedExclusions[old(fixedIndex)..fixedIndex]
      ensures fixedIndex == |fixedExclusions| || fixedIndex == old(fixedIndex) + MUTATION_LIMIT
      ensures Batch(old(runtime.Log()), runtime.Log(), fixed, []) && |runtime.calls| == |old(runtime.calls)| + |fixed|
    {
      hide Batch, IsPlan, Tried, Accepted;
      fixed := [];
      ghost var start := runtime.Log();
      ghost var nothing: seq<string> := [];
      NoBatch(start);
      var applied := 0;
      while fixedIndex < |fixedExclusions| && applied < MUTATION_LIMIT
        invariant Valid() && runtime.roots == old(runtime.roots) && old(runtime.trace) <= runtime.trace
        invariant runtime.searches == old(runtime.searches)
        invariant applied == |fixed| == fixedIndex - old(fixedIndex) && applied <= MUTATION_LIMIT
        invariant fixed == fixedExclusions[old(fixedIndex)..fixedIndex]
        invariant Batch(start, runtime.Log(), fixed, []) && |runtime.calls| == |start.calls| + |fixed|
        decreases |fixedExclusions| - fixedIndex
      {
        var excluded := fixedExclusions[fixedIndex];
        ghost var before := runtime.Log();
        fixedIndex := fixedIndex + 1;
        var ok := runtime.Exclude(excluded);
        PlannedCall(before, runtime.Log(), excluded, ok);
        BatchTwice(start, before, runtime.Log(), fixed, nothing, [excluded], nothing);
        assert nothing + nothing == nothing;
        fixed := fixed + [excluded];
        applied := applied + 1;
      }
    }

    /** One bounded batch for the current noise term. */
    method ScrubNoise() returns (ghost noise: seq<string>)
      requires Valid() && pending && fixedReady && fixedIndex == |fixedExclusions|
      modifies this`pending, this`noiseTerm, this`seen, runtime
      ensures Valid() && runtime.roots == old(runtime.roots) && old(runtime.trace) <= runtime.trace
      ensures |noise| <= MUTATION_LIMIT
      ensures pending ==> PossibleLeft() - noiseTerm < old(PossibleLeft()) - old(noiseTerm)
      ensures Batch(old(runtime.Log()), runtime.Log(), [], noise)
      ensures old(runtime.calls) <= runtime.calls
      ensures HiddenBy(policy, noise, Searched(old(runtime.Log()), runtime.Log(), []), old(noiseTerm), old(seen), seen)
      ensures |runtime.searches| == |old(runtime.searches)| + 1
      ensures NoiseRound(policy, runtime.searches[|old(runtime.searches)|], old(noiseTerm), noise,
                Searched(old(runtime.Log()), runtime.Log(), []), seen, noiseTerm, pending)
    {
      hide NoisePrefix, SeenMore, Batch, IsPlan, HiddenBy, NoiseRound, PrefixOfRow, OnlyFrom, NoRepeats, Searched;
      noise := [];
      HiddenNothing(policy, noiseTerm, seen);
      NoBatch(runtime.Log());
      ghost var start, term, seen0 := runtime.Log(), noiseTerm, seen;
      var rows := runtime.SearchNoise(noiseTerm);
      if rows.None? {
        pending := false;
        FailedRound(policy, term, seen);
        return;
      }
      var prefixes := CollectPrefixes(policy.platform, rows.value, noiseTerm);
      PrefixesArePossible(policy, runtime.possible[term], rows.value, term, prefixes);
      var applied;
      applied, noise := HidePrefixes(prefixes);
      SeenMoreSizes(seen0, term, noise);
      BatchSizes(start, runtime.Log(), [], noise);
      SearchedAll(start, runtime.Log());
      if rows.value == [] || applied == 0 {
        noiseTerm := noiseTerm + 1;
      }
      if noiseTerm >= |NOISE_TERMS| {
        pending := false;
      }
      RoundIsDone(policy, rows.value, term, prefixes, noise, Searched(start, runtime.Log(), []), seen0, seen, noiseTerm, pending);
    }

    /** Hides prefixes in any order until sixteen were accepted.  Unless that many were,
        every prefix that is new and does not touch the program has been tried. */
    method HidePrefixes(prefixes: set<string>) returns (applied: nat, ghost noise: seq<string>)
      requires Valid() && noiseTerm < |NOISE_TERMS| && prefixes <= runtime.possible[noiseTerm]
      modifies this`seen, runtime
      ensures Valid() && runtime.roots == old(runtime.roots) && old(runtime.trace) <= runtime.trace
      ensures runtime.searches == old(runtime.searches)
      ensures applied == |noise| <= MUTATION_LIMIT && NoRepeats(noise)
      ensures forall p | p in noise :: p in prefixes && p !in old(seen[noiseTerm])
      ensures seen == SeenMore(old(seen), noiseTerm, noise)
      ensures Batch(old(runtime.Log()), runtime.Log(), [], noise)
      ensures old(runtime.calls) <= runtime.calls
      ensures OnlyFrom(policy, prefixes, runtime.calls[|old(runtime.calls)|..])
      ensures applied < MUTATION_LIMIT ==>
                forall p | p in prefixes ::
                  p in seen[noiseTerm] || policy.touchesInstall(p) || Call(p, false) in runtime.calls[|old(runtime.calls)|..]
    {
      hide SeenMore, Batch, IsPlan, Hiding, IsNoisePrefix, Prepare;
      applied, noise := 0, [];
      ghost var start, seen0, tried := runtime.Log(), seen, [];
      NoBatch(start);
      HidingNothing(policy, prefixes, seen, noiseTerm);
      var rest := prefixes;
      while rest != {} && applied < MUTATION_LIMIT
        invariant Valid() && runtime.roots == old(runtime.roots) && old(runtime.trace) <= runtime.trace
        invariant runtime.searches == old(runtime.searches)
        invariant rest <= prefixes && applied == |noise| <= MUTATION_LIMIT
        invariant Hiding(policy, prefixes, rest, seen0, seen, noiseTerm, noise, tried)
        invariant Batch(start, runtime.Log(), [], noise) && runtime.calls == start.calls + tried
        decreases rest
      {
        var prefix :| prefix in rest;
        HidingStep(policy, prefixes, rest, seen0, seen, noiseTerm, noise, tried, prefix);
        rest := rest - {prefix};
        if prefix in seen[noiseTerm] {
          continue;
        }
        if policy.touchesInstall(prefix) {
          continue;
        }
        ghost var before := runtime.Log();
        var ok := runtime.Exclude(prefix);
        OneMoreNoise(start, before, runtime.Log(), noise, prefix, ok);
        tried := tried + [Call(prefix, ok)];
        if ok {
          seen := seen[noiseTerm := seen[noiseTerm] + {prefix}];
          noise := noise + [prefix];
          applied := applied + 1;
        }
      }
      assert runtime.calls[|start.calls|..] == tried;
      HidingMeans(policy, prefixes, rest, seen0, seen, noiseTerm, noise, tried);
    }

    /** A poll that finds the runtime idle or busy. */
    method PollOnce(idle: bool) returns (ghost fixed: seq<FilePath>, ghost noise: seq<string>)
      requires Valid()
      modifies this, runtime
      ensures Valid() && runtime.roots == old(runtime.roots) && old(runtime.trace) <= runtime.trace
      ensures pending ==> old(pending) && Budget() + (if idle then 1 else 0) <= old(Budget())
      ensures idle && old(Budget()) == 0 ==> !pending
      ensures PollStep(policy, old(State()), State(), fixed, noise)
    {
      hide IsNoisePrefix, IsPlan, Batch, Prepare, PlanStep, HiddenBy, FixedPolls;
      runtime.Settle(!idle);
      ghost var before := runtime.Log();
      fixed, noise := ScrubOneBatch();
      BatchSizes(before, runtime.Log(), fixed, noise);
    }

    /** Polls between which the environment makes the runtime idle or busy as `idle` says.
        After as many idle polls as the budget allows, maintenance is over.  What the polls
        called the runtime for is the next part of the plan and then noise prefixes, of
        which none was accepted twice. */
    method RunPolls(idle: seq<bool>) returns (ghost fixed: seq<FilePath>, ghost hidden: seq<string>)
      requires Valid()
      modifies this, runtime
      ensures Valid() && runtime.roots == old(runtime.roots) && old(runtime.trace) <= runtime.trace
      ensures pending ==> old(pending) && Count(idle) + Budget() <= old(Budget())
      ensures Count(idle) >= old(Budget()) ==> !pending
      ensures Batch(old(runtime.Log()), runtime.Log(), fixed, hidden)
      ensures PlanStep(old(Plan()), Plan(), fixed, runtime.roots)
      ensures Plan().Searching() || |runtime.calls| == |old(runtime.calls)| + |fixed|
      ensures NoRepeats(hidden) && forall p | p in hidden :: NewlyHidden(policy.platform, p, old(seen), seen)
      ensures OnlyNoise(policy, Searched(old(runtime.Log()), runtime.Log(), fixed))
      ensures runtime.exclusions <= old(runtime.exclusions) + Elements(fixed) + Elements(hidden)
      ensures old(FreshRequest()) && fixedReady ==>
                IsPlan(policy, old(runtime.roots), fixedExclusions) && fixed == fixedExclusions[..fixedIndex]
    {
      hide IsNoisePrefix, IsPlan, Batch, Prepare, NoRepeats, Polled, PlanStep, PollStep;
      fixed, hidden := [], [];
      ghost var start := State();
      NothingPolled(policy, start);
      for n := 0 to |idle|
        invariant Valid() && runtime.roots == old(runtime.roots) && old(runtime.trace) <= runtime.trace
        invariant pending ==> old(pending) && Count(idle[..n]) + Budget() <= old(Budget())
        invariant Polled(policy, start, State(), fixed, hidden)
      {
        CountStep(idle, n);
        ghost var before := State();
        ghost var f, h := PollOnce(idle[n]);
        PolledMore(policy, start, before, State(), fixed, hidden, f, h);
        fixed, hidden := fixed + f, hidden + h;
      }
      assert idle[..|idle|] == idle;
      SeenWithinPossible();
      PolledMeans(policy, start, State(), fixed, hidden);
      BatchExclusions(start.log, runtime.Log(), fixed, hidden);
      PlanFromNothing(start.plan, Plan(), fixed, runtime.roots);
    }

    ghost function State(): MaintenanceState
      reads this, runtime
    {
      MaintenanceState(Plan(), seen, runtime.Log(), runtime.roots)
    }

    /** The worker drains maintenance after its crawl, waiting for each crawl a poll starts. */
    method DrainMaintenance(limit: nat) returns (done: bool, ghost fixed: seq<FilePath>, ghost hidden: seq<string>)
      requires Valid() && !runtime.busy
      modifies this, runtime
      ensures Valid() && done == !pending
      ensures old(Budget()) <= limit ==> done
      ensures Polled(policy, old(State()), State(), fixed, hidden)
    {
      hide IsPlan, Prepare, Polled, PollStep, FixedPolls;
      fixed, hidden := [], [];
      ghost var start := State();
      NothingPolled(policy, start);
      var polls := 0;
      SeenWithinPossible();
      while pending && polls < limit
        invariant Valid() && !runtime.busy && polls <= limit
        invariant pending ==> polls + Budget() <= old(Budget())
        invariant Polled(policy, start, State(), fixed, hidden)
        decreases limit - polls
      {
        ghost var before := State();
        ghost var f, h := PollAndWait();
        PolledMore(policy, start, before, State(), fixed, hidden, f, h);
        fixed, hidden := fixed + f, hidden + h;
        polls := polls + 1;
      }
      SeenWithinPossible();
      done := !pending;
    }

    method PollAndWait() returns (ghost fixed: seq<FilePath>, ghost noise: seq<string>)
      requires Valid() && !runtime.busy && pending
      modifies this, runtime
      ensures Valid() && !runtime.busy && Budget() < old(Budget())
      ensures PollStep(policy, old(State()), State(), fixed, noise)
    {
      hide IsNoisePrefix, IsPlan, Batch, Prepare, PlanStep, HiddenBy, FixedPolls;
      fixed, noise := ScrubOneBatch();
      if runtime.busy {
        runtime.WaitForIdle();
      }
    }
  }

  /** `p` is the outermost prefix, ending in the noise term, of some path. */
  ghost predicate IsNoisePrefix(platform: Platform, term: nat, p: string) {
    term < |NOISE_TERMS| && exists path :: NoisePrefix(platform, path, NOISE_TERMS[term]) == Some(p)
  }

  /** The last component of a noise prefix has the length of its term. */
  lemma LastComponentOfPrefix(platform: Platform, term: nat, p: string) returns (a: nat)
    requires IsNoisePrefix(platform, term, p)
    ensures IsComponentAt(p, a, |p|) && |p| - a == |NOISE_TERMS[term]|
  {
    hide NoisePrefix, IsNoiseName, Separator;
    var path :| NoisePrefix(platform, path, NOISE_TERMS[term]) == Some(p);
    TermsAreNoiseNames(term);
    NoisePrefixIsOutermost(platform, path, NOISE_TERMS[term]);
    var a', b: nat :| IsComponentAt(path, a', b) && SameComponent(platform, path[a'..b], NOISE_TERMS[term]) && p == path[..b];
    assert forall i | 0 <= i < b :: p[i] == path[i];
    a := a';
  }

  lemma TermsAreNoiseNames(term: nat)
    requires term < |NOISE_TERMS|
    ensures IsNoiseName(NOISE_TERMS[term])
  {
    assert NOISE_TERMS[term] in NOISE_TERMS;
  }

  /** No prefix belongs to two terms, so no prefix is hidden twice under different ones. */
  lemma PrefixHasOneTerm(platform: Platform, t: nat, u: nat, p: string)
    requires IsNoisePrefix(platform, t, p) && IsNoisePrefix(platform, u, p)
    ensures t == u
  {
    hide IsNoisePrefix, Separator;
    assert t < |NOISE_TERMS| && u < |NOISE_TERMS| by {
      TermInRange(platform, t, p);
      TermInRange(platform, u, p);
    }
    var a := LastComponentOfPrefix(platform, t, p);
    var b := LastComponentOfPrefix(platform, u, p);
    assert a > 0 ==> Separator(p[a - 1]);
    assert b > 0 ==> Separator(p[b - 1]);
    assert a == b;
    assert |NOISE_TERMS[0]| == 12 && |NOISE_TERMS[1]| == 4 && |NOISE_TERMS[2]| == 11;
  }

  lemma TermInRange(platform: Platform, t: nat, p: string)
    requires IsNoisePrefix(platform, t, p)
    ensures t < |NOISE_TERMS|
  {
  }

  /** `p` is the noise prefix of some row. */
  ghost predicate PrefixOfRow(platform: Platform, rows: seq<string>, term: nat, p: string) {
    term < |NOISE_TERMS| && exists row :: row in rows && NoisePrefix(platform, row, NOISE_TERMS[term]) == Some(p)
  }

  method CollectPrefixes(platform: Platform, rows: seq<string>, term: nat) returns (prefixes: set<string>)
    requires term < |NOISE_TERMS|
    ensures forall p :: p in prefixes <==> PrefixOfRow(platform, rows, term, p)
  {
    hide NoisePrefix;
    prefixes := {};
    for i := 0 to |rows|
      invariant forall p :: p in prefixes <==> PrefixOfRow(platform, rows[..i], term, p)
    {
      var prefix := DefaultNoiseDirectoryPrefix(platform, rows[i], NOISE_TERMS[term]);
      assert forall row :: row in rows[..i + 1] <==> row in rows[..i] || row == rows[i];
      forall p
        ensures PrefixOfRow(platform, rows[..i + 1], term, p) <==> PrefixOfRow(platform, rows[..i], term, p) || prefix == Some(p)
      {
        if prefix == Some(p) {
          assert rows[i] in rows[..i + 1];
        }
      }
      if prefix.Some? {
        prefixes := prefixes + {prefix.value};
      }
    }
    assert rows[..|rows|] == rows;
  }

  /** What a search leads to.  A failed search ends maintenance.  Otherwise every prefix of
      a row was seen before, touches the program or has been tried, unless sixteen were
      hidden; nothing else was tried; and a term without rows or without a newly hidden
      prefix is done, the last one ending maintenance. */
  ghost predicate NoiseRound(policy: Policy, search: Search, term: nat, noise: seq<string>, tried: seq<Call>,
      seen: seq<set<string>>, next: nat, pending: bool) {
    && search.term == term
    && match search.rows
       case None => noise == [] && tried == [] && next == term && !pending
       case Some(rows) =>
         && term < |seen|
         && (|noise| < MUTATION_LIMIT ==>
               forall p :: PrefixOfRow(policy.platform, rows, term, p) ==> p in seen[term] || policy.touchesInstall(p) || Call(p, false) in tried)
         && (forall c | c in tried :: PrefixOfRow(policy.platform, rows, term, c.path))
         && next == (if rows == [] || noise == [] then term + 1 else term)
         && pending == (next < 3)
  }

  lemma FailedRound(policy: Policy, term: nat, seen: seq<set<string>>)
    ensures NoiseRound(policy, Search(term, None), term, [], [], seen, term, false)
  {
  }

  lemma PrefixesArePossible(policy: Policy, possible: set<string>, rows: seq<string>, term: nat, prefixes: set<string>)
    requires term < |NOISE_TERMS| && forall p :: p in prefixes <==> PrefixOfRow(policy.platform, rows, term, p)
    requires forall row | row in rows ::
               var prefix := NoisePrefix(policy.platform, row, NOISE_TERMS[term]); prefix.Some? ==> prefix.value in possible
    ensures prefixes <= possible
  {
    hide NoisePrefix;
  }

  lemma SearchedAll(a: Log, b: Log)
    requires a.calls <= b.calls
    ensures Searched(a, b, []) == b.calls[|a.calls|..]
  {
  }

  /** Hiding the prefixes of all rows makes a round. */
  lemma RoundIsDone(policy: Policy, rows: seq<string>, term: nat, prefixes: set<string>, noise: seq<string>, tried: seq<Call>,
      before: seq<set<string>>, now: seq<set<string>>, next: nat, pending: bool)
    requires term < |before| == |now| && now == SeenMore(before, term, noise) && NoRepeats(noise)
    requires forall p :: p in prefixes <==> PrefixOfRow(policy.platform, rows, term, p)
    requires forall p | p in noise :: p in prefixes && p !in before[term]
    requires OnlyFrom(policy, prefixes, tried)
    requires |noise| < MUTATION_LIMIT ==>
               forall p | p in prefixes :: p in now[term] || policy.touchesInstall(p) || Call(p, false) in tried
    requires next == (if rows == [] || noise == [] then term + 1 else term) && pending == (next < 3)
    ensures HiddenBy(policy, noise, tried, term, before, now)
    ensures NoiseRound(policy, Search(term, Some(rows)), term, noise, tried, now, next, pending)
  {
    hide NoisePrefix, SeenMore, NoRepeats;
    forall p | p in prefixes
      ensures IsNoisePrefix(policy.platform, term, p)
    {
      assert PrefixOfRow(policy.platform, rows, term, p);
    }
  }

  // ----- Records of polls -----

  datatype PlanState = PlanState(ready: bool, index: nat, exclusions: seq<FilePath>, roots: seq<FilePath>) {
    /** The whole plan has been tried. */
    predicate Searching() {
      ready && index == |exclusions|
    }
  }

  datatype MaintenanceState = MaintenanceState(plan: PlanState, seen: seq<set<string>>, log: Log, roots: seq<FilePath>)

  /** `fixed` is the next part of the plan.  A plan made on the way is for the roots that
      are installed `now`, and an earlier plan is kept. */
  ghost predicate PlanStep(a: PlanState, b: PlanState, fixed: seq<FilePath>, now: seq<FilePath>) {
    && (a.ready ==> b.ready && b.exclusions == a.exclusions && b.roots == a.roots)
    && (!a.ready && b.ready ==> b.roots == now)
    && var from := if a.ready then a.index else 0;
       if b.ready then from <= b.index <= |b.exclusions| && fixed == b.exclusions[from..b.index] else fixed == []
  }

  lemma PlanTwice(a: PlanState, b: PlanState, c: PlanState, f: seq<FilePath>, g: seq<FilePath>, now: seq<FilePath>)
    requires PlanStep(a, b, f, now) && PlanStep(b, c, g, now)
    ensures PlanStep(a, c, f + g, now)
  {
  }

  /** Once the whole plan has been tried, nothing of it is left to try. */
  lemma PlanSizes(a: PlanState, b: PlanState, f: seq<FilePath>, g: seq<FilePath>, c: PlanState, now: seq<FilePath>)
    requires PlanStep(a, b, f, now) && PlanStep(b, c, g, now)
    ensures b.Searching() ==> g == [] && c.Searching()
  {
  }

  lemma PlanFromNothing(a: PlanState, b: PlanState, fixed: seq<FilePath>, now: seq<FilePath>)
    requires PlanStep(a, b, fixed, now)
    ensures !a.ready && b.ready ==> b.roots == now && b.index <= |b.exclusions| && fixed == b.exclusions[..b.index]
  {
  }

  lemma PlanMade(a: PlanState, b: PlanState, now: seq<FilePath>)
    requires !a.ready && b.ready && b.index == 0 && b.roots == now
    ensures PlanStep(a, b, [], now)
  {
  }

  lemma PlanUnmade(a: PlanState, b: PlanState, now: seq<FilePath>)
    requires !a.ready && !b.ready
    ensures PlanStep(a, b, [], now)
  {
  }

  lemma PlanNothing(a: PlanState, now: seq<FilePath>)
    requires a.ready ==> a.index <= |a.exclusions|
    ensures PlanStep(a, a, [], now)
  {
  }

  function Tried(calls: seq<Call>): (r: seq<FilePath>)
    ensures |r| == |calls|
  {
    seq(|calls|, i requires 0 <= i < |calls| => calls[i].path)
  }

  function Accepted(calls: seq<Call>): seq<FilePath> {
    if calls == [] then []
    else
      var front, last := Accepted(calls[..|calls| - 1]), calls[|calls| - 1];
      if last.accepted then front + [last.path] else front
  }

  lemma {:induction false} AcceptedConcat(a: seq<Call>, b: seq<Call>)
    ensures Accepted(a + b) == Accepted(a) + Accepted(b)
  {
    if b == [] {
      assert a + b == a;
    } else {
      assert (a + b)[..|a + b| - 1] == a + b[..|b| - 1];
      AcceptedConcat(a, b[..|b| - 1]);
    }
  }

  /** The calls between two points are one for every path of `fixed`, in order, and then
      others of which exactly `noise` were accepted; the exclusion table grew by exactly
      what was accepted. */
  ghost predicate Batch(a: Log, b: Log, fixed: seq<FilePath>, noise: seq<string>) {
    && a.calls <= b.calls && |a.calls| + |fixed| <= |b.calls|
    && Tried(b.calls[|a.calls|..|a.calls| + |fixed|]) == fixed
    && Accepted(b.calls[|a.calls| + |fixed|..]) == noise
    && b.exclusions == a.exclusions + Elements(Accepted(b.calls[|a.calls|..]))
  }

  /** The calls behind those for planned paths. */
  function Searched(a: Log, b: Log, fixed: seq<FilePath>): seq<Call> {
    if |a.calls| + |fixed| <= |b.calls| then b.calls[|a.calls| + |fixed|..] else []
  }

  lemma NoBatch(a: Log)
    ensures Batch(a, a, [], []) && Searched(a, a, []) == []
  {
    assert a.calls[|a.calls|..] == [] && Accepted([]) == [];
    assert a.exclusions + Elements([]) == a.exclusions;
  }

  lemma BatchSizes(a: Log, b: Log, fixed: seq<FilePath>, noise: seq<string>)
    requires Batch(a, b, fixed, noise)
    ensures a.calls <= b.calls && |a.calls| + |fixed| <= |b.calls|
  {
  }

  lemma ElementsConcat(a: seq<FilePath>, b: seq<FilePath>)
    ensures Elements(a + b) == Elements(a) + Elements(b)
  {
    assert forall x :: x in a + b <==> x in a || x in b;
  }

  /** The calls of a batch: those for planned paths, and the others. */
  lemma BatchParts(a: Log, b: Log, fixed: seq<FilePath>, noise: seq<string>) returns (x: seq<Call>, y: seq<Call>)
    requires Batch(a, b, fixed, noise)
    ensures b.calls == a.calls + x + y && |x| == |fixed| && Tried(x) == fixed && Accepted(y) == noise
    ensures b.exclusions == a.exclusions + Elements(Accepted(x + y))
  {
    hide Accepted, Elements, Tried;
    x, y := b.calls[|a.calls|..|a.calls| + |fixed|], b.calls[|a.calls| + |fixed|..];
    assert b.calls[|a.calls|..] == x + y;
  }

  lemma BatchOfParts(a: Log, b: Log, x: seq<Call>, y: seq<Call>)
    requires b == Recorded(a.calls + x + y, a.exclusions + Elements(Accepted(x + y)))
    ensures Batch(a, b, Tried(x), Accepted(y))
  {
    hide Accepted, Elements, Tried;
    TriedLength(x);
    assert b.calls[|a.calls|..|a.calls| + |x|] == x && b.calls[|a.calls| + |x|..] == y;
    assert b.calls[|a.calls|..] == x + y;
  }

  lemma TriedLength(x: seq<Call>)
    ensures |Tried(x)| == |x|
  {
  }

  lemma TriedConcat(x: seq<Call>, y: seq<Call>)
    ensures Tried(x + y) == Tried(x) + Tried(y)
  {
  }

  /** Batches follow each other as long as no noise comes before a planned path. */
  lemma BatchTwice(a: Log, b: Log, c: Log, f: seq<FilePath>, n: seq<string>, g: seq<FilePath>, m: seq<string>)
    requires Batch(a, b, f, n) && Batch(b, c, g, m)
    requires g == [] || |b.calls| == |a.calls| + |f|
    ensures Batch(a, c, f + g, n + m)
  {
    hide Accepted, Elements, Tried, Batch;
    var x1, y1 := BatchParts(a, b, f, n);
    var x2, y2 := BatchParts(b, c, g, m);
    var x, y := x1 + x2, y1 + y2;
    assert x1 + y1 + (x2 + y2) == x + y && a.calls + x + y == c.calls by {
      if g == [] {
        assert x2 == [] && x == x1;
      } else {
        assert y1 == [] && y == y2;
      }
    }
    AcceptedConcat(x1 + y1, x2 + y2);
    ElementsConcat(Accepted(x1 + y1), Accepted(x2 + y2));
    TriedConcat(x1, x2);
    AcceptedConcat(y1, y2);
    BatchOfParts(a, c, x, y);
  }

  lemma NoneAccepted()
    ensures Accepted([]) == []
  {
  }

  lemma AcceptedOne(p: FilePath, ok: bool)
    ensures Accepted([Call(p, ok)]) == if ok then [p] else []
  {
    assert [Call(p, ok)][..0] == [];
  }

  /** A single call for a planned path. */
  lemma PlannedCall(a: Log, b: Log, p: FilePath, ok: bool)
    requires b == Recorded(a.calls + [Call(p, ok)], if ok then a.exclusions + {p} else a.exclusions)
    ensures Batch(a, b, [p], []) && |b.calls| == |a.calls| + 1
  {
    hide Accepted;
    assert b.calls[|a.calls|..] == [Call(p, ok)] && b.calls[|a.calls| + 1..] == [];
    NoneAccepted();
    AcceptedOne(p, ok);
    assert b.calls[|a.calls|..|a.calls| + 1] == [Call(p, ok)];
    assert Tried([Call(p, ok)]) == [p];
    assert Elements([p]) == {p} && Elements([]) == {};
  }

  /** A single call for a noise prefix. */
  lemma NoiseCall(a: Log, b: Log, p: FilePath, ok: bool)
    requires b == Recorded(a.calls + [Call(p, ok)], if ok then a.exclusions + {p} else a.exclusions)
    ensures Batch(a, b, [], if ok then [p] else [])
  {
    hide Accepted;
    assert b.calls[|a.calls|..] == [Call(p, ok)];
    AcceptedOne(p, ok);
    assert b.calls[|a.calls|..|a.calls| + 0] == [] && Tried([]) == [];
    assert Elements([p]) == {p} && Elements([]) == {};
  }

  /** The exclusion table after a batch. */
  lemma BatchExclusions(a: Log, b: Log, fixed: seq<FilePath>, noise: seq<string>)
    requires Batch(a, b, fixed, noise)
    ensures a.exclusions + Elements(noise) <= b.exclusions <= a.exclusions + Elements(fixed) + Elements(noise)
  {
    hide Accepted, Elements;
    var x := b.calls[|a.calls|..];
    var head, tail := b.calls[|a.calls|..|a.calls| + |fixed|], b.calls[|a.calls| + |fixed|..];
    assert x == head + tail;
    AcceptedConcat(head, tail);
    ElementsConcat(Accepted(head), noise);
    AcceptedWereTried(head);
  }

  lemma {:induction false} AcceptedWereTried(calls: seq<Call>)
    ensures Elements(Accepted(calls)) <= Elements(Tried(calls))
  {
    if calls != [] {
      var front, last := calls[..|calls| - 1], calls[|calls| - 1];
      AcceptedWereTried(front);
      assert Tried(calls) == Tried(front) + [last.path];
      ElementsConcat(Tried(front), [last.path]);
      ElementsConcat(Accepted(front), [last.path]);
    }
  }

  /** The prefixes hidden for one term: new ones, and only prefixes of that term were tried. */
  ghost predicate HiddenBy(policy: Policy, noise: seq<string>, tried: seq<Call>, term: nat, before: seq<set<string>>, now: seq<set<string>>) {
    && now == SeenMore(before, term, noise)
    && NoRepeats(noise)
    && (forall p | p in noise :: term < |before| && p !in before[term] && IsNoisePrefix(policy.platform, term, p))
    && (forall c | c in tried :: IsNoisePrefix(policy.platform, term, c.path) && !policy.touchesInstall(c.path))
  }

  lemma SearchedParts(a: Log, b: Log, c: Log, fixed: seq<FilePath>)
    requires |b.calls| == |a.calls| + |fixed|
    ensures Searched(a, c, fixed) == Searched(b, c, []) && Searched(b, b, []) == []
  {
  }

  lemma HiddenNothing(policy: Policy, term: nat, seen: seq<set<string>>)
    ensures HiddenBy(policy, [], [], term, seen, seen)
  {
    hide SeenMore;
    SeenMoreNothing(seen, term);
  }

  /** `p` was hidden for some term in which it had not been seen before. */
  ghost predicate NewlyHidden(platform: Platform, p: string, before: seq<set<string>>, now: seq<set<string>>) {
    exists t: nat :: t < |now| == |before| && p in now[t] && p !in before[t] && IsNoisePrefix(platform, t, p)
  }

  ghost predicate OnlyNoise(policy: Policy, tried: seq<Call>) {
    forall c | c in tried :: !policy.touchesInstall(c.path) && exists t: nat :: IsNoisePrefix(policy.platform, t, c.path)
  }

  lemma OnlyNoiseMore(policy: Policy, a: Log, b: Log, c: Log, f: seq<FilePath>, n: seq<string>, g: seq<FilePath>, m: seq<string>)
    requires Batch(a, b, f, n) && Batch(b, c, g, m) && (g == [] || |b.calls| == |a.calls| + |f|)
    requires OnlyNoise(policy, Searched(a, b, f)) && OnlyNoise(policy, Searched(b, c, g))
    ensures OnlyNoise(policy, Searched(a, c, f + g))
  {
    hide IsNoisePrefix, Batch;
    BatchSizes(a, b, f, n);
    BatchSizes(b, c, g, m);
    if g == [] {
      assert Searched(a, c, f + g) == Searched(a, b, f) + Searched(b, c, g);
    } else {
      assert Searched(a, c, f + g) == Searched(b, c, g);
    }
  }

  lemma NothingRepeats()
    ensures NoRepeats([])
  {
  }

  /** Prefixes hidden by a further poll differ from all hidden before. */
  lemma HiddenMore(policy: Policy, seen0: seq<set<string>>, seen1: seq<set<string>>, seen2: seq<set<string>>, term: nat,
      hidden: seq<string>, noise: seq<string>, tried: seq<Call>)
    requires |seen0| == |seen1| && forall t | 0 <= t < |seen0| :: seen0[t] <= seen1[t]
    requires NoRepeats(hidden) && forall p | p in hidden :: NewlyHidden(policy.platform, p, seen0, seen1)
    requires HiddenBy(policy, noise, tried, term, seen1, seen2)
    ensures |seen2| == |seen0| && forall t | 0 <= t < |seen0| :: seen0[t] <= seen2[t]
    ensures NoRepeats(hidden + noise) && forall p | p in hidden + noise :: NewlyHidden(policy.platform, p, seen0, seen2)
    ensures OnlyNoise(policy, tried)
  {
    hide IsNoisePrefix;
    forall i, j | 0 <= i < |hidden| && 0 <= j < |noise|
      ensures hidden[i] != noise[j]
    {
      assert hidden[i] in hidden && noise[j] in noise;
      var t: nat :| t < |seen1| && hidden[i] in seen1[t] && IsNoisePrefix(policy.platform, t, hidden[i]);
      if hidden[i] == noise[j] {
        PrefixHasOneTerm(policy.platform, t, term, hidden[i]);
      }
    }
    forall p | p in hidden + noise
      ensures NewlyHidden(policy.platform, p, seen0, seen2)
    {
      if p in hidden {
        var t: nat :| t < |seen1| && p in seen1[t] && p !in seen0[t] && IsNoisePrefix(policy.platform, t, p);
        assert p in seen2[t];
      } else {
        assert p in seen2[term];
      }
    }
  }

  /** What one poll has done. */
  ghost predicate PollStep(policy: Policy, a: MaintenanceState, b: MaintenanceState, fixed: seq<FilePath>, noise: seq<string>) {
    && a.roots == b.roots
    && Batch(a.log, b.log, fixed, noise)
    && PlanStep(a.plan, b.plan, fixed, b.roots)
    && (b.plan.Searching() || |b.log.calls| == |a.log.calls| + |fixed|)
    && exists term: nat :: HiddenBy(policy, noise, Searched(a.log, b.log, fixed), term, a.seen, b.seen)
  }

  /** What any number of polls have done. */
  ghost predicate Polled(policy: Policy, a: MaintenanceState, b: MaintenanceState, fixed: seq<FilePath>, hidden: seq<string>) {
    && a.roots == b.roots
    && |a.seen| == |b.seen| && (forall t | 0 <= t < |a.seen| :: a.seen[t] <= b.seen[t])
    && Batch(a.log, b.log, fixed, hidden)
    && PlanStep(a.plan, b.plan, fixed, b.roots)
    && (b.plan.Searching() || |b.log.calls| == |a.log.calls| + |fixed|)
    && NoRepeats(hidden) && (forall p | p in hidden :: NewlyHidden(policy.platform, p, a.seen, b.seen))
    && OnlyNoise(policy, Searched(a.log, b.log, fixed))
  }

  lemma NothingPolled(policy: Policy, a: MaintenanceState)
    requires a.plan.ready ==> a.plan.index <= |a.plan.exclusions|
    ensures Polled(policy, a, a, [], [])
  {
    hide Batch;
    NoBatch(a.log);
  }

  lemma PolledMore(policy: Policy, a: MaintenanceState, b: MaintenanceState, c: MaintenanceState,
      fixed: seq<FilePath>, hidden: seq<string>, f: seq<FilePath>, h: seq<string>)
    requires Polled(policy, a, b, fixed, hidden) && PollStep(policy, b, c, f, h)
    ensures Polled(policy, a, c, fixed + f, hidden + h)
  {
    hide Batch, HiddenBy, OnlyNoise, NewlyHidden, Searched, PlanStep;
    PlanSizes(a.plan, b.plan, fixed, f, c.plan, c.roots);
    BatchSizes(a.log, b.log, fixed, hidden);
    BatchSizes(b.log, c.log, f, h);
    BatchTwice(a.log, b.log, c.log, fixed, hidden, f, h);
    PlanTwice(a.plan, b.plan, c.plan, fixed, f, c.roots);
    var tried := Searched(b.log, c.log, f);
    var term: nat :| HiddenBy(policy, h, tried, term, b.seen, c.seen);
    HiddenMore(policy, a.seen, b.seen, c.seen, term, hidden, h, tried);
    OnlyNoiseMore(policy, a.log, b.log, c.log, fixed, hidden, f, h);
  }

  lemma PolledMeans(policy: Policy, a: MaintenanceState, b: MaintenanceState, fixed: seq<FilePath>, hidden: seq<string>)
    requires Polled(policy, a, b, fixed, hidden)
    ensures Batch(a.log, b.log, fixed, hidden) && PlanStep(a.plan, b.plan, fixed, b.roots)
    ensures b.plan.Searching() || |b.log.calls| == |a.log.calls| + |fixed|
    ensures NoRepeats(hidden) && forall p | p in hidden :: NewlyHidden(policy.platform, p, a.seen, b.seen)
    ensures OnlyNoise(policy, Searched(a.log, b.log, fixed))
  {
    hide NewlyHidden, OnlyNoise, PlanStep;
  }

  ghost predicate OnlyFrom(policy: Policy, prefixes: set<string>, tried: seq<Call>) {
    forall c | c in tried :: c.path in prefixes && !policy.touchesInstall(c.path)
  }

  /** In the middle of hiding `prefixes`, with `rest` still to come. */
  ghost predicate Hiding(policy: Policy, prefixes: set<string>, rest: set<string>, before: seq<set<string>>, now: seq<set<string>>,
      term: nat, noise: seq<string>, tried: seq<Call>) {
    && term < |before| == |now|
    && now == SeenMore(before, term, noise) && before[term] <= now[term]
    && NoRepeats(noise)
    && (forall p | p in noise :: p in prefixes && p !in before[term] && p in now[term])
    && OnlyFrom(policy, prefixes, tried)
    && (forall p | p in prefixes && p !in rest :: p in now[term] || policy.touchesInstall(p) || Call(p, false) in tried)
  }

  lemma HidingNothing(policy: Policy, prefixes: set<string>, seen: seq<set<string>>, term: nat)
    requires term < |seen|
    ensures Hiding(policy, prefixes, prefixes, seen, seen, term, [], [])
  {
    hide SeenMore;
    SeenMoreNothing(seen, term);
  }

  /** The next prefix is skipped, refused or hidden. */
  lemma HidingStep(policy: Policy, prefixes: set<string>, rest: set<string>, before: seq<set<string>>, now: seq<set<string>>,
      term: nat, noise: seq<string>, tried: seq<Call>, p: string)
    requires Hiding(policy, prefixes, rest, before, now, term, noise, tried) && p in rest && rest <= prefixes && term < |now|
    ensures p in now[term] || policy.touchesInstall(p) ==> Hiding(policy, prefixes, rest - {p}, before, now, term, noise, tried)
    ensures p !in now[term] && !policy.touchesInstall(p) ==>
              && Hiding(policy, prefixes, rest - {p}, before, now, term, noise, tried + [Call(p, false)])
              && Hiding(policy, prefixes, rest - {p}, before, now[term := now[term] + {p}], term, noise + [p], tried + [Call(p, true)])
  {
    hide SeenMore;
    SeenMoreStep(before, term, noise, p);
  }

  lemma HidingMeans(policy: Policy, prefixes: set<string>, rest: set<string>, before: seq<set<string>>, now: seq<set<string>>,
      term: nat, noise: seq<string>, tried: seq<Call>)
    requires Hiding(policy, prefixes, rest, before, now, term, noise, tried)
    ensures term < |before| == |now| && now == SeenMore(before, term, noise) && NoRepeats(noise)
    ensures forall p | p in noise :: p in prefixes && p !in before[term]
    ensures OnlyFrom(policy, prefixes, tried)
    ensures rest == {} ==> forall p | p in prefixes :: p in now[term] || policy.touchesInstall(p) || Call(p, false) in tried
  {
    hide SeenMore;
  }

  lemma OneMoreNoise(a: Log, b: Log, c: Log, noise: seq<string>, p: FilePath, ok: bool)
    requires Batch(a, b, [], noise)
    requires c == Recorded(b.calls + [Call(p, ok)], if ok then b.exclusions + {p} else b.exclusions)
    ensures Batch(a, c, [], if ok then noise + [p] else noise)
  {
    hide Batch;
    var none: seq<FilePath> := [];
    NoiseCall(b, c, p, ok);
    BatchTwice(a, b, c, none, noise, none, if ok then [p] else []);
    assert none + none == none && noise + [] == noise;
  }

  function Count(flags: seq<bool>): nat {
    if flags == [] then 0 else Count(flags[..|flags| - 1]) + if flags[|flags| - 1] then 1 else 0
  }

  lemma CountStep(flags: seq<bool>, n: nat)
    requires n < |flags|
    ensures Count(flags[..n + 1]) == Count(flags[..n]) + if flags[n] then 1 else 0
  {
    assert flags[..n + 1][..n] == flags[..n];
  }

  // ----- Counting -----

  /** The prefixes seen for each term, after `noise` was hidden for `term`. */
  ghost function SeenMore(seen: seq<set<string>>, term: nat, noise: seq<string>): seq<set<string>> {
    if term < |seen| then seen[term := seen[term] + Elements(noise)] else seen
  }

  lemma SeenMoreNothing(seen: seq<set<string>>, term: nat)
    ensures SeenMore(seen, term, []) == seen
  {
    if term < |seen| {
      assert seen[term] + Elements([]) == seen[term];
    }
  }

  lemma SeenMoreStep(seen: seq<set<string>>, term: nat, noise: seq<string>, prefix: string)
    requires term < |seen|
    ensures SeenMore(seen, term, noise + [prefix])
            == SeenMore(seen, term, noise)[term := SeenMore(seen, term, noise)[term] + {prefix}]
  {
    assert Elements(noise + [prefix]) == Elements(noise) + {prefix};
    assert seen[term] + Elements(noise + [prefix]) == seen[term] + Elements(noise) + {prefix};
  }

  lemma SeenMoreSizes(seen: seq<set<string>>, term: nat, noise: seq<string>)
    requires term < |seen| && NoRepeats(noise) && forall p | p in noise :: p !in seen[term]
    ensures |SeenMore(seen, term, noise)| == |seen|
    ensures |SeenMore(seen, term, noise)[term]| == |seen[term]| + |noise|
    ensures forall t | 0 <= t < |seen| && t != term :: SeenMore(seen, term, noise)[t] == seen[t]
  {
    DisjointSize(seen[term], noise);
  }

  lemma FixedPollsStep(remaining: nat)
    ensures remaining > MUTATION_LIMIT ==> FixedPolls(remaining - MUTATION_LIMIT) + 1 <= FixedPolls(remaining)
    ensures FixedPolls(0) == 0
  {
  }

  function FixedPolls(remaining: nat): nat {
    if remaining <= MUTATION_LIMIT then 0 else (remaining - 1) / MUTATION_LIMIT
  }

  ghost predicate NoRepeats(s: seq<string>) {
    forall i, j | 0 <= i < j < |s| :: s[i] != s[j]
  }

  lemma {:induction false} SubsetSize(a: set<string>, b: set<string>)
    requires a <= b
    ensures |a| <= |b|
  {
    assert b == a + (b - a);
    assert |b| == |a| + |b - a|;
  }

  lemma {:induction false} DisjointSize(before: set<string>, noise: seq<string>)
    requires NoRepeats(noise) && forall p | p in noise :: p !in before
    ensures |before + Elements(noise)| == |before| + |noise|
  {
    if noise == [] {
      assert before + Elements(noise) == before;
    } else {
      var front, last := noise[..|noise| - 1], noise[|noise| - 1];
      DisjointSize(before, front);
      assert noise == front + [last];
      assert last !in before + Elements(front);
      assert before + Elements(noise) == before + Elements(front) + {last};
    }
  }

  function WithoutKey(policy: Policy, roots: seq<ResolvedRoot>, key: string): seq<ResolvedRoot> {
    if roots == [] then []
    else
      var front := WithoutKey(policy, roots[..|roots| - 1], key);
      var last := roots[|roots| - 1];
      if policy.key(last.path) != key then front + [last] else front
  }

  /** The roots with other keys, in their order. */
  lemma {:induction false} WithoutKeyIsPicked(policy: Policy, roots: seq<ResolvedRoot>, key: string) returns (at: seq<nat>)
    ensures Picked(roots, WithoutKey(policy, roots, key), at)
    ensures forall i: nat | i < |roots| :: i in at <==> policy.key(roots[i].path) != key
  {
    hide Picked;
    if roots == [] {
      at := [];
      NothingPicked<ResolvedRoot>();
    } else {
      var front, last := roots[..|roots| - 1], roots[|roots| - 1];
      var before := WithoutKeyIsPicked(policy, front, key);
      assert roots == front + [last];
      var keep := policy.key(last.path) != key;
      PickedStep(front, WithoutKey(policy, front, key), before, last, keep);
      at := if keep then before + [|front|] else before;
      assert forall i: nat | i < |front| :: roots[i] == front[i];
    }
  }

  /** The erase loop of a removal. */
  method DropKey(policy: Policy, roots: seq<ResolvedRoot>, key: string) returns (rest: seq<ResolvedRoot>, explicit: bool)
    ensures rest == WithoutKey(policy, roots, key)
    ensures explicit <==> HasExplicit(policy, roots, key)
  {
    explicit, rest := false, [];
    for i := 0 to |roots|
      invariant rest == WithoutKey(policy, roots[..i], key)
      invariant explicit <==> HasExplicit(policy, roots[..i], key)
    {
      assert roots[..i + 1][..i] == roots[..i] && roots[..i + 1] == roots[..i] + [roots[i]];
      HasKeyMore(policy, roots[..i], roots[i], key);
      if policy.key(roots[i].path) != key {
        rest := rest + [roots[i]];
      } else {
        explicit := explicit || roots[i].explicitAppData;
      }
    }
    assert roots[..|roots|] == roots;
  }

  lemma NothingPrevious(trace: seq<View>, from: nat, p: Prepared, previous: Result<Prepared, string>)
    requires AllInstalling(trace, from, |trace|, p)
    ensures NewThenPrevious(trace, from, p, previous)
  {
    if previous.Ok? {
      assert AllInstalling(trace, |trace|, |trace|, previous.value);
    }
  }

  /** A path without a relative of its key among the roots is not one of them. */
  lemma NewPath(policy: Policy, roots: seq<FilePath>, path: FilePath)
    ensures var current := ResolveAllPersisted(policy, roots);
            && (FindKey(policy, current, path) < |current| <==> HasKey(policy, current, policy.key(path)))
            && (FindKey(policy, current, path) == |current| ==> path !in roots)
  {
    var current := ResolveAllPersisted(policy, roots);
    var i := FindKey(policy, current, path);
    if path in roots {
      var k :| 0 <= k < |roots| && roots[k] == path;
      assert current[k].path == path;
    }
  }
}
