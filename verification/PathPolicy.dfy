/** Default index policy on paths: the containment test, the noise-directory
    prefix, the splitting of exclusions around the installed program, and the
    combination of per-root plans.
  */
module PathPolicy {

  import opened Results
  import opened Text

  /** A normalised path as its components, folded to one case where case does not matter. */
  type Path = seq<string>

  // ----- The containment test on keys -----

  predicate IsComponent(c: string) {
    c != "" && '/' !in c
  }

  predicate IsPath(p: Path) {
    forall c | c in p :: IsComponent(c)
  }

  /** Every component behind a slash. */
  function Slashed(p: Path): string {
    if p == [] then "" else "/" + p[0] + Slashed(p[1..])
  }

  /** The key of an absolute path: `/a/b` on POSIX systems, where the root keeps its slash. */
  function PosixKey(p: Path): string {
    if p == [] then "/" else Slashed(p)
  }

  /** `c:/a/b`: on Windows the drive is a component, and its trailing slash is removed. */
  function WindowsKey(p: Path): string
    requires p != []
  {
    p[0] + Slashed(p[1..])
  }

  predicate KeyIsWithin(candidate: string, parent: string) {
    if candidate == parent then true
    else if parent == "" || |candidate| <= |parent| then false
    else if candidate[..|parent|] != parent then false
    else parent[|parent| - 1] == '/' || candidate[|parent|] == '/'
  }

  /** `s` starts with `t` and then ends or continues with a slash. */
  predicate StartsAligned(s: string, t: string) {
    t <= s && (|s| == |t| || s[|t|] == '/')
  }

  predicate EndsOrSlash(s: string) {
    s == "" || s[0] == '/'
  }

  function FirstSlash(s: string): nat {
    if s == "" || s[0] == '/' then 0 else 1 + FirstSlash(s[1..])
  }

  lemma {:induction false} FirstSlashAfter(x: string, a: string)
    requires '/' !in x && EndsOrSlash(a)
    ensures FirstSlash(x + a) == |x|
  {
    if x == "" {
      assert x + a == a;
    } else {
      assert (x + a)[1..] == x[1..] + a;
      FirstSlashAfter(x[1..], a);
    }
  }

  lemma FirstComponentUnique(x: string, a: string, y: string, b: string)
    requires x + a == y + b
    requires '/' !in x && '/' !in y && EndsOrSlash(a) && EndsOrSlash(b)
    ensures x == y && a == b
  {
    FirstSlashAfter(x, a);
    FirstSlashAfter(y, b);
    assert x == (x + a)[..|x|] && y == (y + b)[..|y|];
    assert a == (x + a)[|x|..] && b == (y + b)[|y|..];
  }

  lemma SlashedStep(p: Path)
    requires p != []
    ensures Slashed(p) == "/" + p[0] + Slashed(p[1..])
  {
  }

  lemma {:induction false} PrefixIsAligned(c: Path, p: Path)
    requires p <= c
    ensures StartsAligned(Slashed(c), Slashed(p))
    decreases |p|
  {
    hide Slashed;
    if p == [] {
      assert Slashed(p) == "" by { NothingSlashed(); }
      StartsWithSlash(c);
    } else {
      PrefixIsAligned(c[1..], p[1..]);
      SlashedStep(c);
      SlashedStep(p);
    }
  }

  lemma NothingSlashed()
    ensures Slashed([]) == ""
  {
  }

  lemma StartsWithSlash(c: Path)
    ensures EndsOrSlash(Slashed(c))
    ensures Slashed(c) == "" <==> c == []
  {
  }

  lemma {:induction false} AlignedIsPrefix(c: Path, p: Path, rest: string)
    requires IsPath(c) && IsPath(p) && EndsOrSlash(rest)
    requires Slashed(c) == Slashed(p) + rest
    ensures p <= c
    decreases |p|
  {
    hide Slashed;
    if p != [] {
      StartsWithSlash(p);
      StartsWithSlash(c);
      SlashedStep(c);
      SlashedStep(p);
      var s, t := Slashed(c[1..]), Slashed(p[1..]);
      assert c[0] + s == Slashed(c)[1..] == p[0] + (t + rest);
      assert IsComponent(c[0]) && IsComponent(p[0]);
      StartsWithSlash(c[1..]);
      StartsWithSlash(p[1..]);
      FirstComponentUnique(c[0], s, p[0], t + rest);
      AlignedIsPrefix(c[1..], p[1..], rest);
      assert c == [c[0]] + c[1..] && p == [p[0]] + p[1..];
    }
  }

  lemma AlignedIffPrefix(c: Path, p: Path)
    requires IsPath(c) && IsPath(p)
    ensures StartsAligned(Slashed(c), Slashed(p)) <==> p <= c
  {
    hide Slashed;
    if p <= c {
      PrefixIsAligned(c, p);
    }
    var s, t := Slashed(c), Slashed(p);
    if StartsAligned(s, t) {
      assert s == t + s[|t|..];
      AlignedIsPrefix(c, p, s[|t|..]);
    }
  }

  /** On POSIX keys the string test decides containment of paths. */
  lemma PosixKeyWithin(c: Path, p: Path)
    requires IsPath(c) && IsPath(p)
    ensures KeyIsWithin(PosixKey(c), PosixKey(p)) <==> p <= c
  {
    AlignedIffPrefix(c, p);
    SlashedEnd(p);
  }

  /** The last character of a key is a slash only for the POSIX root. */
  lemma {:induction false} SlashedEnd(p: Path)
    requires IsPath(p)
    ensures p != [] ==> |Slashed(p)| > 1 && Slashed(p)[0] == '/' && Slashed(p)[|Slashed(p)| - 1] != '/'
    decreases |p|
  {
    if p != [] {
      SlashedEnd(p[1..]);
      assert IsComponent(p[0]);
      if p[1..] == [] {
        assert Slashed(p) == "/" + p[0];
        assert p[0][|p[0]| - 1] in p[0];
      }
    }
  }

  /** On Windows keys the string test decides containment of paths. */
  lemma WindowsKeyWithin(c: Path, p: Path)
    requires IsPath(c) && IsPath(p) && c != [] && p != []
    ensures KeyIsWithin(WindowsKey(c), WindowsKey(p)) <==> p <= c
  {
    hide Slashed;
    AlignedIffPrefix(c, p);
    SlashedStep(c);
    SlashedStep(p);
    LastOfWindowsKey(p);
    assert Slashed(c) == "/" + WindowsKey(c) && Slashed(p) == "/" + WindowsKey(p);
    AfterSlash(WindowsKey(c), WindowsKey(p));
  }

  lemma LastOfWindowsKey(p: Path)
    requires IsPath(p) && p != []
    ensures WindowsKey(p) != "" && WindowsKey(p)[|WindowsKey(p)| - 1] != '/'
  {
    SlashedEnd(p);
    assert Slashed(p) == "/" + WindowsKey(p);
  }

  lemma AfterSlash(a: string, b: string)
    ensures StartsAligned("/" + a, "/" + b) <==> StartsAligned(a, b)
  {
    if "/" + b <= "/" + a {
      assert ("/" + a)[1..] == a && ("/" + b)[1..] == b;
      assert ("/" + a)[..|b| + 1][1..] == a[..|b|];
    }
    if b <= a {
      assert ("/" + a)[..|b| + 1] == "/" + a[..|b|];
    }
  }

  // ----- Noise directories -----

  datatype Platform = Windows | Unix

  const NOISE_TERMS: seq<string> := ["node_modules", ".git", "__pycache__"]

  predicate IsNoiseName(name: string) {
    exists t | t in NOISE_TERMS :: LowerAll(name) == LowerAll(t)
  }

  predicate SameComponent(platform: Platform, a: string, b: string) {
    if platform.Windows? then LowerAll(a) == LowerAll(b) else a == b
  }

  predicate Separator(c: char) {
    c == '/' || c == '\\'
  }

  function SkipSeparators(path: string, start: nat): (r: nat)
    requires start <= |path|
    ensures start <= r <= |path|
    ensures forall i | start <= i < r :: Separator(path[i])
    ensures r == |path| || !Separator(path[r])
    decreases |path| - start
  {
    if start < |path| && Separator(path[start]) then SkipSeparators(path, start + 1) else start
  }

  function ComponentEnd(path: string, start: nat): (r: nat)
    requires start <= |path|
    ensures start <= r <= |path|
    ensures forall i | start <= i < r :: !Separator(path[i])
    ensures r == |path| || Separator(path[r])
    decreases |path| - start
  {
    if start < |path| && !Separator(path[start]) then ComponentEnd(path, start + 1) else start
  }

  /** The search of the source, from position `start`. */
  function NoisePrefixFrom(platform: Platform, path: string, name: string, start: nat): Option<string>
    requires start <= |path|
    decreases |path| - start
  {
    var a := SkipSeparators(path, start);
    if a == |path| then None
    else
      var b := ComponentEnd(path, a);
      if SameComponent(platform, path[a..b], name) then Some(path[..b])
      else if b == |path| then None
      else NoisePrefixFrom(platform, path, name, b + 1)
  }

  function NoisePrefix(platform: Platform, path: string, name: string): Option<string> {
    if IsNoiseName(name) then NoisePrefixFrom(platform, path, name, 0) else None
  }

  /** The three nested scans over the path. */
  method DefaultNoiseDirectoryPrefix(platform: Platform, path: string, name: string) returns (r: Option<string>)
    ensures r == NoisePrefix(platform, path, name)
  {
    hide IsNoiseName, SameComponent, Separator, NoisePrefixFrom, SkipSeparators, ComponentEnd;
    if !IsNoiseName(name) {
      return None;
    }
    var start := 0;
    while start < |path|
      invariant 0 <= start
      invariant NoisePrefixFrom(platform, path, name, 0)
             == if start <= |path| then NoisePrefixFrom(platform, path, name, start) else None
    {
      ghost var from := start;
      while start < |path| && Separator(path[start])
        invariant from <= start <= |path|
        invariant SkipSeparators(path, from) == SkipSeparators(path, start)
      {
        SkipStep(path, start);
        start := start + 1;
      }
      SkipStep(path, start);
      NoisePrefixStep(platform, path, name, from);
      if start >= |path| {
        return None;
      }
      var end := start;
      while end < |path| && !Separator(path[end])
        invariant start <= end <= |path|
        invariant ComponentEnd(path, start) == ComponentEnd(path, end)
      {
        EndStep(path, end);
        end := end + 1;
      }
      EndStep(path, end);
      if SameComponent(platform, path[start..end], name) {
        return Some(path[..end]);
      }
      start := end + 1;
    }
    NoisePrefixAtEnd(platform, path, name);
    r := None;
  }

  lemma SkipStep(path: string, start: nat)
    requires start <= |path|
    ensures SkipSeparators(path, start)
            == if start < |path| && Separator(path[start]) then SkipSeparators(path, start + 1) else start
  {
  }

  lemma EndStep(path: string, start: nat)
    requires start <= |path|
    ensures ComponentEnd(path, start)
            == if start < |path| && !Separator(path[start]) then ComponentEnd(path, start + 1) else start
  {
  }

  lemma NoisePrefixAtEnd(platform: Platform, path: string, name: string)
    ensures NoisePrefixFrom(platform, path, name, |path|) == None
  {
  }

  lemma NoisePrefixStep(platform: Platform, path: string, name: string, start: nat)
    requires start <= |path|
    ensures var a := SkipSeparators(path, start);
            NoisePrefixFrom(platform, path, name, start)
            == if a == |path| then None
               else
                 var b := ComponentEnd(path, a);
                 if SameComponent(platform, path[a..b], name) then Some(path[..b])
                 else if b == |path| then None
                 else NoisePrefixFrom(platform, path, name, b + 1)
  {
  }

  /** `[a, b)` is a whole component of the path. */
  ghost predicate IsComponentAt(path: string, a: nat, b: nat) {
    && a < b <= |path|
    && (forall i | a <= i < b :: !Separator(path[i]))
    && (a == 0 || Separator(path[a - 1]))
    && (b == |path| || Separator(path[b]))
  }

  lemma NextComponent(path: string, a: nat, b: nat, c: nat, d: nat)
    requires IsComponentAt(path, a, b) && IsComponentAt(path, c, d) && a <= c
    ensures (c == a ==> d == b) && (c != a ==> b + 1 <= c)
  {
    hide Separator;
    var atD := if d < |path| then path[d] else ' ';
    var atB := if b < |path| then path[b] else ' ';
    var beforeC := if 0 < c then path[c - 1] else ' ';
  }

  lemma {:induction false} OutermostFrom(platform: Platform, path: string, name: string, start: nat)
    requires start <= |path| && (start == 0 || Separator(path[start - 1]))
    ensures match NoisePrefixFrom(platform, path, name, start)
            case Some(p) =>
              exists a: nat, b: nat ::
                && start <= a && IsComponentAt(path, a, b) && SameComponent(platform, path[a..b], name)
                && p == path[..b]
                && forall c: nat, d: nat | start <= c && IsComponentAt(path, c, d) && SameComponent(platform, path[c..d], name) :: a <= c
            case None =>
              forall c: nat, d: nat | start <= c && IsComponentAt(path, c, d) :: !SameComponent(platform, path[c..d], name)
    decreases |path| - start
  {
    hide SameComponent, Separator;
    var a := SkipSeparators(path, start);
    forall c: nat, d: nat | start <= c && IsComponentAt(path, c, d)
      ensures a <= c && a < |path|
    {
      var atC := path[c];
    }
    if a < |path| {
      var b := ComponentEnd(path, a);
      assert IsComponentAt(path, a, b);
      forall c: nat, d: nat | start <= c && IsComponentAt(path, c, d)
        ensures (c == a ==> d == b) && (c != a ==> b + 1 <= c)
      {
        NextComponent(path, a, b, c, d);
      }
      if !SameComponent(platform, path[a..b], name) && b < |path| {
        OutermostFrom(platform, path, name, b + 1);
      }
    }
  }

  /** The prefix ends at the outermost component that equals the noise name, and there
      is none only if no component does. */
  lemma NoisePrefixIsOutermost(platform: Platform, path: string, name: string)
    requires IsNoiseName(name)
    ensures match NoisePrefix(platform, path, name)
            case Some(p) =>
              exists a: nat, b: nat ::
                && IsComponentAt(path, a, b) && SameComponent(platform, path[a..b], name)
                && p == path[..b]
                && forall c: nat, d: nat | IsComponentAt(path, c, d) && SameComponent(platform, path[c..d], name) :: a <= c
            case None =>
              forall c: nat, d: nat | IsComponentAt(path, c, d) :: !SameComponent(platform, path[c..d], name)
  {
    hide SameComponent, NoisePrefixFrom;
    OutermostFrom(platform, path, name, 0);
  }

  // ----- Lists of exclusions -----

  ghost predicate Distinct(s: seq<Path>) {
    forall i, j | 0 <= i < j < |s| :: s[i] != s[j]
  }

  /** The vector of exclusions and the set of keys already in it. */
  class ExclusionList {
    var out: seq<Path>
    var seen: set<Path>

    ghost predicate Valid()
      reads this
    {
      && Distinct(out)
      && (forall p :: p in seen <==> p in out)
      && [] !in out
    }

    constructor ()
      ensures Valid() && out == []
    {
      out, seen := [], {};
    }

    method AppendUnique(value: Path)
      requires Valid()
      modifies this
      ensures Valid()
      ensures out == if value == [] || value in old(out) then old(out) else old(out) + [value]
    {
      if value != [] && value !in seen {
        seen := seen + {value};
        out := out + [value];
      }
    }

    /** Adds every listed child of `parent` but the allowed one and reparse points. */
    method AppendChildrenExcept(listing: Listing, parent: Path, allowed: Path)
      requires Valid()
      modifies this
      ensures Valid() && old(out) <= out
      ensures forall p :: p in out <==> p in old(out) || (IsListedChild(listing, parent, p) && p != allowed)
    {
      if parent !in listing {
        return;
      }
      var children := listing[parent];
      for i := 0 to |children|
        invariant Valid() && old(out) <= out
        invariant forall p :: p in out <==>
                    p in old(out) || (p != allowed && exists c :: c in children[..i] && !c.reparse && p == parent + [c.name])
      {
        ghost var before := out;
        var child := children[i];
        assert forall c :: c in children[..i + 1] <==> c in children[..i] || c == child;
        if child.reparse {
          continue;
        }
        var candidate := parent + [child.name];
        if candidate == allowed {
          continue;
        }
        AppendUnique(candidate);
      }
      assert children[..|children|] == children;
    }
  }

  /** What a directory scan returns; a scan that breaks off is a shorter list. */
  datatype Child = Child(name: string, reparse: bool)

  type Listing = map<Path, seq<Child>>

  ghost predicate IsListedChild(listing: Listing, parent: Path, p: Path) {
    parent in listing && exists c :: c in listing[parent] && !c.reparse && p == parent + [c.name]
  }

  // ----- Splitting around the installed program -----

  /** `p` is listed beside the way down from some split exclusion to the program. */
  ghost predicate BesideTheWay(listing: Listing, install: Path, from: nat, p: Path) {
    exists k: nat :: from <= k < |install| && IsListedChild(listing, install[..k], p) && p != install[..k + 1]
  }

  /** What becomes of one exclusion: dropped, kept, or split. */
  ghost predicate SplitOf(listing: Listing, e: Path, install: Path, p: Path) {
    && !(install <= e)
    && if e <= install then BesideTheWay(listing, install, |e|, p) else p == e
  }

  ghost predicate InSplit(listing: Listing, original: seq<Path>, install: Path, p: Path) {
    exists e :: e in original && SplitOf(listing, e, install, p)
  }

  method SplitAroundInstall(original: seq<Path>, install: Path, listing: Listing) returns (list: ExclusionList)
    requires [] !in original
    ensures fresh(list) && list.Valid()
    ensures forall p :: p in list.out <==> InSplit(listing, original, install, p)
  {
    list := new ExclusionList();
    for i := 0 to |original|
      invariant fresh(list) && list.Valid()
      invariant forall p :: p in list.out <==> InSplit(listing, original[..i], install, p)
    {
      hide InSplit, SplitOf, BesideTheWay;
      var excluded := original[i];
      ghost var before := list.out;
      SplitStep(listing, original, i, install);
      SplitCases(listing, excluded, install);
      assert original[i] in original;
      if install <= excluded {
        continue;
      }
      if !(excluded <= install) {
        list.AppendUnique(excluded);
        continue;
      }
      var cursor := install;
      while cursor != excluded
        invariant fresh(list) && list.Valid()
        invariant excluded <= cursor <= install
        invariant forall p :: p in list.out <==> p in before || BesideTheWay(listing, install, |cursor|, p)
        decreases |cursor|
      {
        var parent := cursor[..|cursor| - 1];
        assert parent == install[..|parent|] && cursor == install[..|parent| + 1];
        WayStep(listing, install, |parent|);
        list.AppendChildrenExcept(listing, parent, cursor);
        cursor := parent;
      }
    }
    assert original[..|original|] == original;
  }

  lemma SplitCases(listing: Listing, e: Path, install: Path)
    ensures install <= e ==> forall p :: !SplitOf(listing, e, install, p)
    ensures !(e <= install) && !(install <= e) ==> forall p :: SplitOf(listing, e, install, p) <==> p == e
    ensures e <= install && !(install <= e) ==>
              forall p :: SplitOf(listing, e, install, p) <==> BesideTheWay(listing, install, |e|, p)
    ensures forall p :: !BesideTheWay(listing, install, |install|, p)
  {
  }

  lemma WayStep(listing: Listing, install: Path, k: nat)
    requires k < |install|
    ensures forall p :: BesideTheWay(listing, install, k, p) <==>
              BesideTheWay(listing, install, k + 1, p) || (IsListedChild(listing, install[..k], p) && p != install[..k + 1])
  {
    hide IsListedChild;
    forall p | IsListedChild(listing, install[..k], p) && p != install[..k + 1]
      ensures BesideTheWay(listing, install, k, p)
    {
    }
  }

  lemma SplitStep(listing: Listing, original: seq<Path>, i: nat, install: Path)
    requires i < |original|
    ensures forall p :: InSplit(listing, original[..i + 1], install, p) <==>
              InSplit(listing, original[..i], install, p) || SplitOf(listing, original[i], install, p)
  {
    hide SplitOf;
    var before, after := original[..i], original[..i + 1];
    assert after == before + [original[i]];
    forall p
      ensures InSplit(listing, after, install, p) <==> InSplit(listing, before, install, p) || SplitOf(listing, original[i], install, p)
    {
      if SplitOf(listing, original[i], install, p) {
        assert original[i] in after;
      }
      if InSplit(listing, before, install, p) {
        var e :| e in before && SplitOf(listing, e, install, p);
        assert e in after;
      }
    }
  }

  // ----- What the split covers -----

  ghost predicate Covered(list: seq<Path>, p: Path) {
    exists x :: x in list && x <= p
  }

  /** Where `p` leaves the way down to the program, the scan of that directory saw the
      next component of `p`, and it was not a reparse point. */
  ghost predicate Seen(listing: Listing, install: Path, p: Path) {
    forall k: nat | k < |install| && k < |p| && p[..k] == install[..k] && p[k] != install[k] ::
      IsListedChild(listing, install[..k], p[..k + 1])
  }

  /** Whatever the scans saw, the split never hides the program and never covers
      more than the original list. */
  lemma SplitIsSound(listing: Listing, original: seq<Path>, install: Path, out: seq<Path>, p: Path)
    requires forall x :: x in out <==> InSplit(listing, original, install, x)
    requires Covered(out, p)
    ensures Covered(original, p) && !(install <= p) && !(p <= install)
  {
    var x :| x in out && x <= p;
    var e :| e in original && SplitOf(listing, e, install, x);
    if e <= install {
      OffTheWay(listing, install, |e|, x);
      PrefixTransitive(e, x, p);
    }
    ComparableBelow(x, install, p);
  }

  /** A path beside the way lies below the split exclusion and off the way. */
  lemma OffTheWay(listing: Listing, install: Path, from: nat, x: Path)
    requires BesideTheWay(listing, install, from, x)
    ensures from < |install| && install[..from] <= x && !(x <= install) && !(install <= x)
  {
    var k: nat :| from <= k < |install| && IsListedChild(listing, install[..k], x) && x != install[..k + 1];
    assert x[..k] == install[..k] && |x| == k + 1;
    assert install[..from] == install[..k][..from] == x[..from];
    assert x == x[..k] + [x[k]] && install[..k + 1] == install[..k] + [install[k]];
  }

  lemma PrefixTransitive(x: Path, y: Path, z: Path)
    requires x <= y && y <= z
    ensures x <= z
  {
  }

  lemma PrefixesComparable(x: Path, y: Path, p: Path)
    requires x <= p && y <= p
    ensures x <= y || y <= x
  {
    assert x == p[..|x|] && y == p[..|y|];
    var short, long := if |x| <= |y| then (x, y) else (y, x), p;
    assert short.0 == p[..|short.0|] == short.1[..|short.0|];
  }

  lemma ComparableBelow(x: Path, y: Path, p: Path)
    requires x <= p && !(x <= y) && !(y <= x)
    ensures !(y <= p) && !(p <= y)
  {
    if y <= p {
      PrefixesComparable(x, y, p);
    }
    if p <= y {
      PrefixTransitive(x, p, y);
    }
  }

  /** With complete scans the split is exact. */
  lemma SplitIsExact(listing: Listing, original: seq<Path>, install: Path, out: seq<Path>, p: Path)
    requires forall x :: x in out <==> InSplit(listing, original, install, x)
    requires Seen(listing, install, p) && [] !in original
    ensures Covered(out, p) <==> Covered(original, p) && !(install <= p) && !(p <= install)
  {
    if Covered(out, p) {
      SplitIsSound(listing, original, install, out, p);
    }
    if Covered(original, p) && !(install <= p) && !(p <= install) {
      var x :| x in original && x <= p;
      if install <= x {
        PrefixTransitive(install, x, p);
      }
      if x <= install {
        var k := Divergence(p, install);
        var y := p[..k + 1];
        assert IsListedChild(listing, install[..k], y);
        assert y[k] == p[k] && install[..k + 1][k] == install[k];
        BelowDivergence(x, p, install, k);
        assert BesideTheWay(listing, install, |x|, y);
        assert SplitOf(listing, x, install, y);
        assert y in out && y <= p;
      } else {
        assert SplitOf(listing, x, install, x);
        assert x in out;
      }
    }
  }

  lemma BelowDivergence(x: Path, p: Path, q: Path, k: nat)
    requires x <= p && x <= q && k < |p| && k < |q| && p[k] != q[k]
    ensures |x| <= k
  {
    assert forall i | 0 <= i < |x| :: p[i] == x[i] && q[i] == x[i];
  }

  /** The first component in which two incomparable paths differ. */
  lemma {:induction false} Divergence(p: Path, q: Path) returns (k: nat)
    requires !(p <= q) && !(q <= p)
    ensures k < |p| && k < |q| && p[..k] == q[..k] && p[k] != q[k]
    decreases |p|
  {
    if p[0] != q[0] {
      return 0;
    }
    assert p == [p[0]] + p[1..] && q == [q[0]] + q[1..];
    assert !(p[1..] <= q[1..]) && !(q[1..] <= p[1..]);
    var j := Divergence(p[1..], q[1..]);
    k := j + 1;
    assert p[..k] == [p[0]] + p[1..][..j] && q[..k] == [q[0]] + q[1..][..j];
  }

  // ----- The plan of one root -----

  datatype RootRequest = RootRequest(root: Path, explicitAppData: bool)

  /** What Windows says about paths: where the program is installed (nowhere if empty),
      the known AppData folders, the protected trees and the fixed exclusions that belong
      to a root. */
  datatype Environment = Environment(
    install: Path,
    appData: Path -> bool,
    protected: Path -> bool,
    fixed: Path -> seq<Path>)

  datatype Refusal = EmptyRoot | NoiseRoot | NotAppData | ProtectedTree

  ghost predicate Related(a: Path, b: Path) {
    a <= b || b <= a
  }

  predicate InsideInstall(env: Environment, root: Path) {
    env.install != [] && env.install <= root
  }

  /** Why a root is refused, in the order of the checks. */
  ghost predicate RefusedFor(env: Environment, r: RootRequest, why: Refusal) {
    var outside := r.root != [] && !InsideInstall(env, r.root);
    var named := outside && !IsNoiseName(r.root[|r.root| - 1]);
    match why
    case EmptyRoot => r.root == []
    case NoiseRoot => outside && IsNoiseName(r.root[|r.root| - 1])
    case NotAppData => named && r.explicitAppData && !env.appData(r.root)
    case ProtectedTree =>
      named && !r.explicitAppData && (env.protected(r.root) || exists x :: x in env.fixed(r.root) && x <= r.root)
  }

  /** The exclusions of a root: those fixed ones that lie below it, and none for the
      installed program or an explicitly chosen AppData root. */
  ghost predicate InPlan(env: Environment, r: RootRequest, x: Path) {
    !InsideInstall(env, r.root) && !r.explicitAppData && x in env.fixed(r.root) && r.root <= x
  }

  method PlanRoot(env: Environment, r: RootRequest) returns (plan: Result<seq<Path>, Refusal>)
    ensures forall why :: plan == Err(why) <==> RefusedFor(env, r, why)
    ensures plan.Ok? ==> Distinct(plan.value) && forall x :: x in plan.value <==> InPlan(env, r, x)
    // What a root excludes lies strictly below it.
    ensures plan.Ok? ==> forall x | x in plan.value :: r.root <= x && x != r.root
  {
    hide IsNoiseName;
    if r.root == [] {
      return Err(EmptyRoot);
    }
    if InsideInstall(env, r.root) {
      return Ok([]);
    }
    if IsNoiseName(r.root[|r.root| - 1]) {
      return Err(NoiseRoot);
    }
    var explicit := r.explicitAppData && env.appData(r.root);
    if r.explicitAppData && !explicit {
      return Err(NotAppData);
    }
    if !explicit && env.protected(r.root) {
      return Err(ProtectedTree);
    }
    var fixed := env.fixed(r.root);
    if explicit {
      fixed := DropRelated(fixed, r.root);
    }
    var seen := new ExclusionList();
    for i := 0 to |fixed|
      invariant fresh(seen) && seen.Valid()
      invariant forall x | x in fixed[..i] :: !(x <= r.root)
      invariant forall x :: x in seen.out <==> x in fixed[..i] && r.root <= x
    {
      assert fixed[..i + 1] == fixed[..i] + [fixed[i]];
      if fixed[i] <= r.root {
        assert fixed[i] in fixed;
        return Err(ProtectedTree);
      }
      if r.root <= fixed[i] {
        seen.AppendUnique(fixed[i]);
      }
    }
    assert fixed[..|fixed|] == fixed;
    plan := Ok(seen.out);
  }

  method DropRelated(fixed: seq<Path>, root: Path) returns (kept: seq<Path>)
    ensures forall x :: x in kept <==> x in fixed && !Related(x, root)
  {
    kept := [];
    for i := 0 to |fixed|
      invariant forall x :: x in kept <==> x in fixed[..i] && !Related(x, root)
    {
      assert fixed[..i + 1] == fixed[..i] + [fixed[i]];
      if !(fixed[i] <= root) && !(root <= fixed[i]) {
        kept := kept + [fixed[i]];
      }
    }
    assert fixed[..|fixed|] == fixed;
  }

  // ----- Plans for whole root sets -----

  ghost predicate Allowed(env: Environment, r: RootRequest) {
    forall why :: !RefusedFor(env, r, why)
  }

  /** `x` is planned by some root and not related to an explicitly chosen AppData root. */
  ghost predicate InCombinedPlan(env: Environment, requests: seq<RootRequest>, x: Path) {
    && (exists r :: r in requests && InPlan(env, r, x))
    && (forall r | r in requests && r.explicitAppData && env.appData(r.root) :: !Related(x, r.root))
  }

  method PlanRootSet(env: Environment, requests: seq<RootRequest>) returns (result: Result<seq<Path>, Refusal>)
    ensures result.Ok? <==> forall r | r in requests :: Allowed(env, r)
    ensures result.Err? ==> exists r :: r in requests && RefusedFor(env, r, result.error)
    ensures result.Ok? ==> Distinct(result.value) && forall x :: x in result.value <==> InCombinedPlan(env, requests, x)
  {
    hide InPlan, RefusedFor;
    var combined := new ExclusionList();
    var explicitRoots: seq<Path> := [];
    for i := 0 to |requests|
      invariant fresh(combined) && combined.Valid()
      invariant forall r | r in requests[..i] :: Allowed(env, r)
      invariant forall x :: x in combined.out <==> exists r :: r in requests[..i] && InPlan(env, r, x)
      invariant forall a :: a in explicitRoots <==>
                  exists r :: r in requests[..i] && r.explicitAppData && env.appData(r.root) && a == r.root
    {
      var request := requests[i];
      var item := PlanRoot(env, request);
      assert requests[..i + 1] == requests[..i] + [request];
      if item.Err? {
        assert request in requests && RefusedFor(env, request, item.error);
        return Err(item.error);
      }
      assert Allowed(env, request);
      ghost var before := combined.out;
      for j := 0 to |item.value|
        invariant fresh(combined) && combined.Valid()
        invariant forall x :: x in combined.out <==> x in before || x in item.value[..j]
      {
        assert item.value[..j + 1] == item.value[..j] + [item.value[j]];
        assert item.value[j] in item.value;
        combined.AppendUnique(item.value[j]);
      }
      assert item.value[..|item.value|] == item.value;
      if request.explicitAppData && env.appData(request.root) {
        explicitRoots := explicitRoots + [request.root];
      }
    }
    assert requests[..|requests|] == requests;
    var kept: seq<Path> := [];
    for i := 0 to |combined.out|
      invariant Distinct(kept)
      invariant forall x :: x in kept <==> x in combined.out[..i] && forall a | a in explicitRoots :: !Related(x, a)
    {
      var x := combined.out[i];
      assert combined.out[..i + 1] == combined.out[..i] + [x];
      assert x !in combined.out[..i];
      if forall a | a in explicitRoots :: !(x <= a) && !(a <= x) {
        kept := kept + [x];
      }
    }
    assert combined.out[..|combined.out|] == combined.out;
    result := Ok(kept);
  }
}
