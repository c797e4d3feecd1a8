/** Importing a snapshot: stage beside the state, move the old state aside, activate
    the staged tree, and roll back when that fails.

    Every filesystem step may fail.  The file system keeps a trace of every state it
    passes through, including the states inside a step, so that what is claimed at
    every point of an import is a claim about the trace.
  */
module SnapshotImport {

  import opened Results
  import opened Crc32
  import opened SnapshotFormat
  import opened SnapshotTransport

  /** The three sibling directories of an import.  The names of the last two are
      made unique by the clock. */
  datatype Place = State | Staging | Backup

  type Key = seq<Bytes>

  datatype Tree = Tree(files: map<Key, Bytes>, dirs: set<Key>)

  type World = map<Place, Tree>

  function At(w: World, p: Place): Option<Tree> {
    if p in w then Some(w[p]) else None
  }

  /** `w` is `v` except, perhaps, at `p`. */
  ghost predicate SameExceptAt(v: World, w: World, p: Place) {
    forall q: Place | q != p :: (q in v <==> q in w) && (q in v ==> v[q] == w[q])
  }

  ghost predicate Confined(t0: seq<World>, w0: World, t1: seq<World>, w1: World, p: Place) {
    && t0 <= t1
    && (forall i | |t0| <= i < |t1| :: SameExceptAt(w0, t1[i], p))
    && SameExceptAt(w0, w1, p)
  }

  lemma NothingConfined(t: seq<World>, w: World, p: Place)
    ensures Confined(t, w, t, w, p)
  {
  }

  /** One more world that differs at `p` only. */
  lemma ConfinedStep(t0: seq<World>, w0: World, t1: seq<World>, w1: World, w2: World, p: Place)
    requires Confined(t0, w0, t1, w1, p) && SameExceptAt(w1, w2, p)
    ensures Confined(t0, w0, t1 + [w2], w2, p)
  {
    assert SameExceptAt(w0, w2, p);
    var t2 := t1 + [w2];
    forall i | |t0| <= i < |t2|
      ensures SameExceptAt(w0, t2[i], p)
    {
      assert i < |t1| ==> t2[i] == t1[i];
    }
  }

  lemma ConfinedTwice(t0: seq<World>, w0: World, t1: seq<World>, w1: World, t2: seq<World>, w2: World, p: Place)
    requires Confined(t0, w0, t1, w1, p) && Confined(t1, w1, t2, w2, p)
    ensures Confined(t0, w0, t2, w2, p)
  {
    assert forall i | |t0| <= i < |t1| :: t2[i] == t1[i];
  }

  // ----- Names as places in a tree -----

  function NonEmpty(parts: seq<Bytes>): Key {
    if parts == [] then []
    else if parts[0] == [] then NonEmpty(parts[1..])
    else [parts[0]] + NonEmpty(parts[1..])
  }

  /** Repeated separators mean nothing to the file system. */
  function KeyOf(name: Bytes): Key {
    NonEmpty(Components(name))
  }

  predicate NamesAFile(name: Bytes) {
    name != [] && name[|name| - 1] != SLASH && KeyOf(name) != []
  }

  function ParentKey(name: Bytes): Key {
    var key := KeyOf(name);
    if key == [] then [] else key[..|key| - 1]
  }

  function Prefixes(key: Key): set<Key> {
    set n | 0 <= n <= |key| :: key[..n]
  }

  /** Where a walk along `parts` ends up; `None` when it climbs out of its start. */
  function Walk(at: Key, parts: seq<Bytes>): Option<Key>
    decreases |parts|
  {
    if parts == [] then Some(at)
    else if parts[0] == [] || parts[0] == [DOT] then Walk(at, parts[1..])
    else if parts[0] == [DOT, DOT] then if at == [] then None else Walk(at[..|at| - 1], parts[1..])
    else Walk(at + [parts[0]], parts[1..])
  }

  /** A name the reader accepts leads to a place inside the directory it is resolved
      against, and to the place the importer writes. */
  lemma AcceptedNamesStayInside(name: Bytes)
    requires ValidRelativePath(name)
    ensures Walk([], Components(name)) == Some(KeyOf(name))
  {
    WalkDownOnly([], Components(name));
    assert [] + KeyOf(name) == KeyOf(name);
  }

  lemma {:induction false} WalkDownOnly(at: Key, parts: seq<Bytes>)
    requires forall c | c in parts :: c != [DOT] && c != [DOT, DOT]
    ensures Walk(at, parts) == Some(at + NonEmpty(parts))
    decreases |parts|
  {
    if parts == [] {
      assert at + [] == at;
    } else {
      var rest := parts[1..];
      assert parts[0] in parts && forall c | c in rest :: c in parts;
      if parts[0] == [] {
        WalkDownOnly(at, rest);
      } else {
        WalkDownOnly(at + [parts[0]], rest);
        assert at + [parts[0]] + NonEmpty(rest) == at + ([parts[0]] + NonEmpty(rest));
      }
    }
  }

  /** The files of a snapshot: a name that occurs twice keeps its last payload. */
  function FilesOf(entries: seq<Entry>): map<Key, Bytes> {
    if entries == [] then map[]
    else
      var last := entries[|entries| - 1];
      FilesOf(entries[..|entries| - 1])[KeyOf(last.name) := last.payload]
  }

  /** No name of the snapshot is needed as a directory by another one. */
  ghost predicate NoClash(entries: seq<Entry>) {
    && (forall e | e in entries :: NamesAFile(e.name))
    && (forall d, e | d in entries && e in entries :: !(KeyOf(d.name) <= ParentKey(e.name)))
  }

  // ----- The file system -----

  class FileSystem {
    var world: World
    ghost var trace: seq<World>
    ghost var faults: nat
    ghost var renameFaults: nat

    constructor (world: World)
      ensures this.world == world && trace == [] && faults == 0 && renameFaults == 0
    {
      this.world := world;
      trace, faults, renameFaults := [], 0, 0;
    }

    /** A step that is confined to `p` left everything else alone all the way. */
    twostate predicate ConfinedTo(p: Place)
      reads this
    {
      && Confined(old(trace), old(world), trace, world, p)
      && old(faults) <= faults && renameFaults == old(renameFaults)
    }

    method Fault() returns (fault: bool)
      modifies this`faults
      ensures fault ==> faults == old(faults) + 1
      ensures !fault ==> faults == old(faults)
    {
      fault := *;
      if fault {
        faults := faults + 1;
      }
    }

    /** Removes a tree file by file; when it fails some of the files are left. */
    method RemoveAll(p: Place) returns (ok: bool)
      modifies this
      ensures ConfinedTo(p)
      ensures ok || p !in old(world) ==> p !in world
      ensures ok || faults > old(faults)
    {
      hide Confined;
      NothingConfined(trace, world, p);
      if p !in world {
        return true;
      }
      var keep: set<Key> := *;
      var rest := map k | k in world[p].files && k in keep :: world[p].files[k];
      ghost var next := world[p := Tree(rest, world[p].dirs)];
      ConfinedStep(trace, world, trace, world, next, p);
      ConfinedStep(trace, world, trace + [next], next, next - {p}, p);
      world := world[p := Tree(rest, world[p].dirs)];
      trace := trace + [world];
      var fault := Fault();
      if fault {
        return false;
      }
      world := world - {p};
      trace := trace + [world];
      ok := true;
    }

    method CreatePlace(p: Place) returns (ok: bool)
      modifies this
      ensures ConfinedTo(p)
      ensures ok ==> p in world
      ensures ok && p !in old(world) ==> world[p] == Tree(map[], {})
      ensures ok || faults > old(faults)
    {
      var fault := Fault();
      if fault {
        return false;
      }
      if p !in world {
        world := world[p := Tree(map[], {})];
        trace := trace + [world];
      }
      ok := true;
    }

    method CreateDirectories(p: Place, dir: Key) returns (ok: bool)
      requires p in world
      modifies this
      ensures ConfinedTo(p) && p in world && world[p].files == old(world[p].files)
      ensures world[p].dirs == if ok then old(world[p].dirs) + Prefixes(dir) else old(world[p].dirs)
      ensures ok ==> !exists k :: k in old(world[p].files) && k <= dir
      ensures ok || faults > old(faults) || exists k :: k in old(world[p].files) && k <= dir
    {
      var fault := Fault();
      if fault || exists k :: k in world[p].files && k <= dir {
        return false;
      }
      world := world[p := Tree(world[p].files, world[p].dirs + Prefixes(dir))];
      trace := trace + [world];
      ok := true;
    }

    /** Opens a file for writing; an existing file is emptied. */
    method OpenTruncated(p: Place, name: Bytes) returns (ok: bool)
      requires p in world
      modifies this
      ensures ConfinedTo(p) && p in world && world[p].dirs == old(world[p].dirs)
      ensures world[p].files == if ok then old(world[p].files)[KeyOf(name) := []] else old(world[p].files)
      ensures ok || faults > old(faults) || !NamesAFile(name) || KeyOf(name) in old(world[p].dirs)
      ensures ok ==> NamesAFile(name)
    {
      var fault := Fault();
      if fault || !NamesAFile(name) || KeyOf(name) in world[p].dirs {
        return false;
      }
      world := world[p := Tree(world[p].files[KeyOf(name) := []], world[p].dirs)];
      trace := trace + [world];
      ok := true;
    }

    /** Appends to an open file; when it fails part of the bytes may be there. */
    method Append(p: Place, key: Key, bytes: Bytes) returns (ok: bool)
      requires p in world && key in world[p].files
      modifies this
      ensures ConfinedTo(p) && p in world && world[p].dirs == old(world[p].dirs)
      ensures ok ==> world[p].files == old(world[p].files)[key := old(world[p].files[key]) + bytes]
      ensures ok || faults > old(faults)
    {
      var fault := Fault();
      var written := bytes;
      if fault {
        var n: int := *;
        written := if 0 <= n < |bytes| then bytes[..n] else bytes;
      }
      var files := world[p].files;
      world := world[p := Tree(files[key := files[key] + written], world[p].dirs)];
      trace := trace + [world];
      ok := !fault;
    }

    method Exists(p: Place) returns (r: Option<bool>)
      modifies this`faults
      ensures r.Some? ==> r.value == (p in world)
      ensures faults >= old(faults) && (r.Some? || faults > old(faults))
    {
      var fault := Fault();
      r := if fault then None else Some(p in world);
    }

    predicate Replaceable(p: Place)
      reads this
    {
      p !in world || (world[p].files == map[] && world[p].dirs == {})
    }

    /** Atomic: either nothing happened or the whole tree moved. */
    method Rename(from: Place, to: Place) returns (ok: bool)
      requires from != to
      modifies this
      ensures ok ==>
                && from in old(world)
                && world == (old(world) - {from})[to := old(world)[from]]
                && trace == old(trace) + [world] && renameFaults == old(renameFaults)
      ensures !ok ==> world == old(world) && trace == old(trace) && renameFaults == old(renameFaults) + 1
      ensures faults >= old(faults)
      ensures ok || faults > old(faults) || from !in old(world) || !old(Replaceable(to))
    {
      var fault := Fault();
      if fault || from !in world || !Replaceable(to) {
        renameFaults := renameFaults + 1;
        return false;
      }
      world := (world - {from})[to := world[from]];
      trace := trace + [world];
      ok := true;
    }
  }

  // ----- What must hold at every point -----

  /** The old state is complete at its place or in the backup, or the new state is
      complete at its place; the state directory never holds anything in between. */
  ghost predicate Safe(w: World, before: Option<Tree>, files: map<Key, Bytes>) {
    || At(w, State) == before
    || (At(w, State) == None && before.Some? && At(w, Backup) == before)
    || (At(w, State).Some? && At(w, State).value.files == files)
  }

  datatype ImportError =
    | Rejected(reason: Reject)
    | RootUnavailable(root: Bytes)
    | CouldNotStage
    | CouldNotInspect
    | CouldNotMoveAside
    | CouldNotActivate

  // ----- Staging -----

  /** What the staging directory holds after `entries`. */
  ghost predicate Staged(w: World, entries: seq<Entry>) {
    && Staging in w
    && w[Staging].files == FilesOf(entries)
    && (forall d | d in w[Staging].dirs :: d == [] || exists e :: e in entries && d <= ParentKey(e.name))
  }

  /** Every name has the payload of the last entry with that name. */
  lemma {:induction false} LastPayloadCounts(entries: seq<Entry>, i: nat)
    requires i < |entries| && forall j | i < j < |entries| :: KeyOf(entries[j].name) != KeyOf(entries[i].name)
    ensures var k := KeyOf(entries[i].name); k in FilesOf(entries) && FilesOf(entries)[k] == entries[i].payload
    decreases |entries|
  {
    hide KeyOf;
    if i < |entries| - 1 {
      LastPayloadCounts(entries[..|entries| - 1], i);
    }
  }

  lemma {:induction false} FilesAreNames(entries: seq<Entry>, k: Key)
    requires k in FilesOf(entries)
    ensures exists e :: e in entries && k == KeyOf(e.name)
  {
    var last, front := entries[|entries| - 1], entries[..|entries| - 1];
    if k != KeyOf(last.name) {
      FilesAreNames(front, k);
      var e :| e in front && k == KeyOf(e.name);
      assert e in entries;
    } else {
      assert last in entries;
    }
  }

  /** Copies one payload into the staged file, checking it on the way. */
  method StagePayload(input: InStream, fs: FileSystem, key: Key, size: nat, bufferBytes: nat)
    returns (r: Result<Word, ImportError>)
    requires input.Valid() && bufferBytes > 0
    requires Staging in fs.world && key in fs.world[Staging].files && fs.world[Staging].files[key] == []
    modifies input, fs
    ensures input.Valid() && fs.ConfinedTo(Staging)
    ensures r.Ok? ==>
              && size <= |old(input.Remaining())|
              && r.value == Crc(Zero(), old(input.Remaining())[..size])
              && input.Remaining() == old(input.Remaining())[size..]
              && Staging in fs.world && fs.world[Staging].dirs == old(fs.world[Staging].dirs)
              && fs.world[Staging].files == old(fs.world[Staging].files)[key := old(input.Remaining())[..size]]
    ensures r.Err? ==> r == Err(Rejected(TruncatedPayload)) || r == Err(CouldNotStage)
    ensures r == Err(Rejected(TruncatedPayload)) ==> size > |old(input.Remaining())|
    ensures r == Err(CouldNotStage) ==> fs.faults > old(fs.faults)
  {
    hide Crc, Confined, StagedSoFar;
    ghost var whole, files, dirs := input.Remaining(), fs.world[Staging].files, fs.world[Staging].dirs;
    ghost var t0, w0 := fs.trace, fs.world;
    NothingConfined(t0, w0, Staging);
    var remaining := size;
    var crc := Zero();
    NothingSoFar(whole, files, key);
    while remaining != 0
      invariant input.Valid() && 0 <= remaining <= size
      invariant fs.ConfinedTo(Staging) && Staging in fs.world && fs.world[Staging].dirs == dirs
      invariant StagedSoFar(whole, files, key, size - remaining, input.Remaining(), crc, fs.world[Staging].files)
    {
      ghost var rest, before := input.Remaining(), fs.world[Staging].files;
      SoFarMeans(whole, files, key, size - remaining, rest, crc, before);
      var want := if remaining < bufferBytes then remaining else bufferBytes;
      var chunk := input.Read(want);
      if chunk.None? {
        return Err(Rejected(TruncatedPayload));
      }
      SoFarStep(whole, files, key, size - remaining, rest, crc, before, want);
      crc := Crc32Update(crc, chunk.value);
      ghost var t1, w1 := fs.trace, fs.world;
      var ok := fs.Append(Staging, key, chunk.value);
      ConfinedTwice(t0, w0, t1, w1, fs.trace, fs.world, Staging);
      if !ok {
        return Err(CouldNotStage);
      }
      remaining := remaining - want;
    }
    SoFarMeans(whole, files, key, size, input.Remaining(), crc, fs.world[Staging].files);
    r := Ok(crc);
  }

  /** `done` bytes have been copied to the file at `key`, and `crc` is theirs. */
  ghost predicate StagedSoFar(whole: Bytes, files: map<Key, Bytes>, key: Key, done: nat, rest: Bytes, crc: Word, now: map<Key, Bytes>) {
    && done <= |whole| && rest == whole[done..]
    && crc == Crc(Zero(), whole[..done])
    && now == files[key := whole[..done]]
  }

  lemma NothingSoFar(whole: Bytes, files: map<Key, Bytes>, key: Key)
    requires key in files && files[key] == []
    ensures StagedSoFar(whole, files, key, 0, whole, Zero(), files)
  {
    CrcOfNothing();
  }

  lemma SoFarMeans(whole: Bytes, files: map<Key, Bytes>, key: Key, done: nat, rest: Bytes, crc: Word, now: map<Key, Bytes>)
    requires StagedSoFar(whole, files, key, done, rest, crc, now)
    ensures done + |rest| == |whole| && rest == whole[done..] && crc == Crc(Zero(), whole[..done]) && now == files[key := whole[..done]]
  {
    hide Crc;
  }

  lemma SoFarStep(whole: Bytes, files: map<Key, Bytes>, key: Key, done: nat, rest: Bytes, crc: Word, now: map<Key, Bytes>, want: nat)
    requires StagedSoFar(whole, files, key, done, rest, crc, now) && want <= |rest|
    ensures StagedSoFar(whole, files, key, done + want, rest[want..], Crc(crc, rest[..want]), now[key := now[key] + rest[..want]])
  {
    hide Crc;
    ChunkExtends(whole, done, want);
    assert files[key := whole[..done]][key := whole[..done + want]] == files[key := whole[..done + want]];
  }

  /** Stages the next entry of the snapshot. */
  method StageEntry(input: InStream, fs: FileSystem, ghost entries: seq<Entry>, total: nat, bufferBytes: nat)
    returns (r: Result<nat, ImportError>, ghost entry: Entry)
    requires input.Valid() && bufferBytes > 0
    requires Staged(fs.world, entries) && total == TotalBytes(entries)
    modifies input, fs
    ensures input.Valid() && fs.ConfinedTo(Staging)
    ensures r.Ok? ==>
              && GetEntry(old(input.Remaining()), total) == Ok((entry, input.Remaining()))
              && Staged(fs.world, entries + [entry])
              && r.value == TotalBytes(entries + [entry])
    ensures r.Err? && r.error.Rejected? ==> GetEntry(old(input.Remaining()), total) == Err(r.error.reason)
    ensures r.Err? && !r.error.Rejected? ==> r.error == CouldNotStage
    ensures r == Err(CouldNotStage) && GetEntry(old(input.Remaining()), total).Ok? && fs.faults == old(fs.faults) ==>
              !NoClash(entries + [GetEntry(old(input.Remaining()), total).value.0])
  {
    hide Crc, Value, GetEntryHeader, ValidRelativePath, TotalBytes, FilesOf, NoClash, Staged, KeyOf, Confined;
    entry := Entry([], []);
    ghost var t0, w0 := fs.trace, fs.world;
    NothingConfined(t0, w0, Staging);
    var fields := ReadEntryHeader(input);
    if fields.None? {
      return Err(Rejected(TruncatedEntryHeader)), entry;
    }
    var f := fields.value;
    if !ValidRelativePath(f.name) {
      return Err(Rejected(UnsafePath(f.name))), entry;
    }
    ghost var body := input.Remaining();
    ghost var next := if f.size <= |body| then Entry(f.name, body[..f.size]) else entry;
    ghost var dirs;
    var ready;
    ready, dirs := PrepareFile(fs, entries, f.name, next.payload);
    if !ready {
      return Err(CouldNotStage), entry;
    }
    ghost var t1, w1 := fs.trace, fs.world;
    var crc := StagePayload(input, fs, KeyOf(f.name), f.size, bufferBytes);
    ConfinedTwice(t0, w0, t1, w1, fs.trace, fs.world, Staging);
    if crc.Err? {
      return Err(crc.error), entry;
    }
    if Value(crc.value) != f.crc {
      return Err(Rejected(CrcMismatch(f.name))), entry;
    }
    if TWO_64 - 1 - total < f.size {
      return Err(Rejected(SizeOverflow)), entry;
    }
    entry := next;
    TotalStep(entries, entry);
    StagedNext(fs.world, entries, entry, dirs);
    r := Ok(total + f.size);
  }

  ghost predicate DirectoriesFor(dirs: set<Key>, entries: seq<Entry>, name: Bytes) {
    forall d | d in dirs ::
      d == [] || (exists e :: e in entries && d <= ParentKey(e.name)) || d in Prefixes(ParentKey(name))
  }

  /** Makes the directories of a file and opens the file empty. */
  method PrepareFile(fs: FileSystem, ghost entries: seq<Entry>, name: Bytes, ghost payload: Bytes)
    returns (ok: bool, ghost dirs: set<Key>)
    requires Staged(fs.world, entries)
    modifies fs
    ensures fs.ConfinedTo(Staging) && Staging in fs.world
    ensures ok ==>
              && fs.world[Staging].dirs == dirs && DirectoriesFor(dirs, entries, name)
              && fs.world[Staging].files == FilesOf(entries)[KeyOf(name) := []]
    ensures !ok && fs.faults == old(fs.faults) ==> !NoClash(entries + [Entry(name, payload)])
  {
    hide FilesOf, KeyOf, NoClash, Confined;
    ghost var t0, w0 := fs.trace, fs.world;
    ok := fs.CreateDirectories(Staging, ParentKey(name));
    dirs := fs.world[Staging].dirs;
    if !ok {
      ClashWithFile(fs.world[Staging].files, entries, name, payload);
      return;
    }
    ghost var t1, w1 := fs.trace, fs.world;
    ok := fs.OpenTruncated(Staging, name);
    ConfinedTwice(t0, w0, t1, w1, fs.trace, fs.world, Staging);
    ClashWithDirectory(dirs, entries, name, payload);
  }

  lemma StagedNext(w: World, entries: seq<Entry>, entry: Entry, dirs: set<Key>)
    requires Staging in w && w[Staging].dirs == dirs
    requires w[Staging].files == FilesOf(entries)[KeyOf(entry.name) := entry.payload]
    requires DirectoriesFor(dirs, entries, entry.name)
    ensures Staged(w, entries + [entry])
  {
    var all := entries + [entry];
    assert all[..|all| - 1] == entries && all[|all| - 1] == entry;
    forall d | d in dirs && d != []
      ensures exists e :: e in all && d <= ParentKey(e.name)
    {
      if e :| e in entries && d <= ParentKey(e.name) {
        assert e in all;
      } else {
        assert entry in all;
      }
    }
  }

  lemma ClashWithFile(files: map<Key, Bytes>, entries: seq<Entry>, name: Bytes, payload: Bytes)
    requires files == FilesOf(entries)
    ensures (exists k :: k in files && k <= ParentKey(name)) ==> !NoClash(entries + [Entry(name, payload)])
  {
    if k :| k in files && k <= ParentKey(name) {
      FilesAreNames(entries, k);
      var e :| e in entries && k == KeyOf(e.name);
      var all := entries + [Entry(name, payload)];
      assert all[|all| - 1] == Entry(name, payload);
      assert e in all && Entry(name, payload) in all;
    }
  }

  lemma ClashWithDirectory(dirs: set<Key>, entries: seq<Entry>, name: Bytes, payload: Bytes)
    requires DirectoriesFor(dirs, entries, name)
    ensures !NamesAFile(name) || KeyOf(name) in dirs ==> !NoClash(entries + [Entry(name, payload)])
  {
    var all := entries + [Entry(name, payload)];
    assert all[|all| - 1] == Entry(name, payload);
    var key := KeyOf(name);
    if NamesAFile(name) && key in dirs {
      assert key != [];
      if e :| e in entries && key <= ParentKey(e.name) {
        assert e in all;
      }
    }
  }

  lemma NothingStaged(w: World)
    requires Staging in w && w[Staging] == Tree(map[], {})
    ensures Staged(w, [])
  {
  }

  /** Stages every entry of the snapshot. */
  method StageEntries(input: InStream, fs: FileSystem, count: nat, bufferBytes: nat)
    returns (r: Result<nat, ImportError>, ghost entries: seq<Entry>)
    requires input.Valid() && bufferBytes > 0
    requires Staging in fs.world && fs.world[Staging] == Tree(map[], {})
    modifies input, fs
    ensures input.Valid() && fs.ConfinedTo(Staging)
    ensures r.Ok? ==>
              && GetEntries(old(input.Remaining()), count, []) == Ok(entries)
              && Staged(fs.world, entries) && r.value == TotalBytes(entries)
    ensures r.Err? && r.error.Rejected? ==> GetEntries(old(input.Remaining()), count, []) == Err(r.error.reason)
    ensures r.Err? && !r.error.Rejected? ==> r.error == CouldNotStage
    ensures r == Err(CouldNotStage) && fs.faults == old(fs.faults) ==>
              var parsed := GetEntries(old(input.Remaining()), count, []);
              parsed.Ok? ==> !NoClash(parsed.value)
  {
    hide GetEntry, TotalBytes, NoClash, Staged, Confined;
    ghost var body := input.Remaining();
    ghost var t0, w0 := fs.trace, fs.world;
    NothingConfined(t0, w0, Staging);
    entries := [];
    var total := 0;
    NothingIsZeroBytes();
    NothingStaged(fs.world);
    for i := 0 to count
      invariant input.Valid() && fs.ConfinedTo(Staging)
      invariant Staged(fs.world, entries) && total == TotalBytes(entries)
      invariant GetEntries(body, count, []) == GetEntries(input.Remaining(), count - i, entries)
    {
      ghost var rest := input.Remaining();
      ghost var t1, w1 := fs.trace, fs.world;
      ghost var entry;
      var next;
      next, entry := StageEntry(input, fs, entries, total, bufferBytes);
      ConfinedTwice(t0, w0, t1, w1, fs.trace, fs.world, Staging);
      if next.Err? {
        ghost var one := GetEntry(rest, total);
        if one.Ok? {
          ClashRemains(rest, count - i, entries, one.value.0, one.value.1);
        }
        return Err(next.error), entries;
      }
      GetEntriesStep(rest, count - i, entries, entry, input.Remaining());
      entries := entries + [entry];
      total := next.value;
    }
    var end := input.AtEnd();
    if !end {
      return Err(Rejected(TrailingBytes)), entries;
    }
    r := Ok(total);
  }

  lemma ClashRemains(rest: Bytes, n: nat, before: seq<Entry>, e: Entry, after: Bytes)
    requires n > 0 && GetEntry(rest, TotalBytes(before)) == Ok((e, after))
    ensures var parsed := GetEntries(rest, n, before);
            parsed.Ok? && !NoClash(before + [e]) ==> !NoClash(parsed.value)
  {
    hide GetEntry, TotalBytes;
    GetEntriesStep(rest, n, before, e, after);
    GetEntriesExtend(after, n - 1, before + [e]);
    var parsed := GetEntries(rest, n, before);
    if parsed.Ok? {
      assert forall d | d in before + [e] :: d in parsed.value;
    }
  }

  lemma {:induction false} GetEntriesExtend(rest: Bytes, n: nat, before: seq<Entry>)
    ensures GetEntries(rest, n, before).Ok? ==> before <= GetEntries(rest, n, before).value
    decreases n
  {
    hide GetEntry, TotalBytes;
    if n > 0 {
      var entry := GetEntry(rest, TotalBytes(before));
      if entry.Ok? {
        GetEntriesExtend(entry.value.1, n - 1, before + [entry.value.0]);
      }
    }
  }

  /** Fills a new staging directory, or removes it again. */
  method StageTree(input: InStream, fs: FileSystem, count: nat, bufferBytes: nat)
    returns (r: Result<nat, ImportError>, ghost entries: seq<Entry>)
    requires input.Valid() && bufferBytes > 0
    requires Staging !in fs.world
    modifies input, fs
    ensures fs.ConfinedTo(Staging)
    ensures r.Ok? ==>
              && GetEntries(old(input.Remaining()), count, []) == Ok(entries)
              && Staging in fs.world && fs.world[Staging].files == FilesOf(entries) && r.value == TotalBytes(entries)
    ensures r.Err? && r.error.Rejected? ==> GetEntries(old(input.Remaining()), count, []) == Err(r.error.reason)
    ensures r.Err? && !r.error.Rejected? ==> r.error == CouldNotStage
    ensures r == Err(CouldNotStage) && fs.faults == old(fs.faults) ==>
              var parsed := GetEntries(old(input.Remaining()), count, []);
              parsed.Ok? ==> !NoClash(parsed.value)
  {
    hide GetEntries, FilesOf, TotalBytes, NoClash, Confined;
    entries := [];
    ghost var t0, w0 := fs.trace, fs.world;
    var _ := fs.RemoveAll(Staging);
    ghost var t1, w1 := fs.trace, fs.world;
    var created := fs.CreatePlace(Staging);
    ConfinedTwice(t0, w0, t1, w1, fs.trace, fs.world, Staging);
    if !created {
      return Err(CouldNotStage), entries;
    }
    t1, w1 := fs.trace, fs.world;
    r, entries := StageEntries(input, fs, count, bufferBytes);
    ConfinedTwice(t0, w0, t1, w1, fs.trace, fs.world, Staging);
    if r.Err? {
      t1, w1 := fs.trace, fs.world;
      var _ := fs.RemoveAll(Staging);
      ConfinedTwice(t0, w0, t1, w1, fs.trace, fs.world, Staging);
    }
  }

  // ----- Activation -----

  /** Makes room at the state path; says whether there was a state to move. */
  method MoveAside(fs: FileSystem) returns (r: Result<bool, ImportError>)
    requires Staging in fs.world
    modifies fs
    ensures old(fs.trace) <= fs.trace && fs.faults >= old(fs.faults)
    ensures forall i | |old(fs.trace)| <= i < |fs.trace| ::
              || At(fs.trace[i], State) == At(old(fs.world), State)
              || (At(fs.trace[i], State) == None && At(fs.trace[i], Backup) == At(old(fs.world), State))
    ensures At(fs.world, Staging) == At(old(fs.world), Staging)
    ensures r.Ok? ==> r.value == (State in old(fs.world)) && State !in fs.world
    ensures r.Ok? && r.value ==> At(fs.world, Backup) == At(old(fs.world), State)
    ensures r.Ok? ==> fs.renameFaults == old(fs.renameFaults)
    ensures r.Err? ==> At(fs.world, State) == At(old(fs.world), State) && fs.faults > old(fs.faults)
    ensures r.Err? ==> !r.error.Rejected? && !r.error.RootUnavailable?
  {
    var present := fs.Exists(State);
    if present.None? {
      return Err(CouldNotInspect);
    }
    if present.value {
      var _ := fs.RemoveAll(Backup);
      var aside := fs.Rename(State, Backup);
      if !aside {
        return Err(CouldNotMoveAside);
      }
    }
    r := Ok(present.value);
  }

  /** Moves the old state aside and the staged tree in, or puts the old state back. */
  method Activate(fs: FileSystem, ghost entries: seq<Entry>) returns (r: Result<(), ImportError>)
    requires Staging in fs.world && fs.world[Staging].files == FilesOf(entries)
    modifies fs
    ensures old(fs.trace) <= fs.trace && fs.faults >= old(fs.faults)
    ensures forall i | |old(fs.trace)| <= i < |fs.trace| :: Safe(fs.trace[i], At(old(fs.world), State), FilesOf(entries))
    ensures r.Ok? ==> State in fs.world && fs.world[State] == old(fs.world)[Staging]
    ensures r.Err? ==>
              || At(fs.world, State) == At(old(fs.world), State)
              || (State in old(fs.world) && State !in fs.world && At(fs.world, Backup) == At(old(fs.world), State)
                  && fs.renameFaults >= old(fs.renameFaults) + 2)
    ensures r.Err? ==> fs.faults > old(fs.faults)
    ensures r.Err? ==> !r.error.Rejected? && !r.error.RootUnavailable?
  {
    hide FilesOf;
    ghost var before := At(fs.world, State);
    var hadPrevious := MoveAside(fs);
    if hadPrevious.Err? {
      var _ := fs.RemoveAll(Staging);
      return Err(hadPrevious.error);
    }
    assert At(fs.world, State) == None;
    var activated := fs.Rename(Staging, State);
    if !activated {
      if hadPrevious.value {
        var _ := fs.Rename(Backup, State);
      }
      var _ := fs.RemoveAll(Staging);
      return Err(CouldNotActivate);
    }
    if hadPrevious.value {
      var _ := fs.RemoveAll(Backup);
    }
    r := Ok(());
  }

  // ----- Import -----

  /** Imports `file` over the state directory.  `available` are the search roots that
      are directories on this machine. */
  method Import(file: Bytes, fs: FileSystem, available: set<Bytes>, bufferBytes: nat)
    returns (r: Result<Info, ImportError>)
    requires bufferBytes > 0
    requires Staging !in fs.world
    modifies fs
    // At every point the old state or the complete, checked new state is there.
    ensures old(fs.trace) <= fs.trace
    ensures forall i | |old(fs.trace)| <= i < |fs.trace| ::
              || At(fs.trace[i], State) == At(old(fs.world), State)
              || (Parse(file).Ok? && Safe(fs.trace[i], At(old(fs.world), State), FilesOf(Parse(file).value.entries)))
    // Success installs exactly the files of the snapshot.
    ensures r.Ok? ==>
              && Parse(file).Ok?
              && r.value == InfoOf(Parse(file).value)
              && (forall root | root in Parse(file).value.roots :: root in available)
              && State in fs.world && fs.world[State].files == FilesOf(Parse(file).value.entries)
    // Failure restores the old state, unless the rollback failed as well.
    ensures r.Err? ==>
              || At(fs.world, State) == At(old(fs.world), State)
              || (State in old(fs.world) && State !in fs.world && At(fs.world, Backup) == At(old(fs.world), State)
                  && fs.renameFaults >= old(fs.renameFaults) + 2)
    // It fails for a reason.
    ensures r.Err? && r.error.Rejected? ==> Parse(file) == Err(r.error.reason)
    ensures r.Err? && r.error.RootUnavailable? ==> r.error.root !in available && GetHeader(file).Ok? && r.error.root in GetHeader(file).value.0.roots
    ensures r.Err? && !r.error.Rejected? && !r.error.RootUnavailable? && Parse(file).Ok? ==>
              fs.faults > old(fs.faults) || !NoClash(Parse(file).value.entries)
  {
    hide GetHeader, GetEntries, FilesOf, TotalBytes, NoClash, Safe;
    var input := new InStream(file);
    var header := ReadHeader(input);
    if header.Err? {
      return Err(Rejected(header.error));
    }
    var h := header.value;
    for i := 0 to |h.roots|
      invariant forall root | root in h.roots[..i] :: root in available
    {
      if h.roots[i] !in available {
        return Err(RootUnavailable(h.roots[i]));
      }
    }
    assert h.roots[..|h.roots|] == h.roots;
    ghost var body := input.Remaining();
    ghost var entries;
    var total;
    total, entries := StageTree(input, fs, h.entryCount, bufferBytes);
    if total.Err? {
      return Err(total.error);
    }
    ghost var s := Snapshot(h.roots, h.generation, entries);
    assert Parse(file) == Ok(s);
    GetEntriesCountHere(body, h.entryCount);
    var activated := Activate(fs, entries);
    if activated.Err? {
      return Err(activated.error);
    }
    r := Ok(Info(h.roots, h.generation, h.entryCount, total.value));
  }

  lemma GetEntriesCountHere(rest: Bytes, n: nat)
    ensures GetEntries(rest, n, []).Ok? ==> |GetEntries(rest, n, []).value| == n
  {
    GetEntriesCount(rest, n, []);
  }
}
