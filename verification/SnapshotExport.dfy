/** Writing a snapshot of a directory that other programs may be changing.

    The exporter looks at every file three times: when it lists the directory (its
    size), when it computes the checksum, and when it copies the payload.  The three
    observations are independent inputs here.
  */
module SnapshotExport {

  import opened Results
  import opened Crc32
  import opened SnapshotFormat
  import opened SnapshotTransport
  import opened Sequences

  datatype Kind = RegularFile | Symlink | OtherKind

  /** One directory entry: its path below the state directory, and what the three
      looks at it return; `None` is a file that cannot be opened. */
  datatype Listed = Listed(path: Bytes, kind: Kind, size: nat, contents: Option<(Bytes, Bytes)>)

  datatype Failure =
    | SymlinkRefused
    | TooManyFiles
    | PayloadOverflow
    | TooManyRoots
    | FileUnreadable
    | FileChanged
    | StringTooLong
    | WriteFailed

  // ----- Which files travel -----

  function FileName(path: Bytes): Bytes {
    var parts := Components(path);
    parts[|parts| - 1]
  }

  predicate EndsWith(name: Bytes, suffix: Bytes) {
    |name| >= |suffix| && name[|name| - |suffix|..] == suffix
  }

  const LOCK: Bytes := [46, 108, 111, 99, 107]  // .lock
  const TMP: Bytes := [46, 116, 109, 112]       // .tmp
  const NEW: Bytes := [46, 110, 101, 119]       // .new

  /** A name that is only an extension has no extension, but it may end in `.new`. */
  predicate Excluded(path: Bytes) {
    var name := FileName(path);
    || name == []
    || (EndsWith(name, LOCK) && name != LOCK)
    || (EndsWith(name, TMP) && name != TMP)
    || EndsWith(name, NEW)
  }

  predicate Travels(l: Listed) {
    l.kind == RegularFile && !Excluded(l.path)
  }

  function Selected(listing: seq<Listed>): seq<Listed> {
    if listing == [] then []
    else
      var front := Selected(listing[..|listing| - 1]);
      var last := listing[|listing| - 1];
      if Travels(last) then front + [last] else front
  }

  /** What follows the last slash is the file name. */
  lemma {:induction false} FileNameOf(dir: Bytes, name: Bytes)
    requires (dir == [] || dir[|dir| - 1] == SLASH) && forall i | 0 <= i < |name| :: name[i] != SLASH
    ensures FileName(dir + name) == name && (dir != [] ==> |Components(dir + name)| > 1)
  {
    if dir == [] {
      assert dir + name == name;
      SingleComponent(name);
    } else {
      assert (dir + name)[1..] == dir[1..] + name;
      FileNameOf(dir[1..], name);
    }
  }

  lemma {:induction false} SingleComponent(name: Bytes)
    requires forall i | 0 <= i < |name| :: name[i] != SLASH
    ensures Components(name) == [name]
  {
    if name != [] {
      SingleComponent(name[1..]);
      assert [name[0]] + name[1..] == name;
    }
  }

  /** In any directory a file is left out exactly when its name is empty, has the extension
      lock or tmp, or ends in .new. */
  lemma ExcludedMeans(dir: Bytes, name: Bytes)
    requires (dir == [] || dir[|dir| - 1] == SLASH) && forall i | 0 <= i < |name| :: name[i] != SLASH
    ensures Excluded(dir + name) <==>
              || name == []
              || (|name| > 5 && name[|name| - 5..] == [46, 108, 111, 99, 107])
              || (|name| > 4 && name[|name| - 4..] == [46, 116, 109, 112])
              || (|name| >= 4 && name[|name| - 4..] == [46, 110, 101, 119])
  {
    hide FileName;
    FileNameOf(dir, name);
    assert |name| == 5 ==> name[0..] == name;
    assert |name| == 4 ==> name[0..] == name;
  }

  /** What travels are exactly the regular files that are not excluded, in their order. */
  lemma {:induction false} SelectedArePicked(listing: seq<Listed>) returns (at: seq<nat>)
    ensures Picked(listing, Selected(listing), at)
    ensures forall i: nat | i < |listing| :: i in at <==> listing[i].kind == RegularFile && !Excluded(listing[i].path)
  {
    hide Excluded, Picked;
    if listing == [] {
      at := [];
      NothingPicked<Listed>();
    } else {
      var front, last := listing[..|listing| - 1], listing[|listing| - 1];
      var before := SelectedArePicked(front);
      assert listing == front + [last];
      PickedStep(front, Selected(front), before, last, Travels(last));
      at := if Travels(last) then before + [|front|] else before;
      assert forall i: nat | i < |front| :: listing[i] == front[i];
    }
  }

  function TotalSize(files: seq<Listed>): nat {
    if files == [] then 0 else TotalSize(files[..|files| - 1]) + files[|files| - 1].size
  }

  method Collect(listing: seq<Listed>) returns (r: Result<seq<Listed>, Failure>)
    ensures r.Ok? ==>
              && r.value == Selected(listing)
              && (forall l | l in listing :: l.kind != Symlink)
              && |r.value| <= MAX_ENTRIES && TotalSize(r.value) < TWO_64
    ensures (exists l :: l in listing && l.kind == Symlink) ==> r.Err?
    ensures r.Err? ==> r.error == SymlinkRefused || r.error == TooManyFiles || r.error == PayloadOverflow
    ensures r == Err(SymlinkRefused) ==> exists l :: l in listing && l.kind == Symlink
    ensures r == Err(TooManyFiles) ==> |Selected(listing)| > MAX_ENTRIES
    ensures r == Err(PayloadOverflow) ==> TotalSize(Selected(listing)) >= TWO_64
  {
    hide Excluded, Selected, TotalSize;
    var files: seq<Listed> := [];
    var total := 0;
    NothingSelected();
    for i := 0 to |listing|
      invariant files == Selected(listing[..i]) && total == TotalSize(files)
      invariant forall l | l in listing[..i] :: l.kind != Symlink
      invariant |files| <= MAX_ENTRIES && total < TWO_64
    {
      SelectedStep(listing, i);
      var l := listing[i];
      assert listing[..i + 1] == listing[..i] + [l];
      if l.kind == Symlink {
        return Err(SymlinkRefused);
      }
      if l.kind != RegularFile || Excluded(l.path) {
        continue;
      }
      SelectedGrows(listing, i + 1);
      TotalSizeStep(files, l);
      if |files| >= MAX_ENTRIES {
        return Err(TooManyFiles);
      }
      files := files + [l];
      if TWO_64 - 1 - total < l.size {
        return Err(PayloadOverflow);
      }
      total := total + l.size;
    }
    assert listing[..|listing|] == listing;
    r := Ok(files);
  }

  lemma NothingSelected()
    ensures Selected([]) == [] && TotalSize([]) == 0
  {
  }

  lemma SelectedStep(listing: seq<Listed>, n: nat)
    requires n < |listing|
    ensures Selected(listing[..n + 1])
            == if Travels(listing[n]) then Selected(listing[..n]) + [listing[n]] else Selected(listing[..n])
  {
    hide Travels;
    assert listing[..n + 1][..n] == listing[..n];
  }

  lemma TotalSizeStep(files: seq<Listed>, l: Listed)
    ensures TotalSize(files + [l]) == TotalSize(files) + l.size
  {
    assert (files + [l])[..|files|] == files;
  }

  lemma {:induction false} SelectedGrows(listing: seq<Listed>, n: nat)
    requires n <= |listing|
    ensures |Selected(listing[..n])| <= |Selected(listing)|
    ensures TotalSize(Selected(listing[..n])) <= TotalSize(Selected(listing))
    decreases |listing| - n
  {
    hide Travels, Selected, TotalSize;
    if n == |listing| {
      assert listing[..n] == listing;
    } else {
      SelectedGrows(listing, n + 1);
      SelectedStep(listing, n);
      TotalSizeStep(Selected(listing[..n]), listing[n]);
    }
  }

  // ----- What is written -----

  predicate Readable(f: Listed) {
    f.contents.Some? && f.size <= |f.contents.value.1|
  }

  /** The payload that is copied, and the bytes the checksum was taken over. */
  function Copied(f: Listed): Bytes
    requires Readable(f)
  {
    f.contents.value.1[..f.size]
  }

  function Summed(f: Listed): Bytes
    requires Readable(f)
  {
    f.contents.value.0
  }

  function ExportedEntry(f: Listed): Bytes
    requires Readable(f)
  {
    EntryHeader(f.path, f.size, PayloadCrc(Summed(f))) + Copied(f)
  }

  function ExportedEntries(files: seq<Listed>): Bytes
    requires forall f | f in files :: Readable(f)
  {
    if files == [] then [] else ExportedEntry(files[0]) + ExportedEntries(files[1..])
  }

  function ExportedFile(roots: seq<Bytes>, generation: nat, files: seq<Listed>): Bytes
    requires forall f | f in files :: Readable(f)
  {
    EncodeHeader(roots, generation, |files|) + ExportedEntries(files)
  }

  /** The checksum loop: reads until a read comes up short. */
  method ChecksumContents(contents: Bytes, bufferBytes: nat) returns (crc: Word)
    requires bufferBytes > 0
    ensures crc == Crc(Zero(), contents)
  {
    hide Crc;
    crc := Zero();
    CrcOfNothing();
    var position, more := 0, true;
    while more
      invariant 0 <= position <= |contents| && crc == Crc(Zero(), contents[..position])
      invariant !more ==> position == |contents|
      decreases more, |contents| - position
    {
      var got := if |contents| - position < bufferBytes then |contents| - position else bufferBytes;
      var chunk := contents[position..position + got];
      if got > 0 {
        assert contents[..position] + chunk == contents[..position + got];
        CrcConcat(Zero(), contents[..position], chunk);
        crc := Crc32Update(crc, chunk);
      }
      position := position + got;
      more := got == bufferBytes;
    }
    assert contents[..|contents|] == contents;
  }

  /** The first `done` bytes are written and the others are to be read. */
  ghost predicate CopyState(contents: Bytes, done: nat, written: Bytes, rest: Bytes) {
    done <= |contents| && written == contents[..done] && rest == contents[done..]
  }

  lemma CopyStep(contents: Bytes, done: nat, written: Bytes, rest: Bytes, want: nat)
    requires CopyState(contents, done, written, rest) && want <= |rest|
    ensures CopyState(contents, done + want, written + rest[..want], rest[want..])
  {
  }

  /** The copy loop: fails when the file has become too short. */
  method CopyFrom(input: InStream, size: nat, bufferBytes: nat) returns (r: Option<Bytes>)
    requires input.Valid() && bufferBytes > 0
    modifies input
    ensures input.Valid()
    ensures r == if size <= |old(input.Remaining())| then Some(old(input.Remaining())[..size]) else None
  {
    hide CopyState;
    ghost var contents := input.Remaining();
    var written: Bytes := [];
    var remaining := size;
    CopiedNothing(contents);
    while remaining != 0
      invariant input.Valid() && 0 <= remaining <= size
      invariant CopyState(contents, size - remaining, written, input.Remaining())
    {
      var want := if remaining < bufferBytes then remaining else bufferBytes;
      ghost var rest := input.Remaining();
      CopiedSizes(contents, size - remaining, written, rest);
      var chunk := input.Read(want);
      if chunk.None? {
        return None;
      }
      CopyStep(contents, size - remaining, written, rest, want);
      written := written + chunk.value;
      remaining := remaining - want;
    }
    CopiedSizes(contents, size, written, input.Remaining());
    r := Some(written);
  }

  method CopyPayload(contents: Bytes, size: nat, bufferBytes: nat) returns (r: Option<Bytes>)
    requires bufferBytes > 0
    ensures r == if size <= |contents| then Some(contents[..size]) else None
  {
    var input := new InStream(contents);
    r := CopyFrom(input, size, bufferBytes);
  }

  lemma CopiedNothing(contents: Bytes)
    ensures CopyState(contents, 0, [], contents)
  {
  }

  lemma CopiedSizes(contents: Bytes, done: nat, written: Bytes, rest: Bytes)
    requires CopyState(contents, done, written, rest)
    ensures done + |rest| == |contents| && written == contents[..done]
  {
  }

  predicate WritableString(s: Bytes) {
    |s| < TWO_32
  }

  method WriteEntry(f: Listed, bufferBytes: nat) returns (r: Result<Bytes, Failure>)
    requires bufferBytes > 0
    ensures r.Ok? <==> Readable(f) && WritableString(f.path)
    ensures r.Ok? ==> r.value == ExportedEntry(f)
  {
    if f.contents.None? {
      return Err(FileUnreadable);
    }
    var crc := ChecksumContents(f.contents.value.0, bufferBytes);
    if |f.path| >= TWO_32 {
      return Err(StringTooLong);
    }
    var payload := CopyPayload(f.contents.value.1, f.size, bufferBytes);
    if payload.None? {
      return Err(FileChanged);
    }
    r := Ok(EntryHeader(f.path, f.size, Value(crc)) + payload.value);
  }

  /** The file an export publishes; `works` says which of its entries the stream takes. */
  method Export(listing: seq<Listed>, roots: seq<Bytes>, generation: nat, bufferBytes: nat, works: nat -> bool)
    returns (r: Result<Bytes, Failure>)
    requires bufferBytes > 0 && generation < TWO_64
    // It fails for a reason.
    ensures r.Err? ==>
              || (exists l :: l in listing && l.kind == Symlink)
              || !Exportable(listing, roots)
              || exists i: nat :: i < |Selected(listing)| && !works(i)
    ensures r.Ok? ==>
              && Exportable(listing, roots)
              && r.value == ExportedFile(roots, generation, Selected(listing))
  {
    hide ExportedEntry, Excluded, Selected, TotalSize, LittleEndian;
    var collected := Collect(listing);
    if collected.Err? {
      return Err(collected.error);
    }
    var files := collected.value;
    if |roots| > MAX_ROOTS {
      return Err(TooManyRoots);
    }
    var rootTable: Bytes := [];
    for i := 0 to |roots|
      invariant forall r | r in roots[..i] :: WritableString(r)
      invariant rootTable + EncodeRoots(roots[i..]) == EncodeRoots(roots)
    {
      assert roots[i] in roots;
      if |roots[i]| >= TWO_32 {
        return Err(StringTooLong);
      }
      assert roots[i..][1..] == roots[i + 1..];
      rootTable := rootTable + EncodeString(roots[i]);
    }
    var out := MAGIC + (LittleEndian(FORMAT_VERSION, 4) + (LittleEndian(|roots|, 4)
               + (LittleEndian(generation, 8) + (LittleEndian(|files|, 4) + rootTable))));
    assert out == EncodeHeader(roots, generation, |files|) by {
      assert rootTable + [] == rootTable;
    }
    ghost var header := out;
    for i := 0 to |files|
      invariant forall f | f in files[..i] :: Readable(f) && WritableString(f.path)
      invariant out == header + ExportedEntries(files[..i])
    {
      var entry := WriteEntry(files[i], bufferBytes);
      if entry.Err? {
        return Err(entry.error);
      }
      if !works(i) {
        return Err(WriteFailed);
      }
      ExportedEntriesSnoc(files, i);
      out := out + entry.value;
    }
    assert files[..|files|] == files;
    assert roots[..|roots|] == roots;
    r := Ok(out);
  }

  ghost predicate Exportable(listing: seq<Listed>, roots: seq<Bytes>) {
    var files := Selected(listing);
    && |roots| <= MAX_ROOTS && |files| <= MAX_ENTRIES && TotalSize(files) < TWO_64
    && (forall r | r in roots :: WritableString(r))
    && (forall f | f in files :: Readable(f) && WritableString(f.path))
  }

  lemma {:induction false} ExportedEntriesSnoc(files: seq<Listed>, i: nat)
    requires i < |files| && forall f | f in files[..i + 1] :: Readable(f)
    ensures forall f | f in files[..i] :: Readable(f)
    ensures ExportedEntries(files[..i + 1]) == ExportedEntries(files[..i]) + ExportedEntry(files[i])
    decreases i
  {
    hide ExportedEntry;
    forall f | f in files[..i]
      ensures Readable(f)
    {
      assert f in files[..i + 1];
    }
    assert files[i] in files[..i + 1];
    if i == 0 {
      assert files[..1][1..] == [];
    } else {
      assert files[..i + 1][1..] == files[1..][..i] && files[..i][1..] == files[1..][..i - 1];
      assert forall f | f in files[1..][..i] :: f in files[..i + 1];
      ExportedEntriesSnoc(files[1..], i - 1);
    }
  }

  // ----- When the published file can be read back -----

  ghost predicate GoodFile(f: Listed)
    requires Readable(f)
  {
    && |f.path| <= MAX_STRING_BYTES && TravelsSafely(f.path)
    && PayloadCrc(Summed(f)) == PayloadCrc(Copied(f))
  }

  function EntryOf(f: Listed): Entry
    requires Readable(f)
  {
    Entry(f.path, Copied(f))
  }

  function EntriesOf(files: seq<Listed>): (entries: seq<Entry>)
    requires forall f | f in files :: Readable(f)
    ensures |entries| == |files|
  {
    if files == [] then [] else [EntryOf(files[0])] + EntriesOf(files[1..])
  }

  lemma LongStringRejected(s: Bytes, rest: Bytes)
    requires WritableString(s) && |s| > MAX_STRING_BYTES
    ensures GetString(EncodeString(s) + rest).None?
  {
    WordSizes();
    assert EncodeString(s) + rest == LittleEndian(|s|, 4) + (s + rest);
    GetPutInteger(|s|, 4, s + rest);
  }

  lemma {:induction false} RootTableReadable(roots: seq<Bytes>, rest: Bytes, before: seq<Bytes>)
    requires forall r | r in roots :: WritableString(r)
    ensures GetRoots(EncodeRoots(roots) + rest, |roots|, before).Some? <==> forall r | r in roots :: WellFormedRoot(r)
    decreases |roots|
  {
    hide GetString, EncodeString;
    if roots == [] {
    } else {
      var tail := EncodeRoots(roots[1..]) + rest;
      assert EncodeRoots(roots) + rest == EncodeString(roots[0]) + tail;
      assert roots == [roots[0]] + roots[1..];
      if |roots[0]| > MAX_STRING_BYTES {
        LongStringRejected(roots[0], tail);
        assert !WellFormedRoot(roots[0]);
      } else {
        GetPutString(roots[0], tail);
        RootTableReadable(roots[1..], rest, before + [roots[0]]);
        assert (forall r | r in roots :: WellFormedRoot(r))
          <==> WellFormedRoot(roots[0]) && forall r | r in roots[1..] :: WellFormedRoot(r);
      }
    }
  }

  lemma HeaderReadable(roots: seq<Bytes>, generation: nat, count: nat, rest: Bytes)
    requires |roots| <= MAX_ROOTS && generation < TWO_64 && count <= MAX_ENTRIES
    requires forall r | r in roots :: WritableString(r)
    ensures GetHeader(EncodeHeader(roots, generation, count) + rest).Ok? <==> forall r | r in roots :: WellFormedRoot(r)
  {
    hide GetRoots, EncodeRoots, LittleEndian, WellFormedRoot, WritableString, GetCounters;
    var d0 := EncodeRoots(roots) + rest;
    var d1 := LittleEndian(|roots|, 4) + (LittleEndian(generation, 8) + (LittleEndian(count, 4) + d0));
    var d2 := LittleEndian(FORMAT_VERSION, 4) + d1;
    assert EncodeHeader(roots, generation, count) + rest == MAGIC + d2;
    assert (MAGIC + d2)[..8] == MAGIC && (MAGIC + d2)[8..] == d2;
    WordSizes();
    GetPutInteger(FORMAT_VERSION, 4, d1);
    GetPutCounters(|roots|, generation, count, d0);
    RootTableReadable(roots, rest, []);
  }

  lemma EntryReadable(f: Listed, rest: Bytes, total: nat)
    requires Readable(f) && WritableString(f.path) && total + f.size < TWO_64
    ensures GoodFile(f) ==> GetEntry(ExportedEntry(f) + rest, total) == Ok((EntryOf(f), rest))
    ensures GetEntry(ExportedEntry(f) + rest, total).Ok? <==> GoodFile(f)
  {
    hide EntryHeader, GetEntryHeader, Value, Crc, ValidRelativePath, TravelsSafely;
    ValidIffTravelsSafely(f.path);
    var crc, payload := PayloadCrc(Summed(f)), Copied(f);
    CrcFitsWord(Crc(Zero(), Summed(f)));
    var file := ExportedEntry(f) + rest;
    assert file == EntryHeader(f.path, f.size, crc) + payload + rest;
    if |f.path| > MAX_STRING_BYTES {
      LongEntryRejected(f.path, f.size, crc, payload + rest);
      assert file == EntryHeader(f.path, f.size, crc) + (payload + rest);
    } else if TravelsSafely(f.path) {
      GetPutEntry(f.path, payload, crc, rest, total);
    } else {
      GetPutEntryHeader(f.path, f.size, crc, payload + rest);
      assert file == EntryHeader(f.path, f.size, crc) + (payload + rest);
    }
  }

  lemma LongEntryRejected(name: Bytes, size: nat, crc: nat, rest: Bytes)
    requires WritableString(name) && |name| > MAX_STRING_BYTES
    ensures GetEntryHeader(EntryHeader(name, size, crc) + rest).None?
  {
    var after := LittleEndian(size, 8) + (LittleEndian(crc, 4) + rest);
    assert EntryHeader(name, size, crc) + rest == EncodeString(name) + after;
    LongStringRejected(name, after);
  }

  lemma {:induction false} EntriesReadable(files: seq<Listed>, before: seq<Entry>)
    requires forall f | f in files :: Readable(f) && WritableString(f.path)
    requires TotalBytes(before + EntriesOf(files)) < TWO_64
    ensures var read := GetEntries(ExportedEntries(files), |files|, before);
            && (read.Ok? <==> forall f | f in files :: GoodFile(f))
            && (read.Ok? ==> read.value == before + EntriesOf(files))
    decreases |files|
  {
    hide GetEntry, ExportedEntry, GoodFile, TotalBytes, WritableString;
    if files == [] {
      assert before + [] == before;
    } else {
      var f, tail := files[0], files[1..];
      assert files == [f] + tail;
      var e := EntryOf(f);
      assert before + EntriesOf(files) == before + [e] + EntriesOf(tail);
      TotalOfNext(before, e, EntriesOf(tail));
      EntryReadable(f, ExportedEntries(tail), TotalBytes(before));
      if GoodFile(f) {
        EntriesReadable(tail, before + [e]);
      }
    }
  }

  lemma {:induction false} TotalSizeIsTotalBytes(files: seq<Listed>)
    requires forall f | f in files :: Readable(f)
    ensures TotalBytes(EntriesOf(files)) == TotalSize(files)
    decreases |files|
  {
    if files != [] {
      var front := files[..|files| - 1];
      TotalSizeIsTotalBytes(front);
      EntriesOfSnoc(files);
      var entries, last := EntriesOf(files), files[|files| - 1];
      assert entries[..|entries| - 1] == EntriesOf(front);
      assert entries[|entries| - 1] == EntryOf(last) && Readable(last);
      assert |EntryOf(last).payload| == last.size;
    }
  }

  lemma {:induction false} EntriesOfSnoc(files: seq<Listed>)
    requires files != [] && forall f | f in files :: Readable(f)
    ensures EntriesOf(files) == EntriesOf(files[..|files| - 1]) + [EntryOf(files[|files| - 1])]
    decreases |files|
  {
    hide EntryOf, Readable;
    if |files| > 1 {
      EntriesOfSnoc(files[1..]);
      assert files[1..][..|files| - 2] == files[..|files| - 1][1..];
    } else {
      assert files[1..] == [] && files[..0] == [];
    }
  }

  /** An exported file is readable exactly when its names and roots fit the format and
      no file changed between the checksum and the copy in a way the checksum sees.
      What is read back is then the roots, the generation and the copied payloads. */
  lemma ExportReadableIff(listing: seq<Listed>, roots: seq<Bytes>, generation: nat)
    requires generation < TWO_64 && Exportable(listing, roots)
    ensures var files := Selected(listing);
            var read := Parse(ExportedFile(roots, generation, files));
            && (read.Ok? <==> (forall r | r in roots :: WellFormedRoot(r)) && (forall f | f in files :: GoodFile(f)))
            && (read.Ok? ==> read.value == Snapshot(roots, generation, EntriesOf(files)))
  {
    hide GetEntries, ExportedEntries, GetHeader, EncodeHeader, GoodFile, WellFormedRoot, TotalSize, TotalBytes, Readable, WritableString;
    var files := Selected(listing);
    HeaderReadable(roots, generation, |files|, ExportedEntries(files));
    TotalSizeIsTotalBytes(files);
    assert [] + EntriesOf(files) == EntriesOf(files);
    EntriesReadable(files, []);
    if forall r | r in roots :: WellFormedRoot(r) {
      GetPutHeader(roots, generation, |files|, ExportedEntries(files));
    }
  }
}
