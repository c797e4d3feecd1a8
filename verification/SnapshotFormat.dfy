/** The transport format of an index snapshot: what is written, what a reader
    accepts, and that the two describe the same set of byte strings.

    File names and search roots are byte strings, as on POSIX systems.
  */
module SnapshotFormat {

  import opened Results
  import opened Crc32

  const MAGIC: Bytes := [83, 85, 67, 72, 73, 68, 88, 49]  // SUCHIDX1
  const FORMAT_VERSION := 1
  const MAX_STRING_BYTES := 1024 * 1024
  const MAX_ENTRIES := 1_000_000
  const MAX_ROOTS := 4096
  const TWO_32 := 0x1_0000_0000
  const TWO_64 := 0x1_0000_0000_0000_0000

  datatype Entry = Entry(name: Bytes, payload: Bytes)

  datatype Snapshot = Snapshot(roots: seq<Bytes>, generation: nat, entries: seq<Entry>)

  datatype Reject =
    | NotASnapshot
    | UnsupportedFormat
    | CorruptHeader
    | CorruptRootTable
    | TruncatedEntryHeader
    | UnsafePath(name: Bytes)
    | TruncatedPayload
    | CrcMismatch(name: Bytes)
    | SizeOverflow
    | TrailingBytes

  // ----- Little-endian integers -----

  function Pow256(n: nat): nat {
    if n == 0 then 1 else 256 * Pow256(n - 1)
  }

  function LittleEndian(v: nat, n: nat): (b: Bytes)
    ensures |b| == n
  {
    if n == 0 then [] else [v % 256] + LittleEndian(v / 256, n - 1)
  }

  function FromLittleEndian(b: Bytes): nat {
    if b == [] then 0 else b[0] + 256 * FromLittleEndian(b[1..])
  }

  lemma {:induction false} DecodeEncodeInteger(v: nat, n: nat)
    requires v < Pow256(n)
    ensures FromLittleEndian(LittleEndian(v, n)) == v
  {
    if n > 0 {
      DecodeEncodeInteger(v / 256, n - 1);
      assert LittleEndian(v, n)[1..] == LittleEndian(v / 256, n - 1);
    }
  }

  lemma {:induction false} EncodeDecodeInteger(b: Bytes)
    ensures FromLittleEndian(b) < Pow256(|b|)
    ensures LittleEndian(FromLittleEndian(b), |b|) == b
  {
    if b != [] {
      var tail := b[1..];
      EncodeDecodeInteger(tail);
      var v, rest := FromLittleEndian(b), FromLittleEndian(tail);
      assert v % 256 == b[0] && v / 256 == rest by {
        assert v == b[0] + 256 * rest;
      }
      assert b == [b[0]] + tail;
    }
  }

  lemma WordSizes()
    ensures Pow256(4) == TWO_32 && Pow256(8) == TWO_64
  {
    assert Pow256(4) == TWO_32;
    assert Pow256(6) == 0x1_0000_0000_0000;
  }

  lemma CrcFitsWord(crc: Word)
    ensures Value(crc) < TWO_32
  {
    ValueBound(crc);
    TwoToThe32();
  }

  // ----- Names -----

  const SLASH: Byte := 47
  const DOT: Byte := 46

  /** The components of a path, split at every slash; empty ones are kept. */
  function Components(path: Bytes): (parts: seq<Bytes>)
    ensures |parts| > 0
  {
    if path == [] then [[]]
    else
      var rest := Components(path[1..]);
      if path[0] == SLASH then [[]] + rest else [[path[0]] + rest[0]] + rest[1..]
  }

  /** Relative, non-empty, and without a component that would leave or stay. */
  predicate ValidRelativePath(path: Bytes) {
    && path != []
    && path[0] != SLASH
    && forall c | c in Components(path) :: c != [DOT] && c != [DOT, DOT]
  }

  /** `path[a..b]` stands between slashes or ends of the path. */
  predicate Bounded(path: Bytes, a: nat, b: nat) {
    a <= b <= |path| && (a == 0 || path[a - 1] == SLASH) && (b == |path| || path[b] == SLASH)
  }

  /** A name that may travel: it does not start with a slash, and nowhere in it one or two
      dots stand alone between slashes or ends. */
  ghost predicate TravelsSafely(name: Bytes) {
    && name != [] && name[0] != SLASH
    && forall a: nat, b: nat | Bounded(name, a, b) :: name[a..b] != [DOT] && name[a..b] != [DOT, DOT]
  }

  predicate SegmentAt(path: Bytes, a: nat, b: nat) {
    Bounded(path, a, b) && forall i | a <= i < b :: path[i] != SLASH
  }

  lemma {:induction false} ComponentIsSegment(path: Bytes, j: nat) returns (a: nat, b: nat)
    requires j < |Components(path)|
    ensures SegmentAt(path, a, b) && path[a..b] == Components(path)[j] && (j == 0 <==> a == 0)
  {
    if path == [] || (path[0] == SLASH && j == 0) {
      return 0, 0;
    }
    var tail := path[1..];
    assert path == [path[0]] + tail;
    var k := if path[0] == SLASH then j - 1 else j;
    var c, d := ComponentIsSegment(tail, k);
    SegmentMoved(path[0], tail, c, d);
    a, b := if j == 0 then 0 else c + 1, d + 1;
  }

  /** One more character in front moves a segment, or becomes part of the first one. */
  lemma SegmentMoved(x: Byte, tail: Bytes, c: nat, d: nat)
    requires SegmentAt(tail, c, d)
    ensures var path := [x] + tail;
            && (c > 0 || x == SLASH ==> SegmentAt(path, c + 1, d + 1) && path[c + 1..d + 1] == tail[c..d])
            && (c == 0 && x != SLASH ==> SegmentAt(path, 0, d + 1) && path[0..d + 1] == [x] + tail[0..d])
  {
    var path := [x] + tail;
    assert forall i | 0 <= i < |tail| :: path[i + 1] == tail[i];
    assert forall i | 0 < i <= d :: path[i] == tail[i - 1];
  }

  lemma {:induction false} SegmentIsComponent(path: Bytes, a: nat, b: nat) returns (j: nat)
    requires SegmentAt(path, a, b)
    ensures j < |Components(path)| && Components(path)[j] == path[a..b] && (j == 0 <==> a == 0)
  {
    hide SegmentAt, Components;
    if path == [] || (path[0] == SLASH && a == 0) {
      FirstIsEmpty(path, a, b);
      return 0;
    }
    var tail := path[1..];
    assert path == [path[0]] + tail;
    SegmentBehind(path[0], tail, a, b);
    ComponentsStep(path[0], tail);
    j := SegmentIsComponent(tail, if a == 0 then 0 else a - 1, b - 1);
    if path[0] == SLASH {
      j := j + 1;
    }
  }

  lemma FirstIsEmpty(path: Bytes, a: nat, b: nat)
    requires SegmentAt(path, a, b) && (path == [] || (path[0] == SLASH && a == 0))
    ensures a == 0 && Components(path)[0] == path[a..b]
  {
  }

  /** A segment without its first character, or moved by the one that stood in front. */
  lemma SegmentBehind(x: Byte, tail: Bytes, a: nat, b: nat)
    requires SegmentAt([x] + tail, a, b) && (x == SLASH ==> a > 0)
    ensures b > 0 && (a == 1 ==> x == SLASH) && SegmentAt(tail, if a == 0 then 0 else a - 1, b - 1)
    ensures ([x] + tail)[a..b] == if a == 0 then [x] + tail[0..b - 1] else tail[a - 1..b - 1]
  {
    var path := [x] + tail;
    assert forall i | 0 <= i < |tail| :: tail[i] == path[i + 1];
    assert forall i | 0 < i <= b :: i < |path| ==> path[i] == tail[i - 1];
  }

  lemma ComponentsStep(x: Byte, tail: Bytes)
    ensures var rest := Components(tail);
            Components([x] + tail) == if x == SLASH then [[]] + rest else [[x] + rest[0]] + rest[1..]
  {
    assert ([x] + tail)[1..] == tail;
  }

  /** The test accepts exactly those names. */
  lemma ValidIffTravelsSafely(name: Bytes)
    ensures ValidRelativePath(name) <==> TravelsSafely(name)
  {
    hide Components;
    if ValidRelativePath(name) {
      forall a: nat, b: nat | Bounded(name, a, b)
        ensures name[a..b] != [DOT] && name[a..b] != [DOT, DOT]
      {
        if i :| a <= i < b && name[i] == SLASH {
          assert name[a..b][i - a] == SLASH;
        } else {
          var j := SegmentIsComponent(name, a, b);
          assert Components(name)[j] in Components(name);
        }
      }
    }
    if TravelsSafely(name) {
      forall c | c in Components(name)
        ensures c != [DOT] && c != [DOT, DOT]
      {
        var j :| 0 <= j < |Components(name)| && Components(name)[j] == c;
        var a, b := ComponentIsSegment(name, j);
      }
    }
  }

  // ----- The writer -----

  function EncodeString(s: Bytes): Bytes {
    LittleEndian(|s|, 4) + s
  }

  function EncodeRoots(roots: seq<Bytes>): Bytes {
    if roots == [] then [] else EncodeString(roots[0]) + EncodeRoots(roots[1..])
  }

  function EntryHeader(name: Bytes, size: nat, crc: nat): Bytes {
    EncodeString(name) + LittleEndian(size, 8) + LittleEndian(crc, 4)
  }

  function PayloadCrc(payload: Bytes): nat {
    Value(Crc(Zero(), payload))
  }

  function EncodeEntry(e: Entry): Bytes {
    EntryHeader(e.name, |e.payload|, PayloadCrc(e.payload)) + e.payload
  }

  function EncodeEntries(entries: seq<Entry>): Bytes {
    if entries == [] then [] else EncodeEntry(entries[0]) + EncodeEntries(entries[1..])
  }

  function EncodeHeader(roots: seq<Bytes>, generation: nat, entryCount: nat): Bytes {
    MAGIC + (LittleEndian(FORMAT_VERSION, 4) + (LittleEndian(|roots|, 4)
    + (LittleEndian(generation, 8) + (LittleEndian(entryCount, 4) + EncodeRoots(roots)))))
  }

  function Encode(s: Snapshot): Bytes {
    EncodeHeader(s.roots, s.generation, |s.entries|) + EncodeEntries(s.entries)
  }

  // ----- The reader -----

  function GetInteger(rest: Bytes, n: nat): Option<(nat, Bytes)> {
    if |rest| < n then None else Some((FromLittleEndian(rest[..n]), rest[n..]))
  }

  function GetString(rest: Bytes): Option<(Bytes, Bytes)> {
    var (size, rest) :- GetInteger(rest, 4);
    if size > MAX_STRING_BYTES || size > |rest| then None else Some((rest[..size], rest[size..]))
  }

  function GetRoots(rest: Bytes, n: nat, roots: seq<Bytes>): Option<(seq<Bytes>, Bytes)>
    decreases n
  {
    if n == 0 then Some((roots, rest))
    else
      var (root, rest) :- GetString(rest);
      if root == [] then None else GetRoots(rest, n - 1, roots + [root])
  }

  datatype Header = Header(roots: seq<Bytes>, generation: nat, entryCount: nat)

  /** The three counters after the format version. */
  function GetCounters(rest: Bytes): Option<(nat, nat, nat, Bytes)> {
    var (rootCount, rest) :- GetInteger(rest, 4);
    if rootCount > MAX_ROOTS then None
    else
      var (generation, rest) :- GetInteger(rest, 8);
      var (entryCount, rest) :- GetInteger(rest, 4);
      if entryCount > MAX_ENTRIES then None else Some((rootCount, generation, entryCount, rest))
  }

  function GetHeader(rest: Bytes): Result<(Header, Bytes), Reject> {
    if |rest| < 8 || rest[..8] != MAGIC then Err(NotASnapshot)
    else
      var version := GetInteger(rest[8..], 4);
      if version.None? || version.value.0 != FORMAT_VERSION then Err(UnsupportedFormat)
      else
        var counters := GetCounters(version.value.1);
        if counters.None? then Err(CorruptHeader)
        else
          var (rootCount, generation, entryCount, rest) := counters.value;
          var roots := GetRoots(rest, rootCount, []);
          if roots.None? then Err(CorruptRootTable)
          else Ok((Header(roots.value.0, generation, entryCount), roots.value.1))
  }

  function TotalBytes(entries: seq<Entry>): nat {
    if entries == [] then 0 else TotalBytes(entries[..|entries| - 1]) + |entries[|entries| - 1].payload|
  }

  datatype EntryFields = EntryFields(name: Bytes, size: nat, crc: nat)

  function GetEntryHeader(rest: Bytes): Option<(EntryFields, Bytes)> {
    var (name, rest) :- GetString(rest);
    var (size, rest) :- GetInteger(rest, 8);
    var (crc, rest) :- GetInteger(rest, 4);
    Some((EntryFields(name, size, crc), rest))
  }

  /** One entry that follows entries holding `total` payload bytes. */
  function GetEntry(rest: Bytes, total: nat): Result<(Entry, Bytes), Reject> {
    var header := GetEntryHeader(rest);
    if header.None? then Err(TruncatedEntryHeader)
    else
      var (fields, rest) := header.value;
      if !ValidRelativePath(fields.name) then Err(UnsafePath(fields.name))
      else if |rest| < fields.size then Err(TruncatedPayload)
      else if PayloadCrc(rest[..fields.size]) != fields.crc then Err(CrcMismatch(fields.name))
      else if TWO_64 - 1 - total < fields.size then Err(SizeOverflow)
      else Ok((Entry(fields.name, rest[..fields.size]), rest[fields.size..]))
  }

  function GetEntries(rest: Bytes, n: nat, entries: seq<Entry>): Result<seq<Entry>, Reject>
    decreases n
  {
    if n == 0 then if rest == [] then Ok(entries) else Err(TrailingBytes)
    else
      var (entry, rest) :- GetEntry(rest, TotalBytes(entries));
      GetEntries(rest, n - 1, entries + [entry])
  }

  /** What a reader makes of a whole file. */
  function Parse(file: Bytes): Result<Snapshot, Reject> {
    var (header, rest) :- GetHeader(file);
    var entries :- GetEntries(rest, header.entryCount, []);
    Ok(Snapshot(header.roots, header.generation, entries))
  }

  // ----- The snapshots the format can carry -----

  predicate WellFormedRoot(root: Bytes) {
    0 < |root| <= MAX_STRING_BYTES
  }

  ghost predicate WellFormedEntry(e: Entry) {
    |e.name| <= MAX_STRING_BYTES && TravelsSafely(e.name)
  }

  ghost predicate WellFormed(s: Snapshot) {
    && |s.roots| <= MAX_ROOTS
    && (forall r | r in s.roots :: WellFormedRoot(r))
    && s.generation < TWO_64
    && |s.entries| <= MAX_ENTRIES
    && (forall e | e in s.entries :: WellFormedEntry(e))
    && TotalBytes(s.entries) < TWO_64
  }

  // ----- Where things stand in a file -----

  /** The first 28 bytes of every file: the magic word, and version, number of roots,
      generation and number of entries as little-endian integers of 4, 4, 8 and 4 bytes. */
  lemma HeaderLayout(s: Snapshot)
    requires WellFormed(s)
    ensures var f := Encode(s);
            && |f| >= 28
            && f[0..8] == [83, 85, 67, 72, 73, 68, 88, 49]
            && FromLittleEndian(f[8..12]) == 1
            && FromLittleEndian(f[12..16]) == |s.roots|
            && FromLittleEndian(f[16..24]) == s.generation
            && FromLittleEndian(f[24..28]) == |s.entries|
  {
    hide LittleEndian, FromLittleEndian, EncodeEntries, EncodeRoots, WellFormedEntry;
    WordSizes();
    var a, b, c, e := LittleEndian(1, 4), LittleEndian(|s.roots|, 4), LittleEndian(s.generation, 8), LittleEndian(|s.entries|, 4);
    var f := Encode(s);
    assert f == MAGIC + a + b + c + e + (EncodeRoots(s.roots) + EncodeEntries(s.entries));
    assert f[0..8] == MAGIC && f[8..12] == a && f[12..16] == b && f[16..24] == c && f[24..28] == e;
    DecodeEncodeInteger(1, 4);
    DecodeEncodeInteger(|s.roots|, 4);
    DecodeEncodeInteger(s.generation, 8);
    DecodeEncodeInteger(|s.entries|, 4);
  }

  /** An entry: the length of its name in 4 bytes, the name, the length of the payload in 8,
      its checksum in 4, and the payload. */
  lemma EntryLayout(e: Entry)
    requires WellFormedEntry(e) && |e.payload| < TWO_64
    ensures var f, n := EncodeEntry(e), |e.name|;
            && |f| == 16 + n + |e.payload|
            && FromLittleEndian(f[0..4]) == n
            && f[4..4 + n] == e.name
            && FromLittleEndian(f[4 + n..12 + n]) == |e.payload|
            && FromLittleEndian(f[12 + n..16 + n]) == PayloadCrc(e.payload)
            && f[16 + n..] == e.payload
  {
    hide LittleEndian, FromLittleEndian, TravelsSafely, Crc, Value;
    WordSizes();
    CrcFitsWord(Crc(Zero(), e.payload));
    var a, b, c := LittleEndian(|e.name|, 4), LittleEndian(|e.payload|, 8), LittleEndian(PayloadCrc(e.payload), 4);
    var f, n := EncodeEntry(e), |e.name|;
    assert f == a + e.name + b + c + e.payload;
    assert f[0..4] == a && f[4..4 + n] == e.name && f[4 + n..12 + n] == b && f[12 + n..16 + n] == c && f[16 + n..] == e.payload;
    DecodeEncodeInteger(|e.name|, 4);
    DecodeEncodeInteger(|e.payload|, 8);
    DecodeEncodeInteger(PayloadCrc(e.payload), 4);
  }

  // ----- Reading back what was written -----

  lemma GetPutInteger(v: nat, n: nat, rest: Bytes)
    requires v < Pow256(n)
    ensures GetInteger(LittleEndian(v, n) + rest, n) == Some((v, rest))
  {
    DecodeEncodeInteger(v, n);
    assert (LittleEndian(v, n) + rest)[..n] == LittleEndian(v, n);
    assert (LittleEndian(v, n) + rest)[n..] == rest;
  }

  lemma GetPutString(s: Bytes, rest: Bytes)
    requires |s| <= MAX_STRING_BYTES
    ensures GetString(EncodeString(s) + rest) == Some((s, rest))
  {
    WordSizes();
    GetPutInteger(|s|, 4, s + rest);
    assert EncodeString(s) + rest == LittleEndian(|s|, 4) + (s + rest);
    assert (s + rest)[..|s|] == s && (s + rest)[|s|..] == rest;
  }

  lemma {:induction false} GetPutRoots(roots: seq<Bytes>, rest: Bytes, before: seq<Bytes>)
    requires forall r | r in roots :: WellFormedRoot(r)
    ensures GetRoots(EncodeRoots(roots) + rest, |roots|, before) == Some((before + roots, rest))
    decreases |roots|
  {
    if roots == [] {
      assert EncodeRoots(roots) + rest == rest && before + roots == before;
    } else {
      hide GetString, EncodeString;
      var tail := EncodeRoots(roots[1..]) + rest;
      assert EncodeRoots(roots) + rest == EncodeString(roots[0]) + tail;
      assert WellFormedRoot(roots[0]);
      GetPutString(roots[0], tail);
      GetPutRoots(roots[1..], rest, before + [roots[0]]);
      assert before + [roots[0]] + roots[1..] == before + roots;
    }
  }

  lemma GetPutCounters(roots: nat, generation: nat, entries: nat, rest: Bytes)
    requires roots <= MAX_ROOTS && generation < TWO_64 && entries <= MAX_ENTRIES
    ensures GetCounters(LittleEndian(roots, 4) + (LittleEndian(generation, 8) + (LittleEndian(entries, 4) + rest)))
            == Some((roots, generation, entries, rest))
  {
    WordSizes();
    GetPutInteger(entries, 4, rest);
    GetPutInteger(generation, 8, LittleEndian(entries, 4) + rest);
    GetPutInteger(roots, 4, LittleEndian(generation, 8) + (LittleEndian(entries, 4) + rest));
  }

  lemma GetPutHeader(roots: seq<Bytes>, generation: nat, entryCount: nat, rest: Bytes)
    requires |roots| <= MAX_ROOTS && generation < TWO_64 && entryCount <= MAX_ENTRIES
    requires forall r | r in roots :: WellFormedRoot(r)
    ensures GetHeader(EncodeHeader(roots, generation, entryCount) + rest)
            == Ok((Header(roots, generation, entryCount), rest))
  {
    var d0 := EncodeRoots(roots) + rest;
    var d1 := LittleEndian(|roots|, 4) + (LittleEndian(generation, 8) + (LittleEndian(entryCount, 4) + d0));
    var d2 := LittleEndian(FORMAT_VERSION, 4) + d1;
    assert EncodeHeader(roots, generation, entryCount) + rest == MAGIC + d2;
    assert (MAGIC + d2)[..8] == MAGIC && (MAGIC + d2)[8..] == d2;
    WordSizes();
    GetPutInteger(FORMAT_VERSION, 4, d1);
    GetPutCounters(|roots|, generation, entryCount, d0);
    GetPutRoots(roots, rest, []);
    assert [] + roots == roots;
  }

  lemma GetPutEntryHeader(name: Bytes, size: nat, crc: nat, rest: Bytes)
    requires |name| <= MAX_STRING_BYTES && size < TWO_64 && crc < TWO_32
    ensures GetEntryHeader(EntryHeader(name, size, crc) + rest) == Some((EntryFields(name, size, crc), rest))
  {
    WordSizes();
    var d0 := LittleEndian(crc, 4) + rest;
    var d1 := LittleEndian(size, 8) + d0;
    assert EntryHeader(name, size, crc) + rest == EncodeString(name) + d1;
    GetPutString(name, d1);
    GetPutInteger(size, 8, d0);
    GetPutInteger(crc, 4, rest);
  }

  /** One entry read back, whether or not the stored checksum fits its payload. */
  lemma GetPutEntry(name: Bytes, payload: Bytes, crc: nat, rest: Bytes, total: nat)
    requires WellFormedEntry(Entry(name, payload)) && crc < TWO_32 && total + |payload| < TWO_64
    ensures GetEntry(EntryHeader(name, |payload|, crc) + payload + rest, total)
            == if PayloadCrc(payload) == crc then Ok((Entry(name, payload), rest)) else Err(CrcMismatch(name))
  {
    hide ValidRelativePath, TravelsSafely, EntryHeader, GetEntryHeader, Crc, Value;
    ValidIffTravelsSafely(name);
    assert EntryHeader(name, |payload|, crc) + payload + rest == EntryHeader(name, |payload|, crc) + (payload + rest);
    GetPutEntryHeader(name, |payload|, crc, payload + rest);
    assert (payload + rest)[..|payload|] == payload && (payload + rest)[|payload|..] == rest;
  }

  lemma GetPutOwnEntry(e: Entry, rest: Bytes, total: nat)
    requires WellFormedEntry(e) && total + |e.payload| < TWO_64
    ensures GetEntry(EncodeEntry(e) + rest, total) == Ok((e, rest))
  {
    hide GetEntry, EntryHeader, Crc;
    CrcFitsWord(Crc(Zero(), e.payload));
    GetPutEntry(e.name, e.payload, PayloadCrc(e.payload), rest, total);
  }

  lemma {:induction false} TotalIsMonotone(a: seq<Entry>, b: seq<Entry>)
    ensures TotalBytes(a) <= TotalBytes(a + b)
    decreases |b|
  {
    if b == [] {
      assert a + b == a;
    } else {
      var front := b[..|b| - 1];
      TotalIsMonotone(a, front);
      assert (a + b)[..|a + b| - 1] == a + front;
    }
  }

  lemma TotalOfNext(a: seq<Entry>, e: Entry, b: seq<Entry>)
    ensures TotalBytes(a) + |e.payload| <= TotalBytes(a + [e] + b)
  {
    TotalIsMonotone(a + [e], b);
    assert (a + [e])[..|a|] == a;
  }

  lemma GetEntriesStep(rest: Bytes, n: nat, before: seq<Entry>, e: Entry, after: Bytes)
    requires n > 0 && GetEntry(rest, TotalBytes(before)) == Ok((e, after))
    ensures GetEntries(rest, n, before) == GetEntries(after, n - 1, before + [e])
  {
    hide GetEntry, TotalBytes;
  }

  lemma EncodeNoEntries()
    ensures EncodeEntries([]) == []
  {
  }

  lemma EncodeEntriesStep(e: Entry, tail: seq<Entry>)
    ensures EncodeEntries([e] + tail) == EncodeEntry(e) + EncodeEntries(tail)
  {
    hide EncodeEntry;
    assert ([e] + tail)[1..] == tail;
  }

  /** Reading entries that were written leaves exactly the bytes behind them. */
  lemma {:induction false} GetPutEntries(entries: seq<Entry>, rest: Bytes, n: nat, before: seq<Entry>)
    requires forall e | e in entries :: WellFormedEntry(e)
    requires TotalBytes(before + entries) < TWO_64 && n >= |entries|
    ensures GetEntries(EncodeEntries(entries) + rest, n, before) == GetEntries(rest, n - |entries|, before + entries)
    decreases |entries|
  {
    hide GetEntries, EncodeEntries, GetEntry, EncodeEntry, TotalBytes, WellFormedEntry;
    if entries == [] {
      EncodeNoEntries();
      assert EncodeEntries(entries) + rest == rest && before + entries == before;
    } else {
      var e, tail := entries[0], entries[1..];
      assert entries == [e] + tail;
      EncodeEntriesStep(e, tail);
      var after := EncodeEntries(tail) + rest;
      assert EncodeEntries(entries) + rest == EncodeEntry(e) + after;
      assert before + entries == before + [e] + tail;
      TotalOfNext(before, e, tail);
      GetPutOwnEntry(e, after, TotalBytes(before));
      GetEntriesStep(EncodeEntries(entries) + rest, n, before, e, after);
      GetPutEntries(tail, rest, n - 1, before + [e]);
    }
  }

  /** Decoding an encoded snapshot gives the snapshot back. */
  lemma ParseEncode(s: Snapshot)
    requires WellFormed(s)
    ensures Parse(Encode(s)) == Ok(s)
  {
    var body := EncodeEntries(s.entries);
    GetPutHeader(s.roots, s.generation, |s.entries|, body);
    assert [] + s.entries == s.entries && body + [] == body;
    GetPutEntries(s.entries, [], |s.entries|, []);
  }

  // ----- Everything accepted was written -----

  lemma PutGetInteger(rest: Bytes, n: nat)
    requires GetInteger(rest, n).Some?
    ensures var (v, after) := GetInteger(rest, n).value;
            v < Pow256(n) && rest == LittleEndian(v, n) + after
  {
    EncodeDecodeInteger(rest[..n]);
  }

  lemma PutGetString(rest: Bytes)
    requires GetString(rest).Some?
    ensures var (s, after) := GetString(rest).value;
            |s| <= MAX_STRING_BYTES && rest == EncodeString(s) + after
  {
    PutGetInteger(rest, 4);
    var (size, r) := GetInteger(rest, 4).value;
    assert r == r[..size] + r[size..];
  }

  lemma {:induction false} PutGetRoots(rest: Bytes, n: nat, before: seq<Bytes>)
    requires GetRoots(rest, n, before).Some?
    ensures var (roots, after) := GetRoots(rest, n, before).value;
            && |roots| == |before| + n && before <= roots
            && (forall r | r in roots[|before|..] :: WellFormedRoot(r))
            && rest == EncodeRoots(roots[|before|..]) + after
    decreases n
  {
    hide GetString, EncodeString;
    if n > 0 {
      PutGetString(rest);
      var (root, r) := GetString(rest).value;
      PutGetRoots(r, n - 1, before + [root]);
      var (roots, after) := GetRoots(rest, n, before).value;
      var added := roots[|before|..];
      assert added[0] == root && added[1..] == roots[|before + [root]|..];
      assert added == [root] + added[1..];
      assert rest == EncodeString(root) + (EncodeRoots(added[1..]) + after);
    } else {
      assert rest == EncodeRoots([]) + rest;
    }
  }

  lemma PutGetCounters(rest: Bytes)
    requires GetCounters(rest).Some?
    ensures var (roots, generation, entries, after) := GetCounters(rest).value;
            && roots <= MAX_ROOTS && generation < TWO_64 && entries <= MAX_ENTRIES
            && rest == LittleEndian(roots, 4) + (LittleEndian(generation, 8) + (LittleEndian(entries, 4) + after))
  {
    WordSizes();
    PutGetInteger(rest, 4);
    var r1 := GetInteger(rest, 4).value.1;
    PutGetInteger(r1, 8);
    var r2 := GetInteger(r1, 8).value.1;
    PutGetInteger(r2, 4);
  }

  lemma PutGetHeader(rest: Bytes)
    requires GetHeader(rest).Ok?
    ensures var (h, after) := GetHeader(rest).value;
            && |h.roots| <= MAX_ROOTS && h.generation < TWO_64 && h.entryCount <= MAX_ENTRIES
            && (forall r | r in h.roots :: WellFormedRoot(r))
            && rest == EncodeHeader(h.roots, h.generation, h.entryCount) + after
  {
    hide GetRoots, EncodeRoots, GetInteger, GetCounters, LittleEndian, WellFormedRoot;
    var (h, after) := GetHeader(rest).value;
    PutGetInteger(rest[8..], 4);
    var r1 := GetInteger(rest[8..], 4).value.1;
    PutGetCounters(r1);
    var (n, generation, entryCount, r2) := GetCounters(r1).value;
    PutGetRoots(r2, n, []);
    assert h.roots[0..] == h.roots;
    assert rest == MAGIC + rest[8..];
    assert rest == EncodeHeader(h.roots, generation, entryCount) + after;
  }

  lemma PutGetEntry(rest: Bytes, total: nat)
    requires total < TWO_64 && GetEntry(rest, total).Ok?
    ensures var (e, after) := GetEntry(rest, total).value;
            && WellFormedEntry(e) && total + |e.payload| < TWO_64
            && rest == EncodeEntry(e) + after
  {
    hide GetEntryHeader, EntryHeader, ValidRelativePath, TravelsSafely, PayloadCrc;
    ValidIffTravelsSafely(GetEntryHeader(rest).value.0.name);
    PutGetEntryHeader(rest);
    var (fields, r) := GetEntryHeader(rest).value;
    assert r == r[..fields.size] + r[fields.size..];
    assert rest == EntryHeader(fields.name, fields.size, fields.crc) + r[..fields.size] + r[fields.size..];
  }

  lemma PutGetEntryHeader(rest: Bytes)
    requires GetEntryHeader(rest).Some?
    ensures var (fields, after) := GetEntryHeader(rest).value;
            && |fields.name| <= MAX_STRING_BYTES
            && rest == EntryHeader(fields.name, fields.size, fields.crc) + after
  {
    hide GetString, GetInteger, LittleEndian, EncodeString;
    PutGetString(rest);
    var (name, r1) := GetString(rest).value;
    PutGetInteger(r1, 8);
    var (size, r2) := GetInteger(r1, 8).value;
    PutGetInteger(r2, 4);
    var (crc, r3) := GetInteger(r2, 4).value;
    assert rest == EntryHeader(name, size, crc) + r3;
  }

  lemma PutOneEntry(rest: Bytes, n: nat, before: seq<Entry>, e: Entry, after: Bytes)
    requires n > 0 && TotalBytes(before) < TWO_64
    requires GetEntry(rest, TotalBytes(before)) == Ok((e, after))
    ensures GetEntries(rest, n, before) == GetEntries(after, n - 1, before + [e])
    ensures WellFormedEntry(e) && TotalBytes(before + [e]) < TWO_64
    ensures rest == EncodeEntry(e) + after
  {
    hide GetEntries, GetEntry, EncodeEntry, WellFormedEntry;
    GetEntriesStep(rest, n, before, e, after);
    PutGetEntry(rest, TotalBytes(before));
    assert (before + [e])[..|before|] == before;
  }

  lemma {:induction false} PutGetEntries(rest: Bytes, n: nat, before: seq<Entry>)
    requires TotalBytes(before) < TWO_64 && GetEntries(rest, n, before).Ok?
    ensures var entries := GetEntries(rest, n, before).value;
            && |entries| == |before| + n && before <= entries
            && TotalBytes(entries) < TWO_64
            && (forall e | e in entries[|before|..] :: WellFormedEntry(e))
            && rest == EncodeEntries(entries[|before|..])
    decreases n
  {
    hide GetEntry, EncodeEntry, WellFormedEntry, TotalBytes, EncodeEntries;
    EncodeNoEntries();
    assert before[|before|..] == [];
    if n > 0 {
      var (e, r) := GetEntry(rest, TotalBytes(before)).value;
      PutOneEntry(rest, n, before, e, r);
      PutGetEntries(r, n - 1, before + [e]);
      var entries := GetEntries(rest, n, before).value;
      var added := entries[|before + [e]|..];
      assert entries[|before|] == e && entries[|before|..] == [e] + added;
      EncodeEntriesStep(e, added);
    }
  }

  /** Every accepted file is the encoding of the snapshot read from it. */
  lemma EncodeParse(file: Bytes)
    requires Parse(file).Ok?
    ensures WellFormed(Parse(file).value)
    ensures Encode(Parse(file).value) == file
  {
    PutGetHeader(file);
    var (h, rest) := GetHeader(file).value;
    PutGetEntries(rest, h.entryCount, []);
    var entries := GetEntries(rest, h.entryCount, []).value;
    assert entries[0..] == entries;
  }

  /** The format is a bijection between well-formed snapshots and accepted files. */
  lemma AcceptedIffEncoding(file: Bytes)
    ensures Parse(file).Ok? <==> exists s :: WellFormed(s) && file == Encode(s)
  {
    if Parse(file).Ok? {
      EncodeParse(file);
    }
    forall s | WellFormed(s) && file == Encode(s)
      ensures Parse(file).Ok?
    {
      ParseEncode(s);
    }
  }

  // ----- Corruption -----

  lemma {:induction false} EncodeEntriesSplit(a: seq<Entry>, b: seq<Entry>)
    ensures EncodeEntries(a + b) == EncodeEntries(a) + EncodeEntries(b)
  {
    hide EncodeEntries, EncodeEntry;
    if a == [] {
      EncodeNoEntries();
      assert a + b == b;
    } else {
      assert a == [a[0]] + a[1..] && a + b == [a[0]] + (a[1..] + b);
      EncodeEntriesStep(a[0], a[1..]);
      EncodeEntriesStep(a[0], a[1..] + b);
      EncodeEntriesSplit(a[1..], b);
    }
  }

  /** Everything in the file before the payload of entry `i`. */
  function BeforePayload(s: Snapshot, i: nat): Bytes
    requires i < |s.entries|
  {
    var e := s.entries[i];
    EncodeHeader(s.roots, s.generation, |s.entries|) + EncodeEntries(s.entries[..i])
    + EntryHeader(e.name, |e.payload|, PayloadCrc(e.payload))
  }

  lemma FileAroundPayload(s: Snapshot, i: nat)
    requires i < |s.entries|
    ensures Encode(s) == BeforePayload(s, i) + s.entries[i].payload + EncodeEntries(s.entries[i + 1..])
  {
    hide EncodeHeader, EntryHeader, PayloadCrc;
    var a, e, b := s.entries[..i], s.entries[i], s.entries[i + 1..];
    assert s.entries == a + ([e] + b);
    EncodeEntriesSplit(a, [e] + b);
    assert ([e] + b)[1..] == b;
  }

  /** A file whose payload `i` was exchanged for one of the same length. */
  lemma ExchangedPayload(s: Snapshot, i: nat, payload: Bytes)
    requires WellFormed(s) && i < |s.entries| && |payload| == |s.entries[i].payload|
    requires PayloadCrc(payload) != PayloadCrc(s.entries[i].payload)
    ensures Parse(BeforePayload(s, i) + payload + EncodeEntries(s.entries[i + 1..])) == Err(CrcMismatch(s.entries[i].name))
  {
    hide EncodeHeader, GetHeader, EntryHeader, GetEntry, Crc, Value, TotalBytes, EncodeEntries, ValidRelativePath;
    var a, e, after := s.entries[..i], s.entries[i], EncodeEntries(s.entries[i + 1..]);
    var crc := PayloadCrc(e.payload);
    CrcFitsWord(Crc(Zero(), e.payload));
    var body := EntryHeader(e.name, |payload|, crc) + payload + after;
    assert BeforePayload(s, i) + payload + after
        == EncodeHeader(s.roots, s.generation, |s.entries|) + (EncodeEntries(a) + body);
    GetPutHeader(s.roots, s.generation, |s.entries|, EncodeEntries(a) + body);
    assert s.entries == a + [e] + s.entries[i + 1..];
    TotalOfNext(a, e, s.entries[i + 1..]);
    assert [] + a == a;
    GetPutEntries(a, body, |s.entries|, []);
    assert WellFormedEntry(e) && WellFormedEntry(Entry(e.name, payload));
    GetPutEntry(e.name, payload, crc, after, TotalBytes(a));
  }

  /** A change of an accepted file that stays inside one payload and inside four
      consecutive bytes is always noticed. */
  lemma CorruptionDetected(file: Bytes, damaged: Bytes, i: nat, at: nat)
    requires Parse(file).Ok? && i < |Parse(file).value.entries|
    requires DifferOnlyInWindow(file, damaged, at) && file != damaged
    requires var s := Parse(file).value;
             var start := |BeforePayload(s, i)|;
             forall k | 0 <= k < |file| && !(start <= k < start + |s.entries[i].payload|) :: file[k] == damaged[k]
    ensures Parse(damaged) == Err(CrcMismatch(Parse(file).value.entries[i].name))
  {
    hide Parse, Encode, BeforePayload, WellFormed, Crc, EncodeEntries, Value;
    var s := Parse(file).value;
    EncodeParse(file);
    FileAroundPayload(s, i);
    var start, intact := |BeforePayload(s, i)|, s.entries[i].payload;
    var end := start + |intact|;
    var payload := damaged[start..end];
    assert file[start..end] == intact;
    assert damaged == BeforePayload(s, i) + payload + EncodeEntries(s.entries[i + 1..]);
    var window: nat := if at < start then 0 else at - start;
    WindowInside(file, damaged, start, end, at, window);
    WindowChangesCrc(Zero(), intact, payload, window);
    if PayloadCrc(payload) == PayloadCrc(intact) {
      ValueInjective(Crc(Zero(), payload), Crc(Zero(), intact));
      assert false;
    }
    ExchangedPayload(s, i, payload);
  }

  lemma WindowInside(p: Bytes, q: Bytes, start: nat, end: nat, at: nat, window: nat)
    requires DifferOnlyInWindow(p, q, at) && p != q && start <= end <= |p|
    requires forall k | 0 <= k < |p| && !(start <= k < end) :: p[k] == q[k]
    requires window == if at < start then 0 else at - start
    ensures DifferOnlyInWindow(p[start..end], q[start..end], window)
    ensures p[start..end] != q[start..end]
  {
    if p[start..end] == q[start..end] {
      forall k | 0 <= k < |p|
        ensures p[k] == q[k]
      {
        if start <= k < end {
          assert p[start..end][k - start] == q[start..end][k - start];
        }
      }
    }
  }
}
