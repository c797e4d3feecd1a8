/** The streaming code that reads and writes snapshot files, proved against
    `SnapshotFormat`.

    A file is a byte string that is read front to back.  Every read may come up
    short; a short read fails and the reader gives up, as the source does.
  */
module SnapshotTransport {

  import opened Results
  import opened Crc32
  import opened SnapshotFormat

  const COPY_BUFFER_BYTES := 1024 * 1024

  class InStream {
    const data: Bytes
    var position: nat

    constructor (data: Bytes)
      ensures this.data == data && position == 0
      ensures Valid() && Remaining() == data
    {
      this.data := data;
      position := 0;
    }

    ghost predicate Valid()
      reads this
    {
      position <= |data|
    }

    function Remaining(): Bytes
      requires Valid()
      reads this
    {
      data[position..]
    }

    /** Reads exactly `n` bytes, or fails. */
    method Read(n: nat) returns (r: Option<Bytes>)
      requires Valid()
      modifies this
      ensures Valid()
      ensures r.Some? <==> n <= |old(Remaining())|
      ensures r.Some? ==> r.value == old(Remaining())[..n] && Remaining() == old(Remaining())[n..]
    {
      if n <= |data| - position {
        r := Some(data[position..position + n]);
        position := position + n;
      } else {
        r := None;
        position := |data|;
      }
    }

    method AtEnd() returns (end: bool)
      requires Valid()
      ensures end <==> Remaining() == []
    {
      end := position == |data|;
    }
  }

  // ----- Fields -----

  /** The bitwise or of two numbers. */
  function BitOr(a: nat, b: nat): nat {
    if a == 0 then b
    else (if a % 2 == 1 || b % 2 == 1 then 1 else 0) + 2 * BitOr(a / 2, b / 2)
  }

  /** A value below a shifted one shares no bit with it, and then or is addition. */
  lemma {:induction false} OrOfShifted(x: nat, y: nat, k: nat)
    requires x < Pow2(k)
    ensures BitOr(x, y * Pow2(k)) == x + y * Pow2(k)
    decreases k
  {
    if k > 0 {
      var half := y * Pow2(k - 1);
      assert y * Pow2(k) == 2 * half by {
        DoubleProduct(y, Pow2(k - 1));
      }
      OrOfShifted(x / 2, y, k - 1);
    }
  }

  lemma DoubleProduct(y: nat, p: nat)
    ensures y * (2 * p) == 2 * (y * p)
  {
  }

  lemma {:induction false} Pow256IsShift(i: nat)
    ensures Pow256(i) == Pow2(8 * i)
  {
    if i > 0 {
      Pow256IsShift(i - 1);
      assert Pow2(8 * i) == 2 * Pow2(8 * i - 1) == 4 * Pow2(8 * i - 2) == 8 * Pow2(8 * i - 3) == 16 * Pow2(8 * i - 4);
      assert Pow2(8 * i - 4) == 2 * Pow2(8 * i - 5) == 4 * Pow2(8 * i - 6) == 8 * Pow2(8 * i - 7) == 16 * Pow2(8 * i - 8);
    }
  }

  /** The loop that assembles a little-endian integer: each byte is shifted to its place
      and or-ed into the value. */
  method AssembleInteger(b: Bytes) returns (value: nat)
    ensures value == FromLittleEndian(b)
  {
    hide Pow256, FromLittleEndian, Pow2, BitOr;
    value := 0;
    AssembleNothing(b);
    for i := 0 to |b|
      invariant value < Pow2(8 * i)
      invariant value + Pow256(i) * FromLittleEndian(b[i..]) == FromLittleEndian(b)
    {
      AssembleStep(b, i);
      Pow256IsShift(i);
      OrOfShifted(value, b[i], 8 * i);
      ByteFits(value, b[i], i);
      value := BitOr(value, b[i] * Pow2(8 * i));
    }
    AssembleNothing(b);
  }

  lemma ByteFits(value: nat, b: Byte, i: nat)
    requires value < Pow2(8 * i)
    ensures value + b * Pow2(8 * i) < Pow2(8 * (i + 1))
  {
    hide Pow2, Pow256;
    Pow256IsShift(i);
    Pow256IsShift(i + 1);
    assert Pow256(i + 1) == 256 * Pow256(i) by {
      NextPow256(i);
    }
    SmallMultiple(b, Pow256(i));
  }

  lemma NextPow256(i: nat)
    ensures Pow256(i + 1) == 256 * Pow256(i)
  {
  }

  lemma SmallMultiple(b: Byte, p: nat)
    ensures b * p <= 255 * p
  {
  }

  lemma AssembleNothing(b: Bytes)
    ensures Pow256(0) * FromLittleEndian(b[0..]) == FromLittleEndian(b) && Pow2(0) == 1
    ensures FromLittleEndian(b[|b|..]) == 0
  {
    assert b[0..] == b;
  }

  lemma AssembleStep(b: Bytes, i: nat)
    requires i < |b|
    ensures Pow256(i) * FromLittleEndian(b[i..]) == b[i] * Pow256(i) + Pow256(i + 1) * FromLittleEndian(b[i + 1..])
  {
    assert b[i..][1..] == b[i + 1..];
    Distribute(Pow256(i), b[i], FromLittleEndian(b[i + 1..]));
  }

  lemma Distribute(p: nat, x: nat, rest: nat)
    ensures p * (x + 256 * rest) == x * p + (256 * p) * rest
  {
  }

  method ReadInteger(input: InStream, n: nat) returns (r: Option<nat>)
    requires input.Valid()
    modifies input
    ensures input.Valid()
    ensures var spec := GetInteger(old(input.Remaining()), n);
            && (r.Some? <==> spec.Some?)
            && (r.Some? ==> spec.value == (r.value, input.Remaining()))
  {
    var bytes := input.Read(n);
    if bytes.None? {
      return None;
    }
    var value := AssembleInteger(bytes.value);
    r := Some(value);
  }

  method ReadString(input: InStream) returns (r: Option<Bytes>)
    requires input.Valid()
    modifies input
    ensures input.Valid()
    ensures var spec := GetString(old(input.Remaining()));
            && (r.Some? <==> spec.Some?)
            && (r.Some? ==> spec.value == (r.value, input.Remaining()))
  {
    var size := ReadInteger(input, 4);
    if size.None? || size.value > MAX_STRING_BYTES {
      return None;
    }
    r := input.Read(size.value);
  }

  method ReadCounters(input: InStream) returns (r: Option<(nat, nat, nat)>)
    requires input.Valid()
    modifies input
    ensures input.Valid()
    ensures var spec := GetCounters(old(input.Remaining()));
            && (r.Some? <==> spec.Some?)
            && (r.Some? ==> spec.value == (r.value.0, r.value.1, r.value.2, input.Remaining()))
  {
    hide GetInteger;
    var rootCount := ReadInteger(input, 4);
    if rootCount.None? || rootCount.value > MAX_ROOTS {
      return None;
    }
    var generation := ReadInteger(input, 8);
    if generation.None? {
      return None;
    }
    var entryCount := ReadInteger(input, 4);
    if entryCount.None? || entryCount.value > MAX_ENTRIES {
      return None;
    }
    r := Some((rootCount.value, generation.value, entryCount.value));
  }

  method ReadRoots(input: InStream, n: nat) returns (r: Option<seq<Bytes>>)
    requires input.Valid()
    modifies input
    ensures input.Valid()
    ensures var spec := GetRoots(old(input.Remaining()), n, []);
            && (r.Some? <==> spec.Some?)
            && (r.Some? ==> spec.value == (r.value, input.Remaining()))
  {
    hide GetString;
    var roots: seq<Bytes> := [];
    for i := 0 to n
      invariant input.Valid()
      invariant GetRoots(old(input.Remaining()), n, []) == GetRoots(input.Remaining(), n - i, roots)
    {
      var root := ReadString(input);
      if root.None? || root.value == [] {
        return None;
      }
      roots := roots + [root.value];
    }
    r := Some(roots);
  }

  method ReadHeader(input: InStream) returns (r: Result<Header, Reject>)
    requires input.Valid()
    modifies input
    ensures input.Valid()
    ensures match GetHeader(old(input.Remaining()))
            case Ok((header, rest)) => r == Ok(header) && input.Remaining() == rest
            case Err(e) => r == Err(e)
  {
    hide GetInteger, GetCounters, GetRoots;
    var magic := input.Read(8);
    if magic.None? || magic.value != MAGIC {
      return Err(NotASnapshot);
    }
    var version := ReadInteger(input, 4);
    if version.None? || version.value != FORMAT_VERSION {
      return Err(UnsupportedFormat);
    }
    var counters := ReadCounters(input);
    if counters.None? {
      return Err(CorruptHeader);
    }
    var roots := ReadRoots(input, counters.value.0);
    if roots.None? {
      return Err(CorruptRootTable);
    }
    r := Ok(Header(roots.value, counters.value.1, counters.value.2));
  }

  method ReadEntryHeader(input: InStream) returns (r: Option<EntryFields>)
    requires input.Valid()
    modifies input
    ensures input.Valid()
    ensures var spec := GetEntryHeader(old(input.Remaining()));
            && (r.Some? <==> spec.Some?)
            && (r.Some? ==> spec.value == (r.value, input.Remaining()))
  {
    hide GetString, GetInteger;
    var name := ReadString(input);
    if name.None? {
      return None;
    }
    var size := ReadInteger(input, 8);
    if size.None? {
      return None;
    }
    var crc := ReadInteger(input, 4);
    if crc.None? {
      return None;
    }
    r := Some(EntryFields(name.value, size.value, crc.value));
  }

  // ----- Payloads -----

  lemma ChunkExtends(whole: Bytes, n: nat, chunk: nat)
    requires n + chunk <= |whole|
    ensures whole[..n] + whole[n..][..chunk] == whole[..n + chunk]
    ensures whole[n..][chunk..] == whole[n + chunk..]
    ensures Crc(Crc(Zero(), whole[..n]), whole[n..][..chunk]) == Crc(Zero(), whole[..n + chunk])
  {
    hide Crc;
    CrcConcat(Zero(), whole[..n], whole[n..][..chunk]);
  }

  /** Checks one payload chunk by chunk.  The size of the buffer does not matter. */
  method CheckPayload(input: InStream, size: nat, bufferBytes: nat) returns (r: Option<Word>)
    requires input.Valid() && bufferBytes > 0
    modifies input
    ensures input.Valid()
    ensures r.Some? <==> size <= |old(input.Remaining())|
    ensures r.Some? ==> r.value == Crc(Zero(), old(input.Remaining())[..size])
                        && input.Remaining() == old(input.Remaining())[size..]
  {
    hide Crc;
    ghost var whole := input.Remaining();
    var remaining := size;
    var crc := Zero();
    CrcOfNothing();
    while remaining != 0
      invariant input.Valid() && 0 <= remaining <= size && size - remaining <= |whole|
      invariant input.Remaining() == whole[size - remaining..]
      invariant crc == Crc(Zero(), whole[..size - remaining])
    {
      var want := if remaining < bufferBytes then remaining else bufferBytes;
      var chunk := input.Read(want);
      if chunk.None? {
        return None;
      }
      ChunkExtends(whole, size - remaining, want);
      crc := Crc32Update(crc, chunk.value);
      remaining := remaining - want;
    }
    r := Some(crc);
  }

  lemma CrcOfNothing()
    ensures Crc(Zero(), []) == Zero()
  {
    NotIsInjective(Zero(), Zero());
  }

  // ----- Inspect -----

  datatype Info = Info(roots: seq<Bytes>, generation: nat, fileCount: nat, payloadBytes: nat)

  function InfoOf(s: Snapshot): Info {
    Info(s.roots, s.generation, |s.entries|, TotalBytes(s.entries))
  }

  lemma TotalStep(entries: seq<Entry>, e: Entry)
    ensures TotalBytes(entries + [e]) == TotalBytes(entries) + |e.payload|
  {
    assert (entries + [e])[..|entries|] == entries;
  }

  /** Reads one entry behind entries of `total` payload bytes, and gives its size. */
  method InspectEntry(input: InStream, total: nat, bufferBytes: nat) returns (r: Result<nat, Reject>)
    requires input.Valid() && bufferBytes > 0
    modifies input
    ensures input.Valid()
    ensures var spec := GetEntry(old(input.Remaining()), total);
            && (spec.Ok? ==> r == Ok(|spec.value.0.payload|) && input.Remaining() == spec.value.1)
            && (spec.Err? ==> r == Err(spec.error))
  {
    hide GetEntryHeader, ValidRelativePath, Crc;
    var fields := ReadEntryHeader(input);
    if fields.None? {
      return Err(TruncatedEntryHeader);
    }
    var f := fields.value;
    if !ValidRelativePath(f.name) {
      return Err(UnsafePath(f.name));
    }
    var crc := CheckPayload(input, f.size, bufferBytes);
    if crc.None? {
      return Err(TruncatedPayload);
    }
    if Value(crc.value) != f.crc {
      return Err(CrcMismatch(f.name));
    }
    if TWO_64 - 1 - total < f.size {
      return Err(SizeOverflow);
    }
    r := Ok(f.size);
  }

  /** Reads a file to its end and reports what it holds. */
  method Inspect(file: Bytes, bufferBytes: nat) returns (r: Result<Info, Reject>)
    requires bufferBytes > 0
    ensures match Parse(file)
            case Ok(s) => r == Ok(InfoOf(s))
            case Err(e) => r == Err(e)
  {
    hide GetHeader, GetEntry, GetEntries, TotalBytes;
    var input := new InStream(file);
    var header := ReadHeader(input);
    if header.Err? {
      return Err(header.error);
    }
    var count := header.value.entryCount;
    ghost var body := input.Remaining();
    ghost var entries: seq<Entry> := [];
    var total := 0;
    NothingIsZeroBytes();
    for i := 0 to count
      invariant fresh(input) && input.Valid()
      invariant total == TotalBytes(entries) && |entries| == i
      invariant GetEntries(body, count, []) == GetEntries(input.Remaining(), count - i, entries)
    {
      ghost var rest := input.Remaining();
      GetEntriesNext(rest, count - i, entries);
      var size := InspectEntry(input, total, bufferBytes);
      if size.Err? {
        return Err(size.error);
      }
      total := total + size.value;
      ghost var e := GetEntry(rest, TotalBytes(entries)).value.0;
      TotalStep(entries, e);
      entries := entries + [e];
    }
    GetEntriesEnd(input.Remaining(), entries);
    var end := input.AtEnd();
    if !end {
      return Err(TrailingBytes);
    }
    GetEntriesCount(body, count, []);
    r := Ok(Info(header.value.roots, header.value.generation, count, total));
  }

  lemma GetEntriesNext(rest: Bytes, n: nat, before: seq<Entry>)
    requires n > 0
    ensures var entry := GetEntry(rest, TotalBytes(before));
            GetEntries(rest, n, before)
            == if entry.Err? then Err(entry.error) else GetEntries(entry.value.1, n - 1, before + [entry.value.0])
  {
    hide GetEntry, TotalBytes;
  }

  lemma GetEntriesEnd(rest: Bytes, before: seq<Entry>)
    ensures GetEntries(rest, 0, before) == if rest == [] then Ok(before) else Err(TrailingBytes)
  {
  }

  lemma NothingIsZeroBytes()
    ensures TotalBytes([]) == 0
  {
  }

  lemma {:induction false} GetEntriesCount(rest: Bytes, n: nat, before: seq<Entry>)
    ensures GetEntries(rest, n, before).Ok? ==> |GetEntries(rest, n, before).value| == |before| + n
    decreases n
  {
    hide GetEntry;
    if n > 0 {
      var entry := GetEntry(rest, TotalBytes(before));
      if entry.Ok? {
        GetEntriesCount(entry.value.1, n - 1, before + [entry.value.0]);
      }
    }
  }
}
