/** Writer and reader together: what the one writes, the other reads back. The lemmas hold of any sound
    format; the theorems at the end speak of the ZIP format itself. */
module ZipRoundTrip {
  import opened Text
  import opened Crc
  import opened ZipFormat
  import opened ZipWriter
  import R = ZipReader

  // ----- Slices -------------------------------------------------------------------------------------

  /** A part of a buffer, and where it stands. */
  predicate StandsAt(b: Bytes, at: nat, part: Bytes) {
    at + |part| <= |b| && b[at..at + |part|] == part
  }

  lemma StandsInFront(a: Bytes, more: Bytes, at: nat, part: Bytes)
    requires StandsAt(a, at, part)
    ensures StandsAt(a + more, at, part)
  {
    assert (a + more)[at..at + |part|] == a[at..at + |part|];
  }

  lemma StandsBehind(front: Bytes, a: Bytes, at: nat, part: Bytes)
    requires StandsAt(a, at, part)
    ensures StandsAt(front + a, |front| + at, part)
  {
    assert (front + a)[|front| + at..|front| + at + |part|] == a[at..at + |part|];
  }

  lemma StandsBetween(front: Bytes, a: Bytes, back: Bytes, at: nat, part: Bytes)
    requires StandsAt(a, at, part)
    ensures StandsAt(front + a + back, |front| + at, part)
  {
    StandsBehind(front, a, at, part);
    StandsInFront(front + a, back, |front| + at, part);
  }

  /** The two halves of a part stand one behind the other. */
  lemma StandsSplit(b: Bytes, at: nat, first: Bytes, second: Bytes)
    requires StandsAt(b, at, first + second)
    ensures StandsAt(b, at, first) && StandsAt(b, at + |first|, second)
  {
    var both := b[at..at + |first + second|];
    assert both[..|first|] == first && both[|first|..] == second;
    assert b[at..at + |first|] == both[..|first|];
    assert b[at + |first|..at + |first| + |second|] == both[|first|..];
  }

  // ----- Where each record stands -------------------------------------------------------------------

  lemma {:induction false} LocalRecordStands(f: Format, entries: seq<Entry>, i: nat)
    requires i < |entries|
    ensures StandsAt(Locals(f, entries), |Locals(f, entries[..i])|, LocalRecord(f, entries[i]))
  {
    var front, last := entries[..|entries| - 1], entries[|entries| - 1];
    if i < |front| {
      assert front[..i] == entries[..i];
      LocalRecordStands(f, front, i);
      StandsInFront(Locals(f, front), LocalRecord(f, last), |Locals(f, entries[..i])|, LocalRecord(f, entries[i]));
    }
  }

  lemma {:induction false} CentralRecordStands(f: Format, entries: seq<Entry>, i: nat)
    requires i < |entries|
    ensures StandsAt(Directory(f, entries), |Directory(f, entries[..i])|,
                     CentralRecord(f, entries[i], |Locals(f, entries[..i])|))
  {
    var front, last := entries[..|entries| - 1], entries[|entries| - 1];
    if i < |front| {
      assert front[..i] == entries[..i];
      CentralRecordStands(f, front, i);
      StandsInFront(Directory(f, front), CentralRecord(f, last, |Locals(f, front)|),
        |Directory(f, entries[..i])|, CentralRecord(f, entries[i], |Locals(f, entries[..i])|));
    }
  }

  /** An entry's fields and its offset fit. */
  lemma EntryFits(f: Format, entries: seq<Entry>, i: nat)
    requires EntriesFit(f, entries) && i < |entries|
    ensures MetaFits(MetaOf(f, entries[i])) && |Locals(f, entries[..i])| < LIMIT32
  {
    PrefixFits(f, entries, i + 1);
    assert entries[..i + 1][..i] == entries[..i];
  }

  // ----- The end record -----------------------------------------------------------------------------

  /** The reader's first probe finds the end record and reads its fields. */
  lemma EndReads(front: Bytes, end: Bytes, n: nat, length: nat, offset: nat)
    requires SaysEnd(end, n, length, offset)
    ensures R.EndOf(front + end) == Some(R.EndFields(0, n, offset))
  {
    var b := front + end;
    assert b[|front|..|front| + 22] == end;
    ReadsInside(b, |front|, end, 0);
    ReadsInside(b, |front|, end, 4);
    ReadsInside(b, |front|, end, 10);
    ReadsInside(b, |front|, end, 16);
  }

  lemma EndIsFound(f: Format, entries: seq<Entry>)
    requires Sound(f) && Fits(f, entries)
    ensures R.EndOf(Archive(f, entries)) == Some(R.EndFields(0, |entries|, |Locals(f, entries)|))
  {
    var locals, directory := Locals(f, entries), Directory(f, entries);
    assert EndSays(f, |entries|, |directory|, |locals|);
    EndReads(locals + directory, f.end(|entries|, |directory|, |locals|), |entries|, |directory|, |locals|);
  }

  // ----- The directory ------------------------------------------------------------------------------

  function RecordOf(f: Format, entries: seq<Entry>, i: nat): R.Record
    requires i < |entries|
  {
    R.Record(entries[i].name, METHOD_DEFLATED, |f.deflate(entries[i].content)|, |entries[i].content|,
             |Locals(f, entries[..i])|)
  }

  function RecordsOf(f: Format, entries: seq<Entry>): (r: seq<R.Record>)
    ensures |r| == |entries|
  {
    seq(|entries|, i requires 0 <= i < |entries| => RecordOf(f, entries, i))
  }

  /** Where each central record starts, and where the last one ends. */
  function CursorsOf(f: Format, base: nat, entries: seq<Entry>): (r: seq<nat>)
    ensures |r| == |entries| + 1
  {
    seq(|entries| + 1, i requires 0 <= i <= |entries| => base + |Directory(f, entries[..i])|)
  }

  /** The central records of the entries stand one after another from `base` on. */
  predicate DirectoryStands(f: Format, b: Bytes, base: nat, entries: seq<Entry>) {
    forall i :: 0 <= i < |entries| ==> CentralStands(f, b, base, entries, i)
  }

  predicate CentralStands(f: Format, b: Bytes, base: nat, entries: seq<Entry>, i: nat)
    requires i < |entries|
  {
    StandsAt(b, base + |Directory(f, entries[..i])|, CentralRecord(f, entries[i], |Locals(f, entries[..i])|))
  }

  lemma HeaderReadsBack(b: Bytes, cursor: nat, header: Bytes, m: Meta, offset: nat, name: Bytes)
    requires SaysCentral(header, m, offset) && m.nameLength == |name|
    requires StandsAt(b, cursor, header) && StandsAt(b, cursor + 46, name)
    ensures R.HasCentralHeader(b, cursor)
    ensures R.RecordAt(b, cursor) == R.Record(name, METHOD_DEFLATED, m.compressedSize, m.size, offset)
    ensures R.NextRecord(b, cursor) == cursor + 46 + |name|
  {
    ReadsInside(b, cursor, header, 0);
    ReadsInside(b, cursor, header, 10);
    ReadsInside(b, cursor, header, 20);
    ReadsInside(b, cursor, header, 24);
    ReadsInside(b, cursor, header, 28);
    ReadsInside(b, cursor, header, 30);
    ReadsInside(b, cursor, header, 32);
    ReadsInside(b, cursor, header, 42);
  }

  lemma DirectoryStandsInArchive(f: Format, entries: seq<Entry>)
    ensures DirectoryStands(f, Archive(f, entries), |Locals(f, entries)|, entries)
  {
    forall i | 0 <= i < |entries|
      ensures CentralStands(f, Archive(f, entries), |Locals(f, entries)|, entries, i)
    {
      CentralStandsInArchive(f, entries, i);
    }
  }

  lemma CentralStandsInArchive(f: Format, entries: seq<Entry>, i: nat)
    requires i < |entries|
    ensures CentralStands(f, Archive(f, entries), |Locals(f, entries)|, entries, i)
  {
    CentralRecordStands(f, entries, i);
    var locals, directory := Locals(f, entries), Directory(f, entries);
    StandsBetween(locals, directory, f.end(|entries|, |directory|, |locals|), |Directory(f, entries[..i])|,
                  CentralRecord(f, entries[i], |Locals(f, entries[..i])|));
  }

  lemma NextCentral(f: Format, entries: seq<Entry>, i: nat)
    requires Sound(f) && i < |entries|
    ensures |Directory(f, entries[..i + 1])| == |Directory(f, entries[..i])| + 46 + |entries[i].name|
  {
    assert entries[..i + 1][..i] == entries[..i];
    assert CentralSays(f, MetaOf(f, entries[i]), |Locals(f, entries[..i])|);
  }

  /** Where a central record stands, its entry is read back, and the cursor moves past it. */
  lemma CentralRecordReads(f: Format, b: Bytes, cursor: nat, e: Entry, offset: nat)
    requires Sound(f) && MetaFits(MetaOf(f, e)) && offset < LIMIT32
    requires StandsAt(b, cursor, CentralRecord(f, e, offset))
    ensures R.RecordReader(b)(cursor)
         == Some((R.Record(e.name, METHOD_DEFLATED, |f.deflate(e.content)|, |e.content|, offset),
                  cursor + 46 + |e.name|))
  {
    var header := f.central(MetaOf(f, e), offset);
    assert CentralSays(f, MetaOf(f, e), offset);
    StandsSplit(b, cursor, header, e.name);
    HeaderReadsBack(b, cursor, header, MetaOf(f, e), offset, e.name);
  }

  /** Each record is read at its cursor and leads to the next cursor. */
  ghost predicate Yields(read: nat -> Option<(R.Record, nat)>, cursors: seq<nat>, records: seq<R.Record>)
    requires |cursors| == |records| + 1
  {
    forall k, next :: 0 <= k < next <= |records| && next == k + 1 ==> read(cursors[k]) == Some((records[k], cursors[next]))
  }

  /** Reading on from cursor to cursor collects the records. */
  lemma {:induction false} ChainReadsBack(read: nat -> Option<(R.Record, nat)>, cursors: seq<nat>, records: seq<R.Record>, i: nat)
    requires |cursors| == |records| + 1 && i <= |records| && Yields(read, cursors, records)
    ensures R.RecordsFrom(read, cursors[i], |records| - i) == R.Ok(records[i..])
    decreases |records| - i
  {
    if i < |records| {
      assert read(cursors[i]) == Some((records[i], cursors[i + 1]));
      ChainReadsBack(read, cursors, records, i + 1);
      assert records[i..] == [records[i]] + records[i + 1..];
    } else {
      assert records[i..] == [];
    }
  }

  /** The i-th record is read where the first i end, and ends where the next starts. */
  predicate ReadInTurn(f: Format, read: nat -> Option<(R.Record, nat)>, base: nat, entries: seq<Entry>, i: nat)
    requires i < |entries|
  {
    read(base + |Directory(f, entries[..i])|)
    == Some((RecordOf(f, entries, i), base + |Directory(f, entries[..i + 1])|))
  }

  lemma RecordReadsBack(f: Format, b: Bytes, base: nat, entries: seq<Entry>, i: nat)
    requires Sound(f) && EntriesFit(f, entries) && i < |entries| && CentralStands(f, b, base, entries, i)
    ensures ReadInTurn(f, R.RecordReader(b), base, entries, i)
  {
    var cursor, next := base + |Directory(f, entries[..i])|, base + |Directory(f, entries[..i + 1])|;
    EntryFits(f, entries, i);
    NextCentral(f, entries, i);
    RecordIsReadThere(f, b, cursor, next, entries[i], RecordOf(f, entries, i));
    InTurn(f, R.RecordReader(b), base, entries, i, cursor, next, RecordOf(f, entries, i));
  }

  predicate IsReadAt(read: nat -> Option<(R.Record, nat)>, cursor: nat, next: nat, r: R.Record) {
    read(cursor) == Some((r, next))
  }

  lemma RecordIsReadThere(f: Format, b: Bytes, cursor: nat, next: nat, e: Entry, r: R.Record)
    requires Sound(f) && MetaFits(MetaOf(f, e)) && r.localOffset < LIMIT32 && next == cursor + 46 + |e.name|
    requires r == R.Record(e.name, METHOD_DEFLATED, |f.deflate(e.content)|, |e.content|, r.localOffset)
    requires StandsAt(b, cursor, CentralRecord(f, e, r.localOffset))
    ensures IsReadAt(R.RecordReader(b), cursor, next, r)
  {
    CentralRecordReads(f, b, cursor, e, r.localOffset);
  }

  lemma InTurn(
    f: Format, read: nat -> Option<(R.Record, nat)>, base: nat, entries: seq<Entry>, i: nat, cursor: nat, next: nat,
    r: R.Record)
    requires i < |entries| && r == RecordOf(f, entries, i) && IsReadAt(read, cursor, next, r)
    requires cursor == base + |Directory(f, entries[..i])| && next == base + |Directory(f, entries[..i + 1])|
    ensures ReadInTurn(f, read, base, entries, i)
  {
  }

  lemma TurnsYieldRecords(f: Format, read: nat -> Option<(R.Record, nat)>, base: nat, entries: seq<Entry>)
    requires forall i :: 0 <= i < |entries| ==> ReadInTurn(f, read, base, entries, i)
    ensures R.RecordsFrom(read, base, |entries|) == R.Ok(RecordsOf(f, entries))
  {
    var cursors, records := CursorsOf(f, base, entries), RecordsOf(f, entries);
    forall k, next | 0 <= k < next <= |records| && next == k + 1
      ensures read(cursors[k]) == Some((records[k], cursors[next]))
    {
      assert ReadInTurn(f, read, base, entries, k);
    }
    ChainReadsBack(read, cursors, records, 0);
    assert entries[..0] == [] && records[0..] == records;
  }

  lemma RecordsReadBack(f: Format, b: Bytes, base: nat, entries: seq<Entry>)
    requires Sound(f) && EntriesFit(f, entries) && DirectoryStands(f, b, base, entries)
    ensures R.RecordsFrom(R.RecordReader(b), base, |entries|) == R.Ok(RecordsOf(f, entries))
  {
    forall i | 0 <= i < |entries|
      ensures ReadInTurn(f, R.RecordReader(b), base, entries, i)
    {
      RecordReadsBack(f, b, base, entries, i);
    }
    TurnsYieldRecords(f, R.RecordReader(b), base, entries);
  }

  /** The archives the reader takes: no more entries than it allows, and none of the values it reads as a
      sign of ZIP64. */
  predicate Readable(f: Format, entries: seq<Entry>, limits: R.Limits) {
    |entries| <= limits.maxEntries && |entries| != 0xffff && |Locals(f, entries)| != 0xffff_ffff
  }

  lemma DirectoryOnceFound(b: Bytes, n: nat, offset: nat, records: seq<R.Record>, limits: R.Limits)
    requires R.EndOf(b) == Some(R.EndFields(0, n, offset))
    requires R.RecordsFrom(R.RecordReader(b), offset, n) == R.Ok(records)
    ensures R.CentralDirectory(b, limits).Ok? <==> n <= limits.maxEntries && n != 0xffff && offset != 0xffff_ffff
    ensures R.CentralDirectory(b, limits).Ok? ==> R.CentralDirectory(b, limits) == R.Ok(records)
  {
  }

  lemma DirectoryReadsBack(f: Format, entries: seq<Entry>, limits: R.Limits)
    requires Sound(f) && Fits(f, entries)
    ensures R.CentralDirectory(Archive(f, entries), limits).Ok? <==> Readable(f, entries, limits)
    ensures Readable(f, entries, limits) ==>
              R.CentralDirectory(Archive(f, entries), limits) == R.Ok(RecordsOf(f, entries))
  {
    EndIsFound(f, entries);
    DirectoryStandsInArchive(f, entries);
    RecordsReadBack(f, Archive(f, entries), |Locals(f, entries)|, entries);
    DirectoryOnceFound(Archive(f, entries), |entries|, |Locals(f, entries)|, RecordsOf(f, entries), limits);
  }

  // ----- The contents -------------------------------------------------------------------------------

  /** Inflating undoes deflating on the contents archived. */
  ghost predicate Inverts(inflate: R.Inflate, f: Format, entries: seq<Entry>) {
    forall i :: 0 <= i < |entries| ==> inflate(f.deflate(entries[i].content)) == Some(entries[i].content)
  }

  /** An entry stands complete at an offset: a local header with its own name length, sizes and CRC,
      then its name, then its compressed bytes. */
  predicate EntryStands(f: Format, b: Bytes, at: nat, e: Entry) {
    && at + 30 <= |b|
    && ReadUInt32LE(b, at) == LOCAL_SIGNATURE
    && ReadUInt32LE(b, at + 14) == f.crc(e.content)
    && ReadUInt32LE(b, at + 18) == |f.deflate(e.content)| && ReadUInt32LE(b, at + 22) == |e.content|
    && ReadUInt16LE(b, at + 26) == |e.name| && ReadUInt16LE(b, at + 28) == 0
    && StandsAt(b, at + 30, e.name)
    && StandsAt(b, at + 30 + |e.name|, f.deflate(e.content))
  }

  lemma LocalHeaderReads(b: Bytes, at: nat, header: Bytes, m: Meta)
    requires StandsAt(b, at, header) && SaysLocal(header, m)
    ensures ReadUInt32LE(b, at) == LOCAL_SIGNATURE
    ensures ReadUInt32LE(b, at + 14) == m.crc && ReadUInt32LE(b, at + 18) == m.compressedSize
    ensures ReadUInt32LE(b, at + 22) == m.size && ReadUInt16LE(b, at + 26) == m.nameLength
    ensures ReadUInt16LE(b, at + 28) == 0
  {
    ReadsInside(b, at, header, 0);
    ReadsInside(b, at, header, 14);
    ReadsInside(b, at, header, 18);
    ReadsInside(b, at, header, 22);
    ReadsInside(b, at, header, 26);
    ReadsInside(b, at, header, 28);
  }

  lemma LocalStandsInArchive(f: Format, entries: seq<Entry>, i: nat)
    requires i < |entries|
    ensures StandsAt(Archive(f, entries), |Locals(f, entries[..i])|, LocalRecord(f, entries[i]))
  {
    LocalRecordStands(f, entries, i);
    var at, record := |Locals(f, entries[..i])|, LocalRecord(f, entries[i]);
    StandsInFront(Locals(f, entries), Directory(f, entries), at, record);
    StandsInFront(Locals(f, entries) + Directory(f, entries),
      f.end(|entries|, |Directory(f, entries)|, |Locals(f, entries)|), at, record);
  }

  lemma RecordHoldsEntry(f: Format, b: Bytes, at: nat, e: Entry)
    requires Sound(f) && MetaFits(MetaOf(f, e)) && StandsAt(b, at, LocalRecord(f, e))
    ensures EntryStands(f, b, at, e)
  {
    var header := f.local(MetaOf(f, e));
    assert LocalSays(f, MetaOf(f, e));
    StandsSplit(b, at, header + e.name, f.deflate(e.content));
    StandsSplit(b, at, header, e.name);
    LocalHeaderReads(b, at, header, MetaOf(f, e));
  }

  lemma EntryStandsInArchive(f: Format, entries: seq<Entry>, i: nat)
    requires Sound(f) && EntriesFit(f, entries) && i < |entries|
    ensures EntryStands(f, Archive(f, entries), |Locals(f, entries[..i])|, entries[i])
  {
    EntryFits(f, entries, i);
    LocalStandsInArchive(f, entries, i);
    RecordHoldsEntry(f, Archive(f, entries), |Locals(f, entries[..i])|, entries[i]);
  }

  /** The entry's sizes, whole and compressed, are within the limits. */
  predicate EntryAllowed(f: Format, e: Entry, limits: R.Limits) {
    R.SizesAllowed(|e.content|, |f.deflate(e.content)|, limits)
  }

  /** What a read of an entry has to answer: its content, or the refusal its sizes call for. */
  function Expected(f: Format, e: Entry, limits: R.Limits): R.Read<Bytes> {
    if EntryAllowed(f, e, limits) then R.Ok(e.content)
    else R.Failed(if |e.content| > limits.maxEntryBytes then R.TooLarge else R.ExpandsTooFar)
  }

  lemma InflateWhereItStands(inflate: R.Inflate, f: Format, b: Bytes, e: Entry, r: R.Record, limits: R.Limits)
    requires EntryStands(f, b, r.localOffset, e)
    requires r.method_ == METHOD_DEFLATED && r.compressedSize == |f.deflate(e.content)| && r.size == |e.content|
    requires inflate(f.deflate(e.content)) == Some(e.content)
    ensures R.InflateEntry(inflate, b, r, limits) == Expected(f, e, limits)
  {
    R.RefusedExactlyWhen(r, limits);
    if R.RefuseBomb(r, limits).None? {
      ContentWhereItStands(inflate, f, b, e, r, limits.maxEntryBytes);
    }
  }

  lemma ContentWhereItStands(inflate: R.Inflate, f: Format, b: Bytes, e: Entry, r: R.Record, maxEntryBytes: nat)
    requires EntryStands(f, b, r.localOffset, e) && r.size <= maxEntryBytes
    requires r.method_ == METHOD_DEFLATED && r.compressedSize == |f.deflate(e.content)| && r.size == |e.content|
    requires inflate(f.deflate(e.content)) == Some(e.content)
    ensures R.ContentOf(inflate, b, r, maxEntryBytes) == R.Ok(e.content)
  {
  }

  /** Each entry's content comes back exactly, unless the expansion limits refuse it. */
  lemma EntryReadsBack(inflate: R.Inflate, f: Format, entries: seq<Entry>, i: nat, limits: R.Limits)
    requires Sound(f) && EntriesFit(f, entries) && i < |entries| && Inverts(inflate, f, entries)
    ensures R.InflateEntry(inflate, Archive(f, entries), RecordOf(f, entries, i), limits)
         == Expected(f, entries[i], limits)
  {
    EntryStandsInArchive(f, entries, i);
    InflateWhereItStands(inflate, f, Archive(f, entries), entries[i], RecordOf(f, entries, i), limits);
  }

  /** No wanted entry breaks the expansion limits. */
  predicate WithinLimits(f: Format, entries: seq<Entry>, wanted: Bytes -> bool, limits: R.Limits) {
    forall i :: 0 <= i < |entries| && wanted(entries[i].name) ==> EntryAllowed(f, entries[i], limits)
  }

  /** The wanted files, in order. */
  function FilesOf(entries: seq<Entry>, wanted: Bytes -> bool): seq<R.File> {
    if entries == [] then []
    else if wanted(entries[0].name)
    then [R.File(entries[0].name, entries[0].content)] + FilesOf(entries[1..], wanted)
    else FilesOf(entries[1..], wanted)
  }

  /** A record that reads back as an entry, or not at all. */
  predicate ReadsAs(read: R.Record -> R.Read<Bytes>, r: R.Record, e: Entry) {
    r.name == e.name && (read(r).Ok? ==> read(r) == R.Ok(e.content))
  }

  /** Whatever is wanted can be read. */
  ghost predicate AllRead(read: R.Record -> R.Read<Bytes>, records: seq<R.Record>, wanted: Bytes -> bool) {
    forall k :: 0 <= k < |records| && wanted(records[k].name) ==> read(records[k]).Ok?
  }

  lemma {:induction false} AllReadBack(read: R.Record -> R.Read<Bytes>, records: seq<R.Record>, entries: seq<Entry>,
                                       wanted: Bytes -> bool)
    requires |records| == |entries|
    requires forall k :: 0 <= k < |records| ==> ReadsAs(read, records[k], entries[k])
    ensures R.InflateAll(read, records, wanted).Ok? <==> AllRead(read, records, wanted)
    ensures AllRead(read, records, wanted) ==> R.InflateAll(read, records, wanted) == R.Ok(FilesOf(entries, wanted))
  {
    if records != [] {
      assert ReadsAs(read, records[0], entries[0]);
      AllReadBack(read, records[1..], entries[1..], wanted);
      assert AllRead(read, records, wanted)
        <==> (wanted(records[0].name) ==> read(records[0]).Ok?) && AllRead(read, records[1..], wanted) by {
        assert forall k :: 1 <= k < |records| ==> records[k] == records[1..][k - 1];
      }
    }
  }

  lemma ContentsReadBack(inflate: R.Inflate, f: Format, entries: seq<Entry>, wanted: Bytes -> bool, limits: R.Limits)
    requires Sound(f) && EntriesFit(f, entries) && Inverts(inflate, f, entries)
    ensures var r := R.InflateAll(R.EntryReader(inflate, Archive(f, entries), limits), RecordsOf(f, entries), wanted);
            && (r.Ok? <==> WithinLimits(f, entries, wanted, limits))
            && (WithinLimits(f, entries, wanted, limits) ==> r == R.Ok(FilesOf(entries, wanted)))
  {
    var records := RecordsOf(f, entries);
    var read := R.EntryReader(inflate, Archive(f, entries), limits);
    forall k | 0 <= k < |records|
      ensures ReadsAs(read, records[k], entries[k])
      ensures read(records[k]).Ok? <==> EntryAllowed(f, entries[k], limits)
    {
      assert records[k] == RecordOf(f, entries, k);
      EntryReadsBack(inflate, f, entries, k, limits);
    }
    AllReadBack(read, records, entries, wanted);
  }

  lemma {:induction false} NoneOfThatName(records: seq<R.Record>, name: Bytes)
    requires forall k :: 0 <= k < |records| ==> records[k].name != name
    ensures R.FirstNamed(records, name) == None
  {
    if records != [] {
      NoneOfThatName(records[1..], name);
    }
  }

  lemma {:induction false} FirstOfThatName(records: seq<R.Record>, first: nat)
    requires first < |records|
    requires forall k :: 0 <= k < first ==> records[k].name != records[first].name
    ensures R.FirstNamed(records, records[first].name) == Some(records[first])
  {
    if first > 0 {
      assert records[1..][first - 1] == records[first];
      FirstOfThatName(records[1..], first - 1);
    }
  }

  // ----- The ZIP format -----------------------------------------------------------------------------

  /** The directory of a written archive is read exactly when the archive is within the reader's bounds,
      and then lists every entry in order with its sizes; and at each listed offset stands a local header
      with the same name, sizes and CRC. */
  lemma ZipDirectoryReadsBack(deflate: Bytes -> Bytes, entries: seq<Entry>, limits: R.Limits)
    requires Fits(Zip(deflate), entries)
    ensures R.CentralDirectory(Archive(Zip(deflate), entries), limits).Ok? <==> Readable(Zip(deflate), entries, limits)
    ensures Readable(Zip(deflate), entries, limits) ==>
              R.CentralDirectory(Archive(Zip(deflate), entries), limits) == R.Ok(RecordsOf(Zip(deflate), entries))
    ensures forall i :: 0 <= i < |entries| ==>
              EntryStands(Zip(deflate), Archive(Zip(deflate), entries),
                          RecordOf(Zip(deflate), entries, i).localOffset, entries[i])
  {
    ZipIsSound(deflate);
    DirectoryReadsBack(Zip(deflate), entries, limits);
    forall i | 0 <= i < |entries|
      ensures EntryStands(Zip(deflate), Archive(Zip(deflate), entries), RecordOf(Zip(deflate), entries, i).localOffset, entries[i])
    {
      EntryStandsInArchive(Zip(deflate), entries, i);
    }
  }

  /** An entry's local record in the archive: its checksum, its name and its compressed bytes. */
  predicate LocalLaidOut(b: Bytes, at: nat, name: Bytes, packed: Bytes, crc: nat) {
    && at + 30 <= |b| && Signed(b, at, 3, 4) && ReadUInt32LE(b, at + 14) == crc
    && StandsAt(b, at + 30, name) && StandsAt(b, at + 30 + |name|, packed)
  }

  /** And its central record, which says where the local one is. */
  predicate CentralLaidOut(b: Bytes, at: nat, name: Bytes, crc: nat, local: nat) {
    && at + 46 <= |b| && Signed(b, at, 1, 2) && ReadUInt32LE(b, at + 16) == crc
    && ReadUInt32LE(b, at + 42) == local && StandsAt(b, at + 46, name)
  }

  lemma CentralIsLaidOut(b: Bytes, at: nat, header: Bytes, name: Bytes, m: Meta, local: nat)
    requires SaysCentral(header, m, local) && StandsAt(b, at, header + name)
    ensures CentralLaidOut(b, at, name, m.crc, local)
  {
    StandsSplit(b, at, header, name);
    ReadsInside(b, at, header, 0);
    ReadsInside(b, at, header, 16);
    ReadsInside(b, at, header, 42);
    SignaturesAreBytes(b, at);
  }

  lemma LocalIsLaidOut(f: Format, b: Bytes, at: nat, e: Entry)
    requires EntryStands(f, b, at, e)
    ensures LocalLaidOut(b, at, e.name, f.deflate(e.content), f.crc(e.content))
  {
    SignaturesAreBytes(b, at);
  }

  lemma LocalIsLaidOutInArchive(f: Format, entries: seq<Entry>, i: nat, at: nat)
    requires Sound(f) && EntriesFit(f, entries) && i < |entries| && at == LocalBytes(f.deflate, entries[..i])
    ensures var e := entries[i];
            LocalLaidOut(Archive(f, entries), at, e.name, f.deflate(e.content), f.crc(e.content))
  {
    BytesTaken(f, entries[..i]);
    EntryStandsInArchive(f, entries, i);
    LocalIsLaidOut(f, Archive(f, entries), at, entries[i]);
  }

  lemma CentralIsLaidOutInArchive(f: Format, entries: seq<Entry>, i: nat, at: nat, local: nat)
    requires Sound(f) && EntriesFit(f, entries) && i < |entries|
    requires at == |Locals(f, entries)| + |Directory(f, entries[..i])| && local == |Locals(f, entries[..i])|
    ensures CentralLaidOut(Archive(f, entries), at, entries[i].name, f.crc(entries[i].content), local)
  {
    var m := MetaOf(f, entries[i]);
    EntryFits(f, entries, i);
    CentralStandsInArchive(f, entries, i);
    assert CentralSays(f, m, local);
    CentralIsLaidOut(Archive(f, entries), at, f.central(m, local), entries[i].name, m, local);
  }

  lemma CentralCounted(f: Format, entries: seq<Entry>, i: nat, at: nat, local: nat)
    requires Sound(f) && i <= |entries|
    requires at == LocalBytes(f.deflate, entries) + CentralBytes(entries[..i])
    requires local == LocalBytes(f.deflate, entries[..i])
    ensures at == |Locals(f, entries)| + |Directory(f, entries[..i])| && local == |Locals(f, entries[..i])|
  {
    BytesTaken(f, entries);
    BytesTaken(f, entries[..i]);
  }

  lemma EndIsLaidOut(f: Format, front: Bytes, entries: nat, length: nat, offset: nat)
    requires Sound(f) && entries < LIMIT16 && length < LIMIT32 && offset < LIMIT32
    ensures var b := front + f.end(entries, length, offset);
            |b| == |front| + 22 && Signed(b, |front|, 5, 6)
  {
    var end := f.end(entries, length, offset);
    assert EndSays(f, entries, length, offset);
    SignaturesAreBytes(end, 0);
  }

  lemma EndIsLaidOutInArchive(f: Format, entries: seq<Entry>)
    requires Sound(f) && Fits(f, entries)
    ensures var b := Archive(f, entries);
            |b| == LocalBytes(f.deflate, entries) + CentralBytes(entries) + 22 && Signed(b, |b| - 22, 5, 6)
  {
    var locals, directory := Locals(f, entries), Directory(f, entries);
    BytesTaken(f, entries);
    EndIsLaidOut(f, locals + directory, |entries|, |directory|, |locals|);
  }

  /** Byte for byte: local records one behind another, then central records, then the end record; each entry's two
      headers carry the CRC-32 of its content, and the central one the place of the local one. */
  lemma ArchiveIsLaidOut(deflate: Bytes -> Bytes, entries: seq<Entry>, i: nat, central: nat, local: nat)
    requires Fits(Zip(deflate), entries) && i < |entries|
    requires central == LocalBytes(deflate, entries) + CentralBytes(entries[..i])
    requires local == LocalBytes(deflate, entries[..i])
    ensures var b, e := Archive(Zip(deflate), entries), entries[i];
            && LocalLaidOut(b, local, e.name, deflate(e.content), Crc32Of(e.content))
            && CentralLaidOut(b, central, e.name, Crc32Of(e.content), local)
            && |b| == LocalBytes(deflate, entries) + CentralBytes(entries) + 22 && Signed(b, |b| - 22, 5, 6)
  {
    ZipIsSound(deflate);
    var f := Zip(deflate);
    LocalIsLaidOutInArchive(f, entries, i, local);
    CentralCounted(f, entries, i, central, local);
    CentralIsLaidOutInArchive(f, entries, i, central, local);
    EndIsLaidOutInArchive(f, entries);
  }

  /** The round trip: what the writer wrote, the reader reads back, every wanted file with its content, in order,
      exactly when the reader takes the archive and no wanted file breaks the expansion limits. */
  lemma ZipReadsBack(inflate: R.Inflate, deflate: Bytes -> Bytes, entries: seq<Entry>, wanted: Bytes -> bool, limits: R.Limits)
    requires Fits(Zip(deflate), entries) && Inverts(inflate, Zip(deflate), entries)
    ensures var r := R.ReadZipEntries(inflate, Archive(Zip(deflate), entries), wanted, limits);
            && (r.Ok? <==> Readable(Zip(deflate), entries, limits) && WithinLimits(Zip(deflate), entries, wanted, limits))
            && (r.Ok? ==> r == R.Ok(FilesOf(entries, wanted)))
  {
    ZipIsSound(deflate);
    DirectoryReadsBack(Zip(deflate), entries, limits);
    ContentsReadBack(inflate, Zip(deflate), entries, wanted, limits);
  }

  /** Asked for a name, the reader answers with the first entry that has it, or refuses that entry. */
  lemma ZipEntryReadsBack(inflate: R.Inflate, deflate: Bytes -> Bytes, entries: seq<Entry>, first: nat, limits: R.Limits)
    requires Fits(Zip(deflate), entries) && Readable(Zip(deflate), entries, limits)
    requires Inverts(inflate, Zip(deflate), entries)
    requires first < |entries| && forall k :: 0 <= k < first ==> entries[k].name != entries[first].name
    ensures R.ReadZipEntry(inflate, Archive(Zip(deflate), entries), entries[first].name, limits)
         == match Expected(Zip(deflate), entries[first], limits)
            case Failed(fault) => R.Failed(fault)
            case Ok(content) => R.Ok(Some(content))
  {
    ZipIsSound(deflate);
    DirectoryReadsBack(Zip(deflate), entries, limits);
    FirstOfThatName(RecordsOf(Zip(deflate), entries), first);
    EntryReadsBack(inflate, Zip(deflate), entries, first, limits);
  }

  /** And a name no entry has with none. */
  lemma AbsentNameReadsBack(inflate: R.Inflate, deflate: Bytes -> Bytes, entries: seq<Entry>, name: Bytes, limits: R.Limits)
    requires Fits(Zip(deflate), entries) && Readable(Zip(deflate), entries, limits)
    requires forall k :: 0 <= k < |entries| ==> entries[k].name != name
    ensures R.ReadZipEntry(inflate, Archive(Zip(deflate), entries), name, limits) == R.Ok(None)
  {
    ZipIsSound(deflate);
    DirectoryReadsBack(Zip(deflate), entries, limits);
    NoneOfThatName(RecordsOf(Zip(deflate), entries), name);
  }
}
