/** The ZIP reader of apps/api/src/modules/preview/domain/zip.ts: the directory walk, and one entry's
    bytes under the expansion limits. */
module ZipReader {
  import opened Text
  import opened Crc
  import opened ZipFormat

  datatype Limits = Limits(maxEntries: nat, maxExpansionRatio: real, maxEntryBytes: nat)

  datatype Record = Record(name: Bytes, method_: nat, compressedSize: nat, size: nat, localOffset: nat)

  datatype Fault =
    | NotAnArchive | MultiDisk | TooManyEntries | Zip64 | CorruptDirectory
    | TooLarge | ExpandsTooFar | NoLocalHeader | RunsPastEnd | UnknownMethod | CannotInflate | SizeDiffers

  datatype Read<+T> = Ok(value: T) | Failed(fault: Fault)

  /** The runtime's raw inflate; none when the stream is not one. */
  type Inflate = Bytes -> Option<Bytes>

  const EOCD_SEARCH_WINDOW := 22 + 0xffff

  // ----- The directory ------------------------------------------------------------------------------

  /** The last end-of-central-directory signature at or before `cursor`, no further back than `floor`. */
  function FindEnd(b: Bytes, cursor: int, floor: nat): (r: Option<nat>)
    requires cursor + 22 <= |b|
    ensures r.Some? ==> floor <= r.value <= cursor
    decreases cursor - floor + 1
  {
    if cursor < floor then None
    else if ReadUInt32LE(b, cursor) == EOCD_SIGNATURE then Some(cursor)
    else FindEnd(b, cursor - 1, floor)
  }

  function SearchFloor(b: Bytes): nat {
    if |b| > EOCD_SEARCH_WINDOW then |b| - EOCD_SEARCH_WINDOW else 0
  }

  method FindEndOfCentralDirectory(b: Bytes) returns (r: Option<nat>)
    ensures r == FindEnd(b, |b| - 22, SearchFloor(b))
  {
    var cursor := |b| - 22;
    while cursor >= SearchFloor(b)
      invariant cursor + 22 <= |b|
      invariant FindEnd(b, |b| - 22, SearchFloor(b)) == FindEnd(b, cursor, SearchFloor(b))
      decreases cursor - SearchFloor(b) + 1
    {
      if ReadUInt32LE(b, cursor) == EOCD_SIGNATURE {
        return Some(cursor);
      }
      cursor := cursor - 1;
    }
    return None;
  }

  /** `subarray`, which stops at the end of the buffer. */
  function Subarray(b: Bytes, from: nat, to: nat): Bytes
    requires from <= to && from <= |b|
  {
    if to <= |b| then b[from..to] else b[from..]
  }

  predicate HasCentralHeader(b: Bytes, cursor: nat) {
    cursor + 46 <= |b| && ReadUInt32LE(b, cursor) == CENTRAL_SIGNATURE
  }

  function RecordAt(b: Bytes, cursor: nat): Record
    requires HasCentralHeader(b, cursor)
  {
    Record(Subarray(b, cursor + 46, cursor + 46 + ReadUInt16LE(b, cursor + 28)),
           ReadUInt16LE(b, cursor + 10), ReadUInt32LE(b, cursor + 20), ReadUInt32LE(b, cursor + 24),
           ReadUInt32LE(b, cursor + 42))
  }

  function NextRecord(b: Bytes, cursor: nat): nat
    requires HasCentralHeader(b, cursor)
  {
    cursor + 46 + ReadUInt16LE(b, cursor + 28) + ReadUInt16LE(b, cursor + 30) + ReadUInt16LE(b, cursor + 32)
  }

  /** The record at a cursor and where the next one starts, if a record starts there. */
  function RecordReader(b: Bytes): nat -> Option<(Record, nat)> {
    cursor => if HasCentralHeader(b, cursor) then Some((RecordAt(b, cursor), NextRecord(b, cursor))) else None
  }

  function RecordsFrom(read: nat -> Option<(Record, nat)>, cursor: nat, count: nat): Read<seq<Record>>
    decreases count
  {
    if count == 0 then Ok([])
    else
      match read(cursor)
      case None => Failed(CorruptDirectory)
      case Some((record, next)) =>
        match RecordsFrom(read, next, count - 1)
        case Ok(rest) => Ok([record] + rest)
        case Failed(fault) => Failed(fault)
  }

  /** The directory an end record points at: its disk number, entry count and offset decide. */
  function DirectoryAt(b: Bytes, disks: nat, total: nat, offset: nat, limits: Limits): Read<seq<Record>> {
    if disks != 0 then Failed(MultiDisk)
    else if total > limits.maxEntries then Failed(TooManyEntries)
    else if offset == 0xffff_ffff || total == 0xffff then Failed(Zip64)
    else RecordsFrom(RecordReader(b), offset, total)
  }

  /** What the end record says: disk number, entry count and directory offset. */
  datatype EndFields = EndFields(disks: nat, total: nat, offset: nat)

  function EndOf(b: Bytes): Option<EndFields> {
    match FindEnd(b, |b| - 22, SearchFloor(b))
    case None => None
    case Some(eocd) =>
      Some(EndFields(ReadUInt16LE(b, eocd + 4), ReadUInt16LE(b, eocd + 10), ReadUInt32LE(b, eocd + 16)))
  }

  function CentralDirectory(b: Bytes, limits: Limits): Read<seq<Record>> {
    match EndOf(b)
    case None => Failed(NotAnArchive)
    case Some(end) => DirectoryAt(b, end.disks, end.total, end.offset, limits)
  }

  /** Prepending the records already read to what a read of the rest gives. */
  function Prepend(records: seq<Record>, rest: Read<seq<Record>>): Read<seq<Record>> {
    if rest.Ok? then Ok(records + rest.value) else rest
  }

  method ReadCentralDirectory(b: Bytes, limits: Limits) returns (r: Read<seq<Record>>)
    ensures r == CentralDirectory(b, limits)
  {
    var found := FindEndOfCentralDirectory(b);
    if found.None? {
      return Failed(NotAnArchive);
    }
    var eocd := found.value;
    var total := ReadUInt16LE(b, eocd + 10);
    if ReadUInt16LE(b, eocd + 4) != 0 {
      return Failed(MultiDisk);
    }
    if total > limits.maxEntries {
      return Failed(TooManyEntries);
    }
    var directoryOffset := ReadUInt32LE(b, eocd + 16);
    if directoryOffset == 0xffff_ffff || total == 0xffff {
      return Failed(Zip64);
    }
    r := ReadRecords(b, directoryOffset, total);
  }

  lemma PrependOne(records: seq<Record>, read: nat -> Option<(Record, nat)>, cursor: nat, count: nat)
    requires count > 0 && read(cursor).Some?
    ensures Prepend(records, RecordsFrom(read, cursor, count))
         == Prepend(records + [read(cursor).value.0], RecordsFrom(read, read(cursor).value.1, count - 1))
  {
    var (record, next) := read(cursor).value;
    var rest := RecordsFrom(read, next, count - 1);
    if rest.Ok? {
      assert records + [record] + rest.value == records + ([record] + rest.value);
    }
  }

  /** The read yields the record at the cursor, or none. */
  predicate ReadsAt(b: Bytes, read: nat -> Option<(Record, nat)>, cursor: nat) {
    read(cursor) == if HasCentralHeader(b, cursor) then Some((RecordAt(b, cursor), NextRecord(b, cursor))) else None
  }

  method ReadRecords(b: Bytes, directoryOffset: nat, total: nat) returns (r: Read<seq<Record>>)
    ensures r == RecordsFrom(RecordReader(b), directoryOffset, total)
  {
    ghost var read := RecordReader(b);
    forall cursor: nat ensures ReadsAt(b, read, cursor) {
    }
    r := ReadRecordsBy(b, read, directoryOffset, total);
  }

  method ReadRecordsBy(b: Bytes, ghost read: nat -> Option<(Record, nat)>, directoryOffset: nat, total: nat)
    returns (r: Read<seq<Record>>)
    requires forall cursor: nat :: ReadsAt(b, read, cursor)
    ensures r == RecordsFrom(read, directoryOffset, total)
  {
    var records: seq<Record> := [];
    var cursor := directoryOffset;
    ghost var whole := RecordsFrom(read, directoryOffset, total);
    assert whole == Prepend(records, whole) by {
      if whole.Ok? {
        assert [] + whole.value == whole.value;
      }
    }
    for index := 0 to total
      invariant whole == Prepend(records, RecordsFrom(read, cursor, total - index))
    {
      assert ReadsAt(b, read, cursor);
      if !HasCentralHeader(b, cursor) {
        return Failed(CorruptDirectory);
      }
      PrependOne(records, read, cursor, total - index);
      records := records + [RecordAt(b, cursor)];
      cursor := NextRecord(b, cursor);
    }
    assert records + [] == records;
    return Ok(records);
  }

  // ----- One entry ----------------------------------------------------------------------------------

  function RefuseBomb(r: Record, limits: Limits): Option<Fault> {
    if r.size > limits.maxEntryBytes then Some(TooLarge)
    else if (if r.compressedSize == 0 then r.size as real else r.size as real / r.compressedSize as real)
            > limits.maxExpansionRatio
    then Some(ExpandsTooFar)
    else None
  }

  function InflateEntry(inflate: Inflate, b: Bytes, r: Record, limits: Limits): Read<Bytes> {
    match RefuseBomb(r, limits)
    case Some(fault) => Failed(fault)
    case None => ContentOf(inflate, b, r, limits.maxEntryBytes)
  }

  /** The bytes behind the local header the record points at, inflated unless they are stored as they are. */
  function ContentOf(inflate: Inflate, b: Bytes, r: Record, maxEntryBytes: nat): Read<Bytes> {
    var header := r.localOffset;
    if header + 30 > |b| || ReadUInt32LE(b, header) != LOCAL_SIGNATURE then Failed(NoLocalHeader)
    else
      var start := header + 30 + ReadUInt16LE(b, header + 26) + ReadUInt16LE(b, header + 28);
      var end := start + r.compressedSize;
      if end > |b| then Failed(RunsPastEnd)
      else
        var compressed := b[start..end];
        if r.method_ == METHOD_STORED then Ok(compressed)
        else if r.method_ != METHOD_DEFLATED then Failed(UnknownMethod)
        else
          match inflate(compressed)
          case None => Failed(CannotInflate)
          case Some(inflated) =>
            if |inflated| > maxEntryBytes then Failed(CannotInflate)
            else if |inflated| != r.size then Failed(SizeDiffers)
            else Ok(inflated)
  }

  datatype File = File(name: Bytes, content: Bytes)

  /** Every wanted entry in directory order; the first that cannot be read fails the whole. */
  function InflateAll(read: Record -> Read<Bytes>, records: seq<Record>, wanted: Bytes -> bool): Read<seq<File>> {
    if records == [] then Ok([])
    else if !wanted(records[0].name) then InflateAll(read, records[1..], wanted)
    else
      match read(records[0])
      case Failed(fault) => Failed(fault)
      case Ok(content) =>
        match InflateAll(read, records[1..], wanted)
        case Failed(fault) => Failed(fault)
        case Ok(rest) => Ok([File(records[0].name, content)] + rest)
  }

  function EntryReader(inflate: Inflate, b: Bytes, limits: Limits): Record -> Read<Bytes> {
    r => InflateEntry(inflate, b, r, limits)
  }

  function ReadZipEntries(inflate: Inflate, b: Bytes, wanted: Bytes -> bool, limits: Limits): Read<seq<File>> {
    match CentralDirectory(b, limits)
    case Failed(fault) => Failed(fault)
    case Ok(records) => InflateAll(EntryReader(inflate, b, limits), records, wanted)
  }

  function FirstNamed(records: seq<Record>, name: Bytes): Option<Record> {
    if records == [] then None
    else if records[0].name == name then Some(records[0])
    else FirstNamed(records[1..], name)
  }

  /** One entry's bytes by exact name; none when the archive has no such entry. */
  function ReadZipEntry(inflate: Inflate, b: Bytes, name: Bytes, limits: Limits): Read<Option<Bytes>> {
    match CentralDirectory(b, limits)
    case Failed(fault) => Failed(fault)
    case Ok(records) =>
      match FirstNamed(records, name)
      case None => Ok(None)
      case Some(record) =>
        match InflateEntry(inflate, b, record, limits)
        case Failed(fault) => Failed(fault)
        case Ok(content) => Ok(Some(content))
  }

  // ----- What holds of any bytes --------------------------------------------------------------------

  predicate EndsAt(b: Bytes, at: int) {
    at + 22 <= |b| && Signed(b, at, 5, 6)
  }

  /** The last end record in the window an archive comment leaves it. */
  ghost predicate IsLastEnd(b: Bytes, end: int) {
    && EndsAt(b, end) && |b| <= end + 22 + 65535
    && forall later :: end < later ==> !EndsAt(b, later)
  }

  lemma {:induction false} FoundIsTheLast(b: Bytes, cursor: int, floor: nat)
    requires cursor + 22 <= |b|
    ensures var r := FindEnd(b, cursor, floor);
            && (r.Some? ==> EndsAt(b, r.value) && forall later :: r.value < later <= cursor ==> !EndsAt(b, later))
            && (r.None? ==> forall at :: floor <= at <= cursor ==> !EndsAt(b, at))
    decreases cursor - floor + 1
  {
    if floor <= cursor {
      SignaturesAreBytes(b, cursor);
      if !EndsAt(b, cursor) {
        FoundIsTheLast(b, cursor - 1, floor);
      }
    }
  }

  /** The end record read is the last one in the window, and there is none exactly when the window holds none. */
  lemma EndIsTheLast(b: Bytes, end: nat)
    ensures IsLastEnd(b, end) <==> FindEnd(b, |b| - 22, SearchFloor(b)) == Some(end)
  {
    FoundIsTheLast(b, |b| - 22, SearchFloor(b));
  }

  /** The records are read one behind another. */
  predicate Follow(read: nat -> Option<(Record, nat)>, cursor: nat, records: seq<Record>)
    decreases |records|
  {
    records == [] ||
    (match read(cursor)
     case None => false
     case Some((record, next)) => record == records[0] && Follow(read, next, records[1..]))
  }

  /** The loop reads a list of records exactly when they stand there, and otherwise finds the directory corrupt. */
  lemma {:induction false} RecordsAreThoseThere(
    read: nat -> Option<(Record, nat)>, cursor: nat, count: nat, records: seq<Record>)
    ensures RecordsFrom(read, cursor, count) == Ok(records) <==> |records| == count && Follow(read, cursor, records)
    ensures RecordsFrom(read, cursor, count).Ok? || RecordsFrom(read, cursor, count) == Failed(CorruptDirectory)
    decreases count
  {
    if count > 0 && read(cursor).Some? {
      var (record, next) := read(cursor).value;
      var rest := RecordsFrom(read, next, count - 1);
      RecordsAreThoseThere(read, next, count - 1, if records == [] then [] else records[1..]);
      if rest.Ok? {
        assert ([record] + rest.value)[1..] == rest.value;
        assert records != [] ==> records == [records[0]] + records[1..];
      }
    }
  }

  /** What the end record says decides: one of several disks, more entries than allowed and a value that stands for
      ZIP64 are refused, in this order; else the directory is what stands where it points. */
  lemma EndRecordDecides(b: Bytes, end: EndFields, limits: Limits, records: seq<Record>)
    ensures var r := DirectoryAt(b, end.disks, end.total, end.offset, limits);
            var taken := end.disks == 0 && end.total <= limits.maxEntries;
            && (r == Failed(MultiDisk) <==> end.disks != 0)
            && (r == Failed(TooManyEntries) <==> end.disks == 0 && end.total > limits.maxEntries)
            && (r == Failed(Zip64) <==> taken && (end.offset == 0xffff_ffff || end.total == 0xffff))
            && (r == Ok(records) <==> && taken && end.offset != 0xffff_ffff && end.total != 0xffff
                                      && |records| == end.total && Follow(RecordReader(b), end.offset, records))
            && (r.Failed? ==> r.fault in {MultiDisk, TooManyEntries, Zip64, CorruptDirectory})
  {
    RecordsAreThoseThere(RecordReader(b), end.offset, end.total, records);
  }

  /** The directory is decided by the last end record in the window: its disk, its count of entries and its offset. */
  lemma LastEndDecides(b: Bytes, limits: Limits, end: nat)
    requires IsLastEnd(b, end)
    ensures CentralDirectory(b, limits)
         == DirectoryAt(b, ReadUInt16LE(b, end + 4), ReadUInt16LE(b, end + 10), ReadUInt32LE(b, end + 16), limits)
  {
    EndIsTheLast(b, end);
  }

  /** Bytes with no end record in the window are not an archive, and only those. */
  lemma NotAnArchiveExactlyWhen(b: Bytes, limits: Limits)
    ensures CentralDirectory(b, limits) == Failed(NotAnArchive) <==> forall end: nat :: !IsLastEnd(b, end)
  {
    var found := FindEnd(b, |b| - 22, SearchFloor(b));
    forall end: nat ensures IsLastEnd(b, end) <==> found == Some(end) {
      EndIsTheLast(b, end);
    }
    if found.Some? {
      EndRecordDecides(b, EndOf(b).value, limits, []);
    }
  }

  /** A local header stands where the record points, and what it stores ends within the bytes. */
  predicate ContentStands(b: Bytes, r: Record, content: Bytes) {
    && r.localOffset + 30 <= |b| && Signed(b, r.localOffset, 3, 4)
    && var start := r.localOffset + 30 + ReadUInt16LE(b, r.localOffset + 26) + ReadUInt16LE(b, r.localOffset + 28);
       start + r.compressedSize <= |b| && b[start..start + r.compressedSize] == content
  }

  /** Content comes out exactly when it stands there stored, or stands there deflated and inflates to as much as
      declared, within the cap. */
  lemma ContentComesOutExactlyWhen(inflate: Inflate, b: Bytes, r: Record, maxEntryBytes: nat, content: Bytes)
    ensures ContentOf(inflate, b, r, maxEntryBytes) == Ok(content)
       <==> || (r.method_ == 0 && ContentStands(b, r, content))
            || (&& r.method_ == 8 && |content| == r.size <= maxEntryBytes
                && exists packed :: ContentStands(b, r, packed) && inflate(packed) == Some(content))
  {
    if r.localOffset + 30 <= |b| {
      SignaturesAreBytes(b, r.localOffset);
    }
    if ContentOf(inflate, b, r, maxEntryBytes) == Ok(content) {
      var start := r.localOffset + 30 + ReadUInt16LE(b, r.localOffset + 26) + ReadUInt16LE(b, r.localOffset + 28);
      assert ContentStands(b, r, b[start..start + r.compressedSize]);
    }
  }

  /** And why it does not: no header there, not enough behind it, a method not known, a stream that does not inflate
      within the cap, or one that inflates to something else than declared. */
  lemma ContentFailsExactlyWhen(inflate: Inflate, b: Bytes, r: Record, maxEntryBytes: nat)
    ensures var read := ContentOf(inflate, b, r, maxEntryBytes);
            var headed := r.localOffset + 30 <= |b| && Signed(b, r.localOffset, 3, 4);
            && (read == Failed(NoLocalHeader) <==> !headed)
            && (read == Failed(RunsPastEnd) <==> headed && forall packed :: !ContentStands(b, r, packed))
            && forall packed :: ContentStands(b, r, packed) ==>
                 var out := inflate(packed);
                 && (read == Failed(UnknownMethod) <==> r.method_ != 0 && r.method_ != 8)
                 && (read == Failed(CannotInflate) <==> r.method_ == 8 && (out.Some? ==> |out.value| > maxEntryBytes))
                 && (read == Failed(SizeDiffers) <==>
                       r.method_ == 8 && out.Some? && |out.value| <= maxEntryBytes && |out.value| != r.size)
  {
    if r.localOffset + 30 <= |b| {
      SignaturesAreBytes(b, r.localOffset);
      var start := r.localOffset + 30 + ReadUInt16LE(b, r.localOffset + 26) + ReadUInt16LE(b, r.localOffset + 28);
      if Signed(b, r.localOffset, 3, 4) && start + r.compressedSize <= |b| {
        assert ContentStands(b, r, b[start..start + r.compressedSize]);
      }
    }
  }

  /** A central record is read where a whole header stands under its signature. A name that runs past the end of the
      bytes is read as far as they go, and the next record is looked for behind what the header declares. */
  lemma RecordIsReadExactlyWhen(b: Bytes, cursor: nat)
    ensures RecordReader(b)(cursor).Some? <==> cursor + 46 <= |b| && Signed(b, cursor, 1, 2)
    ensures RecordReader(b)(cursor).Some? ==>
              var (record, next) := RecordReader(b)(cursor).value;
              var declared, rest := ReadUInt16LE(b, cursor + 28), |b| - (cursor + 46);
              && record.name <= b[cursor + 46..] && |record.name| == (if declared < rest then declared else rest)
              && next == cursor + 46 + declared + ReadUInt16LE(b, cursor + 30) + ReadUInt16LE(b, cursor + 32)
  {
    if cursor + 46 <= |b| {
      SignaturesAreBytes(b, cursor);
    }
  }

  /** The k-th record is the first wanted one that cannot be read, for this fault. */
  predicate FailsFirst(read: Record -> Read<Bytes>, records: seq<Record>, wanted: Bytes -> bool, k: int, fault: Fault) {
    && 0 <= k < |records| && wanted(records[k].name) && read(records[k]) == Failed(fault)
    && forall j :: 0 <= j < k && wanted(records[j].name) ==> read(records[j]).Ok?
  }

  /** Reading entries fails exactly when some wanted one does, and with the fault of the first that does. */
  lemma {:induction false} FailsWithTheFirst(
    read: Record -> Read<Bytes>, records: seq<Record>, wanted: Bytes -> bool, fault: Fault)
    ensures InflateAll(read, records, wanted) == Failed(fault)
       <==> exists k :: FailsFirst(read, records, wanted, k, fault)
  {
    if records != [] {
      var rest := records[1..];
      FailsWithTheFirst(read, rest, wanted, fault);
      if k :| FailsFirst(read, records, wanted, k, fault) {
        if k > 0 {
          assert FailsFirst(read, rest, wanted, k - 1, fault);
        }
      }
      if wanted(records[0].name) ==> read(records[0]).Ok? {
        if k :| FailsFirst(read, rest, wanted, k, fault) {
          assert FailsFirst(read, records, wanted, k + 1, fault);
        }
      } else if read(records[0]) == Failed(fault) {
        assert FailsFirst(read, records, wanted, 0, fault);
      }
    }
  }

  /** What the limits allow, in sizes: no more bytes than the cap, and no more for each compressed byte than the
      ratio; nothing compressed counts as one byte. */
  predicate SizesAllowed(size: nat, compressedSize: nat, limits: Limits) {
    size <= limits.maxEntryBytes && RatioAllowed(size, compressedSize, limits)
  }

  predicate RatioAllowed(size: nat, compressedSize: nat, limits: Limits) {
    size as real <= limits.maxExpansionRatio * (if compressedSize == 0 then 1.0 else compressedSize as real)
  }

  /** An entry is refused exactly for its sizes, and which refusal it is. */
  lemma RefusedExactlyWhen(r: Record, limits: Limits)
    ensures RefuseBomb(r, limits).None? <==> SizesAllowed(r.size, r.compressedSize, limits)
    ensures RefuseBomb(r, limits) == Some(TooLarge) <==> r.size > limits.maxEntryBytes
    ensures RefuseBomb(r, limits) == Some(ExpandsTooFar)
       <==> r.size <= limits.maxEntryBytes && !RatioAllowed(r.size, r.compressedSize, limits)
  {
    if r.compressedSize > 0 {
      RatioBound(r.size as real, r.compressedSize as real, limits.maxExpansionRatio);
    }
  }

  lemma NotRefused(inflate: Inflate, b: Bytes, r: Record, limits: Limits)
    requires InflateEntry(inflate, b, r, limits).Ok?
    ensures RefuseBomb(r, limits).None?
  {
  }

  /** Whatever the archive says: the declared size of an entry that was read is within the limits; the entry is
      as long as declared exactly when it was inflated or declares what it stores, and within the cap exactly
      when it was inflated or stores no more than that. */
  lemma EntriesRespectTheLimits(inflate: Inflate, b: Bytes, r: Record, limits: Limits)
    requires InflateEntry(inflate, b, r, limits).Ok?
    ensures SizesAllowed(r.size, r.compressedSize, limits)
    ensures r.method_ == METHOD_STORED || r.method_ == METHOD_DEFLATED
    ensures |InflateEntry(inflate, b, r, limits).value|
         == if r.method_ == METHOD_DEFLATED then r.size else r.compressedSize
    ensures |InflateEntry(inflate, b, r, limits).value| == r.size
       <==> r.method_ == METHOD_DEFLATED || r.compressedSize == r.size
    ensures |InflateEntry(inflate, b, r, limits).value| <= limits.maxEntryBytes
       <==> r.method_ == METHOD_DEFLATED || r.compressedSize <= limits.maxEntryBytes
  {
    NotRefused(inflate, b, r, limits);
    RefusedExactlyWhen(r, limits);
  }

  lemma NothingDeclaredIsNotRefused(r: Record, limits: Limits)
    requires r.size == 0 && limits.maxExpansionRatio >= 0.0
    ensures RefuseBomb(r, limits).None?
  {
    if r.compressedSize > 0 {
      RatioOfNothing(r.size as real, r.compressedSize as real);
    }
  }

  lemma RatioOfNothing(size: real, compressed: real)
    requires size == 0.0 && compressed > 0.0
    ensures size / compressed == 0.0
  {
  }

  lemma RatioBound(size: real, compressed: real, limit: real)
    requires compressed > 0.0
    ensures size / compressed <= limit <==> size <= limit * compressed
  {
    var ratio := size / compressed;
    assert size == ratio * compressed;
    assert ratio <= limit ==> ratio * compressed <= limit * compressed;
    assert limit < ratio ==> limit * compressed < ratio * compressed;
  }

  /** The directory read never yields more entries than allowed, and each was read where its
      signature stands. */
  lemma DirectoryRespectsTheLimit(b: Bytes, limits: Limits)
    ensures CentralDirectory(b, limits).Ok? ==> |CentralDirectory(b, limits).value| <= limits.maxEntries
  {
    var end := EndOf(b);
    if end.Some? {
      RecordCount(RecordReader(b), end.value.offset, end.value.total);
    }
  }

  lemma {:induction false} RecordCount(read: nat -> Option<(Record, nat)>, cursor: nat, count: nat)
    ensures RecordsFrom(read, cursor, count).Ok? ==> |RecordsFrom(read, cursor, count).value| == count
    decreases count
  {
    if count > 0 && read(cursor).Some? {
      RecordCount(read, read(cursor).value.1, count - 1);
    }
  }
}
