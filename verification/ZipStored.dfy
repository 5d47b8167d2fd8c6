/** An archive of one entry that is stored and not compressed, as
    apps/api/src/modules/preview/domain/zip.ts reads it. */
module ZipStored {
  import opened Text
  import opened Crc
  import opened ZipFormat
  import opened ZipReader
  import W = ZipRoundTrip

  /** A central header of section 4.3.12 with the method "stored". */
  function StoredCentral(m: Meta, offset: nat): (b: Bytes)
    ensures |b| == 46
  {
    Le32(CENTRAL_SIGNATURE) + Le16(20) + Le16(20) + Le16(0) + Le16(METHOD_STORED) + Le32(0)
    + Le32(m.crc) + Le32(m.compressedSize) + Le32(m.size) + Le16(m.nameLength)
    + Le16(0) + Le16(0) + Le16(0) + Le16(0) + Le32(0) + Le32(offset)
  }

  predicate SaysStored(h: Bytes, m: Meta, offset: nat) {
    && |h| == 46
    && ReadUInt32LE(h, 0) == CENTRAL_SIGNATURE && ReadUInt16LE(h, 10) == METHOD_STORED
    && ReadUInt32LE(h, 20) == m.compressedSize && ReadUInt32LE(h, 24) == m.size
    && ReadUInt16LE(h, 28) == m.nameLength && ReadUInt16LE(h, 30) == 0 && ReadUInt16LE(h, 32) == 0
    && ReadUInt32LE(h, 42) == offset
  }

  lemma StoredCentralSays(m: Meta, offset: nat)
    requires MetaFits(m) && offset < LIMIT32
    ensures SaysStored(StoredCentral(m, offset), m, offset)
  {
    var h := StoredCentral(m, offset);
    assert h[0..4] == Le32(CENTRAL_SIGNATURE);
    assert h[10..12] == Le16(METHOD_STORED);
    assert h[20..24] == Le32(m.compressedSize);
    assert h[24..28] == Le32(m.size);
    assert h[28..30] == Le16(m.nameLength);
    assert h[30..32] == Le16(0);
    assert h[32..34] == Le16(0);
    assert h[42..46] == Le32(offset);
    Reads32(h, 0, CENTRAL_SIGNATURE);
    Reads16(h, 10, METHOD_STORED);
    Reads32(h, 20, m.compressedSize);
    Reads32(h, 24, m.size);
    Reads16(h, 28, m.nameLength);
    Reads16(h, 30, 0);
    Reads16(h, 32, 0);
    Reads32(h, 42, offset);
  }

  /** The entry, with the size it declares. */
  function LocalPart(name: Bytes, content: Bytes, declared: nat): Bytes {
    LocalHeader(Meta(0, |content|, declared, |name|)) + name + content
  }

  function CentralPart(name: Bytes, content: Bytes, declared: nat): Bytes {
    StoredCentral(Meta(0, |content|, declared, |name|), 0) + name
  }

  function StoredArchive(name: Bytes, content: Bytes, declared: nat): Bytes {
    var local, central := LocalPart(name, content, declared), CentralPart(name, content, declared);
    local + central + EndRecord(1, |central|, |local|)
  }

  /** The fields hold what is written into them, and none reads as a sign of ZIP64. */
  predicate FitsStored(name: Bytes, content: Bytes, declared: nat) {
    |name| < LIMIT16 && declared < LIMIT32 && 30 + |name| + |content| < 0xffff_ffff
  }

  function StoredRecord(name: Bytes, content: Bytes, declared: nat): Record {
    Record(name, METHOD_STORED, |content|, declared, 0)
  }

  lemma DirectoryIsRead(name: Bytes, content: Bytes, declared: nat, limits: Limits)
    requires FitsStored(name, content, declared) && limits.maxEntries >= 1
    ensures CentralDirectory(StoredArchive(name, content, declared), limits)
         == Ok([StoredRecord(name, content, declared)])
  {
    var local, central := LocalPart(name, content, declared), CentralPart(name, content, declared);
    EndRecordSays(1, |central|, |local|);
    DirectoryBehind(local, EndRecord(1, |central|, |local|), name, content, declared, limits);
  }

  lemma DirectoryBehind(local: Bytes, end: Bytes, name: Bytes, content: Bytes, declared: nat, limits: Limits)
    requires FitsStored(name, content, declared) && limits.maxEntries >= 1 && |local| != 0xffff_ffff
    requires SaysEnd(end, 1, |CentralPart(name, content, declared)|, |local|)
    ensures CentralDirectory(local + CentralPart(name, content, declared) + end, limits)
         == Ok([StoredRecord(name, content, declared)])
  {
    var central := CentralPart(name, content, declared);
    CentralIsRead(local, end, name, content, declared);
    OneRecordDirectory(
      local + central, end, |central|, |local|, StoredRecord(name, content, declared), |local| + 46 + |name|, limits);
  }

  lemma CentralIsRead(local: Bytes, end: Bytes, name: Bytes, content: Bytes, declared: nat)
    requires FitsStored(name, content, declared)
    ensures RecordReader(local + CentralPart(name, content, declared) + end)(|local|)
         == Some((StoredRecord(name, content, declared), |local| + 46 + |name|))
  {
    var central := CentralPart(name, content, declared);
    var b := local + central + end;
    W.StandsBetween(local, central, end, 0, central);
    W.StandsSplit(b, |local|, StoredCentral(Meta(0, |content|, declared, |name|), 0), name);
    RecordIsRead(b, |local|, name, content, declared);
  }

  /** An end record that counts one entry, and the entry where it points. */
  lemma OneRecordDirectory(
    front: Bytes, end: Bytes, length: nat, offset: nat, record: Record, next: nat, limits: Limits)
    requires SaysEnd(end, 1, length, offset) && offset != 0xffff_ffff && limits.maxEntries >= 1
    requires RecordReader(front + end)(offset) == Some((record, next))
    ensures CentralDirectory(front + end, limits) == Ok([record])
  {
    W.EndReads(front, end, 1, length, offset);
    OneRecord(RecordReader(front + end), offset, record, next);
    W.DirectoryOnceFound(front + end, 1, offset, [record], limits);
  }

  lemma OneRecord(read: nat -> Option<(Record, nat)>, cursor: nat, record: Record, next: nat)
    requires read(cursor) == Some((record, next))
    ensures RecordsFrom(read, cursor, 1) == Ok([record])
  {
    assert RecordsFrom(read, next, 0) == Ok([]);
    assert [record] + [] == [record];
  }

  lemma RecordIsRead(b: Bytes, cursor: nat, name: Bytes, content: Bytes, declared: nat)
    requires FitsStored(name, content, declared)
    requires W.StandsAt(b, cursor, StoredCentral(Meta(0, |content|, declared, |name|), 0))
    requires W.StandsAt(b, cursor + 46, name)
    ensures RecordReader(b)(cursor) == Some((StoredRecord(name, content, declared), cursor + 46 + |name|))
  {
    var m := Meta(0, |content|, declared, |name|);
    StoredCentralSays(m, 0);
    HeaderIsRead(b, cursor, StoredCentral(m, 0), m, name);
  }

  lemma HeaderIsRead(b: Bytes, cursor: nat, header: Bytes, m: Meta, name: Bytes)
    requires SaysStored(header, m, 0) && m.nameLength == |name|
    requires W.StandsAt(b, cursor, header) && W.StandsAt(b, cursor + 46, name)
    ensures RecordReader(b)(cursor)
         == Some((Record(name, METHOD_STORED, m.compressedSize, m.size, 0), cursor + 46 + |name|))
  {
    ReadsInside(b, cursor, header, 0);
    ReadsInside(b, cursor, header, 10);
    ReadsInside(b, cursor, header, 20);
    ReadsInside(b, cursor, header, 24);
    ReadsInside(b, cursor, header, 28);
    ReadsInside(b, cursor, header, 30);
    ReadsInside(b, cursor, header, 32);
    ReadsInside(b, cursor, header, 42);
  }

  lemma ContentIsRead(inflate: Inflate, name: Bytes, content: Bytes, declared: nat, maxEntryBytes: nat)
    requires FitsStored(name, content, declared)
    ensures var b, record := StoredArchive(name, content, declared), StoredRecord(name, content, declared);
            ContentOf(inflate, b, record, maxEntryBytes) == Ok(content)
  {
    var b, m := StoredArchive(name, content, declared), Meta(0, |content|, declared, |name|);
    var header := LocalHeader(m);
    LocalHeaderSays(m);
    assert b[0..30] == header;
    ReadsInside(b, 0, header, 0);
    ReadsInside(b, 0, header, 26);
    ReadsInside(b, 0, header, 28);
    assert b[30 + |name|..30 + |name| + |content|] == content;
  }

  /** What is not inflated is not measured: whatever it stores, the entry comes back whole exactly when the size it
      declares is not refused, and a declared size of zero never is. */
  lemma StoredContentIsNotCapped(inflate: Inflate, name: Bytes, content: Bytes, declared: nat, limits: Limits)
    requires FitsStored(name, content, declared) && limits.maxEntries >= 1
    ensures ReadZipEntry(inflate, StoredArchive(name, content, declared), name, limits)
         == if SizesAllowed(declared, |content|, limits) then Ok(Some(content))
            else Failed(if declared > limits.maxEntryBytes then TooLarge else ExpandsTooFar)
    ensures declared == 0 && limits.maxExpansionRatio >= 0.0 ==>
              ReadZipEntry(inflate, StoredArchive(name, content, declared), name, limits) == Ok(Some(content))
  {
    var record := StoredRecord(name, content, declared);
    DirectoryIsRead(name, content, declared, limits);
    ContentIsRead(inflate, name, content, declared, limits.maxEntryBytes);
    RefusedExactlyWhen(record, limits);
    assert FirstNamed([record], name) == Some(record);
    if declared == 0 && limits.maxExpansionRatio >= 0.0 {
      NothingDeclaredIsNotRefused(record, limits);
    }
  }
}
