/** The ZIP writer of apps/api/src/testing/office-fixtures.ts: headers filled field by field in
    fixed-size buffers, and the archive they add up to. */
module ZipWriter {
  import opened Crc
  import opened ZipFormat

  /** A file to archive: its name in UTF-8 and its content. */
  datatype Entry = Entry(name: Bytes, content: Bytes)

  /** The archive, or the error thrown when a number does not fit its field. */
  datatype Result = Ok(bytes: Bytes) | Thrown

  // ----- The archive, as a value --------------------------------------------------------------------

  function MetaOf(f: Format, e: Entry): Meta {
    Meta(f.crc(e.content), |f.deflate(e.content)|, |e.content|, |e.name|)
  }

  function LocalRecord(f: Format, e: Entry): Bytes {
    f.local(MetaOf(f, e)) + e.name + f.deflate(e.content)
  }

  function CentralRecord(f: Format, e: Entry, offset: nat): Bytes {
    f.central(MetaOf(f, e), offset) + e.name
  }

  function Locals(f: Format, entries: seq<Entry>): Bytes {
    if entries == [] then []
    else Locals(f, entries[..|entries| - 1]) + LocalRecord(f, entries[|entries| - 1])
  }

  /** Each central record carries the length of the local records before its own. */
  function Directory(f: Format, entries: seq<Entry>): Bytes {
    if entries == [] then []
    else
      var front := entries[..|entries| - 1];
      Directory(f, front) + CentralRecord(f, entries[|entries| - 1], |Locals(f, front)|)
  }

  function Archive(f: Format, entries: seq<Entry>): Bytes {
    Locals(f, entries) + Directory(f, entries)
    + f.end(|entries|, |Directory(f, entries)|, |Locals(f, entries)|)
  }

  /** Every entry's fields and every offset fit their places. */
  predicate EntriesFit(f: Format, entries: seq<Entry>) {
    entries != [] ==>
      && EntriesFit(f, entries[..|entries| - 1])
      && MetaFits(MetaOf(f, entries[|entries| - 1]))
      && |Locals(f, entries[..|entries| - 1])| < LIMIT32
  }

  predicate Fits(f: Format, entries: seq<Entry>) {
    && EntriesFit(f, entries) && |entries| < LIMIT16
    && |Directory(f, entries)| < LIMIT32 && |Locals(f, entries)| < LIMIT32
  }

  /** How much the local and the central records take. */
  function LocalBytes(deflate: Bytes -> Bytes, entries: seq<Entry>): nat {
    if entries == [] then 0
    else
      var last := entries[|entries| - 1];
      LocalBytes(deflate, entries[..|entries| - 1]) + 30 + |last.name| + |deflate(last.content)|
  }

  function CentralBytes(entries: seq<Entry>): nat {
    if entries == [] then 0
    else CentralBytes(entries[..|entries| - 1]) + 46 + |entries[|entries| - 1].name|
  }

  predicate SmallEntry(deflate: Bytes -> Bytes, e: Entry) {
    |e.name| < 0x1_0000 && |e.content| < 0x1_0000_0000 && |deflate(e.content)| < 0x1_0000_0000
  }

  lemma {:induction false} BytesTaken(f: Format, entries: seq<Entry>)
    requires Sound(f)
    ensures |Locals(f, entries)| == LocalBytes(f.deflate, entries)
    ensures |Directory(f, entries)| == CentralBytes(entries)
  {
    if entries != [] {
      var front, last := entries[..|entries| - 1], entries[|entries| - 1];
      BytesTaken(f, front);
      assert LocalSays(f, MetaOf(f, last)) && CentralSays(f, MetaOf(f, last), |Locals(f, front)|);
    }
  }

  lemma {:induction false} SmallEntriesFit(f: Format, entries: seq<Entry>)
    requires Sound(f) && LocalBytes(f.deflate, entries) < LIMIT32
    ensures EntriesFit(f, entries) <==> forall i :: 0 <= i < |entries| ==> SmallEntry(f.deflate, entries[i])
  {
    if entries != [] {
      var front, last := entries[..|entries| - 1], entries[|entries| - 1];
      SmallEntriesFit(f, front);
      BytesTaken(f, front);
      assert forall i :: 0 <= i < |front| ==> front[i] == entries[i];
    }
  }

  /** What fits, in sizes: fewer than 65536 entries, each small enough, and local and central records of fewer than
      4 GiB each. */
  lemma FitsExactlyWhen(deflate: Bytes -> Bytes, entries: seq<Entry>)
    ensures Fits(Zip(deflate), entries)
       <==> && |entries| < 0x1_0000
            && (forall i :: 0 <= i < |entries| ==> SmallEntry(deflate, entries[i]))
            && LocalBytes(deflate, entries) < 0x1_0000_0000 && CentralBytes(entries) < 0x1_0000_0000
  {
    ZipIsSound(deflate);
    BytesTaken(Zip(deflate), entries);
    if LocalBytes(deflate, entries) < 0x1_0000_0000 {
      SmallEntriesFit(Zip(deflate), entries);
    }
  }

  // ----- Filling buffers in place ---------------------------------------------------------------------

  /** Extends the filled part of the buffer by two bytes and leaves the rest as it was. */
  method WriteUInt16LE(buffer: array<Byte>, value: nat, at: nat)
    requires at + 2 <= buffer.Length && value < LIMIT16
    modifies buffer
    ensures buffer[..at + 2] == old(buffer[..at]) + Le16(value)
    ensures buffer[at + 2..] == old(buffer[at + 2..])
  {
    buffer[at] := value % 0x100;
    buffer[at + 1] := value / 0x100 % 0x100;
  }

  method WriteUInt32LE(buffer: array<Byte>, value: nat, at: nat)
    requires at + 4 <= buffer.Length && value < LIMIT32
    modifies buffer
    ensures buffer[..at + 4] == old(buffer[..at]) + Le32(value)
    ensures buffer[at + 4..] == old(buffer[at + 4..])
  {
    var rest := value;
    buffer[at] := rest % 0x100;
    rest := rest / 0x100;
    buffer[at + 1] := rest % 0x100;
    rest := rest / 0x100;
    buffer[at + 2] := rest % 0x100;
    rest := rest / 0x100;
    buffer[at + 3] := rest % 0x100;
  }

  method WriteLocalFields(local: array<Byte>, m: Meta)
    requires local.Length == 30 && MetaFits(m)
    modifies local
    ensures local[..30] == LocalHeader(m)
  {
    WriteUInt32LE(local, LOCAL_SIGNATURE, 0);
    WriteUInt16LE(local, 20, 4);
    WriteUInt16LE(local, 0, 6);
    WriteUInt16LE(local, METHOD_DEFLATED, 8);
    WriteUInt32LE(local, 0, 10);
    WriteUInt32LE(local, m.crc, 14);
    WriteUInt32LE(local, m.compressedSize, 18);
    WriteUInt32LE(local, m.size, 22);
    WriteUInt16LE(local, m.nameLength, 26);
    WriteUInt16LE(local, 0, 28);
  }

  method WriteLocalHeader(m: Meta) returns (r: Result)
    ensures r.Ok? <==> MetaFits(m)
    ensures r.Ok? ==> r.bytes == LocalHeader(m)
  {
    if !MetaFits(m) {
      return Thrown;
    }
    var local := new Byte[30](_ => 0);
    WriteLocalFields(local, m);
    return Ok(local[..30]);
  }

  /** The part of the central header that repeats the local one. */
  method WriteCentralCopy(central: array<Byte>, m: Meta)
    requires central.Length == 46 && MetaFits(m)
    modifies central
    ensures central[..30] ==
            Le32(CENTRAL_SIGNATURE) + Le16(20) + Le16(20) + Le16(0) + Le16(METHOD_DEFLATED) + Le32(0)
            + Le32(m.crc) + Le32(m.compressedSize) + Le32(m.size) + Le16(m.nameLength)
  {
    WriteUInt32LE(central, CENTRAL_SIGNATURE, 0);
    WriteUInt16LE(central, 20, 4);
    WriteUInt16LE(central, 20, 6);
    WriteUInt16LE(central, 0, 8);
    WriteUInt16LE(central, METHOD_DEFLATED, 10);
    WriteUInt32LE(central, 0, 12);
    WriteUInt32LE(central, m.crc, 16);
    WriteUInt32LE(central, m.compressedSize, 20);
    WriteUInt32LE(central, m.size, 24);
    WriteUInt16LE(central, m.nameLength, 28);
  }

  method WriteCentralHeader(m: Meta, offset: nat) returns (r: Result)
    requires MetaFits(m)
    ensures r.Ok? <==> offset < LIMIT32
    ensures r.Ok? ==> r.bytes == CentralHeader(m, offset)
  {
    if offset >= LIMIT32 {
      return Thrown;
    }
    var central := new Byte[46](_ => 0);
    WriteCentralCopy(central, m);
    WriteUInt16LE(central, 0, 30);
    WriteUInt16LE(central, 0, 32);
    WriteUInt16LE(central, 0, 34);
    WriteUInt16LE(central, 0, 36);
    WriteUInt32LE(central, 0, 38);
    WriteUInt32LE(central, offset, 42);
    return Ok(central[..46]);
  }

  method WriteEndRecord(entries: nat, directoryLength: nat, offset: nat) returns (r: Result)
    ensures r.Ok? <==> entries < LIMIT16 && directoryLength < LIMIT32 && offset < LIMIT32
    ensures r.Ok? ==> r.bytes == EndRecord(entries, directoryLength, offset)
  {
    if entries >= LIMIT16 || directoryLength >= LIMIT32 || offset >= LIMIT32 {
      return Thrown;
    }
    var eocd := new Byte[22](_ => 0);
    WriteUInt32LE(eocd, EOCD_SIGNATURE, 0);
    WriteUInt16LE(eocd, 0, 4);
    WriteUInt16LE(eocd, 0, 6);
    WriteUInt16LE(eocd, entries, 8);
    WriteUInt16LE(eocd, entries, 10);
    WriteUInt32LE(eocd, directoryLength, 12);
    WriteUInt32LE(eocd, offset, 16);
    WriteUInt16LE(eocd, 0, 20);
    return Ok(eocd[..22]);
  }

  lemma {:induction false} PrefixFits(f: Format, entries: seq<Entry>, i: nat)
    requires EntriesFit(f, entries) && i <= |entries|
    ensures EntriesFit(f, entries[..i])
    decreases |entries| - i
  {
    if i == |entries| {
      assert entries[..i] == entries;
    } else {
      PrefixFits(f, entries, i + 1);
      assert entries[..i + 1][..i] == entries[..i];
    }
  }

  /** What one entry more adds to each part of the archive. */
  lemma OneEntryMore(f: Format, entries: seq<Entry>, i: nat)
    requires i < |entries| && EntriesFit(f, entries[..i])
    ensures var e, offset := entries[i], |Locals(f, entries[..i])|;
            && (EntriesFit(f, entries[..i + 1]) <==> MetaFits(MetaOf(f, e)) && offset < LIMIT32)
            && Locals(f, entries[..i + 1]) == Locals(f, entries[..i]) + LocalRecord(f, e)
            && Directory(f, entries[..i + 1]) == Directory(f, entries[..i]) + CentralRecord(f, e, offset)
    ensures EntriesFit(f, entries) ==> EntriesFit(f, entries[..i + 1])
  {
    assert entries[..i + 1][..i] == entries[..i];
    if EntriesFit(f, entries) {
      PrefixFits(f, entries, i + 1);
    }
  }

  /** One turn of the loop: the entry's local record and its central record, or an error. */
  method WriteEntry(deflate: Bytes -> Bytes, entry: Entry, offset: nat) returns (local: Result, central: Result)
    ensures local.Ok? <==> MetaFits(MetaOf(Zip(deflate), entry)) && offset < LIMIT32
    ensures local.Ok? <==> central.Ok?
    ensures local.Ok? ==> local.bytes == LocalRecord(Zip(deflate), entry)
                          && central.bytes == CentralRecord(Zip(deflate), entry, offset)
  {
    var compressed := deflate(entry.content);
    var crc := Crc32(entry.content);
    var meta := Meta(crc, |compressed|, |entry.content|, |entry.name|);
    local := WriteLocalHeader(meta);
    if local.Thrown? {
      return Thrown, Thrown;
    }
    central := WriteCentralHeader(meta, offset);
    if central.Thrown? {
      return Thrown, Thrown;
    }
    return Ok(local.bytes + entry.name + compressed), Ok(central.bytes + entry.name);
  }

  /** The loop over the entries: all local records, and all central ones, or an error. */
  method WriteEntries(deflate: Bytes -> Bytes, entries: seq<Entry>) returns (locals: Result, centrals: Result)
    ensures locals.Ok? <==> EntriesFit(Zip(deflate), entries)
    ensures locals.Ok? ==> locals == Ok(Locals(Zip(deflate), entries))
                           && centrals == Ok(Directory(Zip(deflate), entries))
  {
    ghost var f := Zip(deflate);
    var local, central, offset := [], [], 0;
    for i := 0 to |entries|
      invariant EntriesFit(f, entries[..i])
      invariant local == Locals(f, entries[..i])
      invariant central == Directory(f, entries[..i])
      invariant offset == |local|
    {
      OneEntryMore(f, entries, i);
      var l, c := WriteEntry(deflate, entries[i], offset);
      if l.Thrown? {
        return Thrown, Thrown;
      }
      local := local + l.bytes;
      central := central + c.bytes;
      offset := offset + |l.bytes|;
    }
    assert entries[..|entries|] == entries;
    return Ok(local), Ok(central);
  }

  /** The archive is written exactly when every number in it fits its field. */
  method MakeZip(deflate: Bytes -> Bytes, entries: seq<Entry>) returns (r: Result)
    ensures r.Ok? <==> Fits(Zip(deflate), entries)
    ensures r.Ok? ==> r.bytes == Archive(Zip(deflate), entries)
  {
    var locals, directory := WriteEntries(deflate, entries);
    if locals.Thrown? {
      return Thrown;
    }
    var eocd := WriteEndRecord(|entries|, |directory.bytes|, |locals.bytes|);
    if eocd.Thrown? {
      return Thrown;
    }
    return Ok(locals.bytes + directory.bytes + eocd.bytes);
  }
}
