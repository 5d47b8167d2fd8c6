/** The three records of a ZIP archive as bytes, little-endian (PKWARE APPNOTE sections 4.3.7, 4.3.12 and
    4.3.16), in the shape the writer and the reader both rely on. */
module ZipFormat {
  import opened Crc

  type Bytes = seq<Byte>

  const LIMIT16 := 0x1_0000
  const LIMIT32 := 0x1_0000_0000

  const LOCAL_SIGNATURE := 0x0403_4b50
  const CENTRAL_SIGNATURE := 0x0201_4b50
  const EOCD_SIGNATURE := 0x0605_4b50
  const METHOD_STORED := 0
  const METHOD_DEFLATED := 8

  function Le16(v: nat): (b: Bytes)
    ensures |b| == 2
  {
    [v % 0x100, v / 0x100 % 0x100]
  }

  function Le32(v: nat): (b: Bytes)
    ensures |b| == 4
  {
    var v1 := v / 0x100;
    var v2 := v1 / 0x100;
    var v3 := v2 / 0x100;
    [v % 0x100, v1 % 0x100, v2 % 0x100, v3 % 0x100]
  }

  function ReadUInt16LE(b: Bytes, at: nat): (v: nat)
    requires at + 2 <= |b|
    ensures v < LIMIT16
  {
    var b0: int, b1: int := b[at], b[at + 1];
    b0 + 0x100 * b1
  }

  function ReadUInt32LE(b: Bytes, at: nat): (v: nat)
    requires at + 4 <= |b|
    ensures v < LIMIT32
  {
    var b0: int, b1: int, b2: int, b3: int := b[at], b[at + 1], b[at + 2], b[at + 3];
    b0 + 0x100 * (b1 + 0x100 * (b2 + 0x100 * b3))
  }

  /** Reading a field where it was written gives the value back. */
  lemma Reads16(b: Bytes, at: nat, v: nat)
    requires at + 2 <= |b| && v < LIMIT16 && b[at..at + 2] == Le16(v)
    ensures ReadUInt16LE(b, at) == v
  {
    assert b[at] == b[at..at + 2][0] && b[at + 1] == b[at..at + 2][1];
  }

  lemma Reads32(b: Bytes, at: nat, v: nat)
    requires at + 4 <= |b| && v < LIMIT32 && b[at..at + 4] == Le32(v)
    ensures ReadUInt32LE(b, at) == v
  {
    var field := b[at..at + 4];
    assert b[at] == field[0] && b[at + 1] == field[1] && b[at + 2] == field[2] && b[at + 3] == field[3];
  }

  /** The fields of one entry that both of its headers carry. */
  datatype Meta = Meta(crc: nat, compressedSize: nat, size: nat, nameLength: nat)

  predicate MetaFits(m: Meta) {
    m.crc < LIMIT32 && m.compressedSize < LIMIT32 && m.size < LIMIT32 && m.nameLength < LIMIT16
  }

  function LocalHeader(m: Meta): (b: Bytes)
    ensures |b| == 30
  {
    Le32(LOCAL_SIGNATURE) + Le16(20) + Le16(0) + Le16(METHOD_DEFLATED) + Le32(0)
    + Le32(m.crc) + Le32(m.compressedSize) + Le32(m.size) + Le16(m.nameLength) + Le16(0)
  }

  function CentralHeader(m: Meta, offset: nat): (b: Bytes)
    ensures |b| == 46
  {
    Le32(CENTRAL_SIGNATURE) + Le16(20) + Le16(20) + Le16(0) + Le16(METHOD_DEFLATED) + Le32(0)
    + Le32(m.crc) + Le32(m.compressedSize) + Le32(m.size) + Le16(m.nameLength)
    + Le16(0) + Le16(0) + Le16(0) + Le16(0) + Le32(0) + Le32(offset)
  }

  function EndRecord(entries: nat, directoryLength: nat, offset: nat): (b: Bytes)
    ensures |b| == 22
  {
    Le32(EOCD_SIGNATURE) + Le16(0) + Le16(0) + Le16(entries) + Le16(entries)
    + Le32(directoryLength) + Le32(offset) + Le16(0)
  }

  // ----- What each record says, at the places a reader looks ----------------------------------------

  predicate SaysLocal(h: Bytes, m: Meta) {
    && |h| == 30
    && ReadUInt32LE(h, 0) == LOCAL_SIGNATURE && ReadUInt16LE(h, 8) == METHOD_DEFLATED
    && ReadUInt32LE(h, 14) == m.crc && ReadUInt32LE(h, 18) == m.compressedSize
    && ReadUInt32LE(h, 22) == m.size && ReadUInt16LE(h, 26) == m.nameLength
    && ReadUInt16LE(h, 28) == 0
  }

  predicate SaysCentral(h: Bytes, m: Meta, offset: nat) {
    && |h| == 46
    && ReadUInt32LE(h, 0) == CENTRAL_SIGNATURE && ReadUInt16LE(h, 10) == METHOD_DEFLATED
    && ReadUInt32LE(h, 16) == m.crc && ReadUInt32LE(h, 20) == m.compressedSize
    && ReadUInt32LE(h, 24) == m.size && ReadUInt16LE(h, 28) == m.nameLength
    && ReadUInt16LE(h, 30) == 0 && ReadUInt16LE(h, 32) == 0 && ReadUInt32LE(h, 42) == offset
  }

  predicate SaysEnd(h: Bytes, entries: nat, directoryLength: nat, offset: nat) {
    && |h| == 22
    && ReadUInt32LE(h, 0) == EOCD_SIGNATURE && ReadUInt16LE(h, 4) == 0
    && ReadUInt16LE(h, 10) == entries && ReadUInt32LE(h, 12) == directoryLength
    && ReadUInt32LE(h, 16) == offset
  }

  lemma LocalHeaderSays(m: Meta)
    requires MetaFits(m)
    ensures SaysLocal(LocalHeader(m), m)
  {
    var h := LocalHeader(m);
    assert h[0..4] == Le32(LOCAL_SIGNATURE);
    assert h[8..10] == Le16(METHOD_DEFLATED);
    assert h[14..18] == Le32(m.crc);
    assert h[18..22] == Le32(m.compressedSize);
    assert h[22..26] == Le32(m.size);
    assert h[26..28] == Le16(m.nameLength);
    assert h[28..30] == Le16(0);
    Reads32(h, 0, LOCAL_SIGNATURE);
    Reads16(h, 8, METHOD_DEFLATED);
    Reads32(h, 14, m.crc);
    Reads32(h, 18, m.compressedSize);
    Reads32(h, 22, m.size);
    Reads16(h, 26, m.nameLength);
    Reads16(h, 28, 0);
  }

  lemma CentralHeaderSays(m: Meta, offset: nat)
    requires MetaFits(m) && offset < LIMIT32
    ensures SaysCentral(CentralHeader(m, offset), m, offset)
  {
    var h := CentralHeader(m, offset);
    assert h[0..4] == Le32(CENTRAL_SIGNATURE);
    assert h[10..12] == Le16(METHOD_DEFLATED);
    assert h[16..20] == Le32(m.crc);
    assert h[20..24] == Le32(m.compressedSize);
    assert h[24..28] == Le32(m.size);
    assert h[28..30] == Le16(m.nameLength);
    assert h[30..32] == Le16(0);
    assert h[32..34] == Le16(0);
    assert h[42..46] == Le32(offset);
    Reads32(h, 0, CENTRAL_SIGNATURE);
    Reads16(h, 10, METHOD_DEFLATED);
    Reads32(h, 16, m.crc);
    Reads32(h, 20, m.compressedSize);
    Reads32(h, 24, m.size);
    Reads16(h, 28, m.nameLength);
    Reads16(h, 30, 0);
    Reads16(h, 32, 0);
    Reads32(h, 42, offset);
  }

  lemma EndRecordSays(entries: nat, directoryLength: nat, offset: nat)
    requires entries < LIMIT16 && directoryLength < LIMIT32 && offset < LIMIT32
    ensures SaysEnd(EndRecord(entries, directoryLength, offset), entries, directoryLength, offset)
  {
    var h := EndRecord(entries, directoryLength, offset);
    assert h[0..4] == Le32(EOCD_SIGNATURE);
    assert h[4..6] == Le16(0);
    assert h[10..12] == Le16(entries);
    assert h[12..16] == Le32(directoryLength);
    assert h[16..20] == Le32(offset);
    Reads32(h, 0, EOCD_SIGNATURE);
    Reads16(h, 4, 0);
    Reads16(h, 10, entries);
    Reads32(h, 12, directoryLength);
    Reads32(h, 16, offset);
  }

  /** A record begins with the letters PK and the two bytes that say which it is. */
  predicate Signed(b: Bytes, at: int, first: Byte, second: Byte) {
    0 <= at && at + 4 <= |b| && b[at] == 0x50 && b[at + 1] == 0x4b && b[at + 2] == first && b[at + 3] == second
  }

  lemma SignaturesAreBytes(b: Bytes, at: nat)
    requires at + 4 <= |b|
    ensures ReadUInt32LE(b, at) == LOCAL_SIGNATURE <==> Signed(b, at, 3, 4)
    ensures ReadUInt32LE(b, at) == CENTRAL_SIGNATURE <==> Signed(b, at, 1, 2)
    ensures ReadUInt32LE(b, at) == EOCD_SIGNATURE <==> Signed(b, at, 5, 6)
  {
  }

  /** What no entry changes: version 2.0, no flags, method 8, no time, no extra field, comment, disk or attributes. */
  lemma LocalHeaderFollowsTheFormat(m: Meta)
    ensures var h := LocalHeader(m);
            && Signed(h, 0, 3, 4) && h[4] == 20 && h[5] == 0 && ReadUInt16LE(h, 4) == 20 && ReadUInt16LE(h, 6) == 0
            && ReadUInt16LE(h, 8) == 8 && ReadUInt32LE(h, 10) == 0 && ReadUInt16LE(h, 28) == 0
  {
  }

  lemma CentralHeaderFollowsTheFormat(m: Meta, offset: nat)
    ensures var h := CentralHeader(m, offset);
            && Signed(h, 0, 1, 2) && ReadUInt16LE(h, 4) == 20 && ReadUInt16LE(h, 6) == 20 && ReadUInt16LE(h, 8) == 0
            && ReadUInt16LE(h, 10) == 8 && ReadUInt32LE(h, 12) == 0 && ReadUInt16LE(h, 30) == 0
            && ReadUInt16LE(h, 32) == 0 && ReadUInt16LE(h, 34) == 0 && ReadUInt16LE(h, 36) == 0 && ReadUInt32LE(h, 38) == 0
  {
  }

  /** One disk, both counts the same, and no comment. */
  lemma EndRecordFollowsTheFormat(entries: nat, directoryLength: nat, offset: nat)
    requires entries < 0x1_0000
    ensures var h := EndRecord(entries, directoryLength, offset);
            && Signed(h, 0, 5, 6) && ReadUInt16LE(h, 4) == 0 && ReadUInt16LE(h, 6) == 0
            && ReadUInt16LE(h, 8) == entries && ReadUInt16LE(h, 10) == entries && ReadUInt16LE(h, 20) == 0
  {
  }

  /** A field of a record reads the same inside a longer buffer. */
  lemma ReadsInside(b: Bytes, at: nat, part: Bytes, field: nat)
    requires at + |part| <= |b| && b[at..at + |part|] == part
    ensures field + 2 <= |part| ==> ReadUInt16LE(b, at + field) == ReadUInt16LE(part, field)
    ensures field + 4 <= |part| ==> ReadUInt32LE(b, at + field) == ReadUInt32LE(part, field)
  {
    assert forall i :: 0 <= i < |part| ==> b[at + i] == part[i];
  }

  // ----- The format, as its parts -------------------------------------------------------------------

  /** How an archive is put together: the compression and checksum, and the three records. */
  datatype Format = Format(
    deflate: Bytes -> Bytes,
    crc: Bytes -> nat,
    local: Meta -> Bytes,
    central: (Meta, nat) -> Bytes,
    end: (nat, nat, nat) -> Bytes)

  predicate LocalSays(f: Format, m: Meta) {
    |f.local(m)| == 30 && (MetaFits(m) ==> SaysLocal(f.local(m), m))
  }

  predicate CentralSays(f: Format, m: Meta, offset: nat) {
    && |f.central(m, offset)| == 46
    && (MetaFits(m) && offset < LIMIT32 ==> SaysCentral(f.central(m, offset), m, offset))
  }

  predicate EndSays(f: Format, n: nat, length: nat, offset: nat) {
    && |f.end(n, length, offset)| == 22
    && (n < LIMIT16 && length < LIMIT32 && offset < LIMIT32 ==>
          SaysEnd(f.end(n, length, offset), n, length, offset))
  }

  /** Records are as long as the format says, and say what they were given. */
  ghost predicate Sound(f: Format) {
    && (forall m :: LocalSays(f, m))
    && (forall m, offset: nat :: CentralSays(f, m, offset))
    && (forall n: nat, length: nat, offset: nat :: EndSays(f, n, length, offset))
    && (forall b :: f.crc(b) < LIMIT32)
  }

  /** The ZIP format, over the runtime's raw deflate. */
  function Zip(deflate: Bytes -> Bytes): Format {
    Format(deflate, b => Crc32Of(b), m => LocalHeader(m), (m, offset) => CentralHeader(m, offset),
           (n, length, offset) => EndRecord(n, length, offset))
  }

  lemma ZipIsSound(deflate: Bytes -> Bytes)
    ensures Sound(Zip(deflate))
  {
    var f := Zip(deflate);
    forall m ensures LocalSays(f, m) {
      if MetaFits(m) {
        LocalHeaderSays(m);
      }
    }
    forall m, offset: nat ensures CentralSays(f, m, offset) {
      if MetaFits(m) && offset < LIMIT32 {
        CentralHeaderSays(m, offset);
      }
    }
    forall n: nat, length: nat, offset: nat ensures EndSays(f, n, length, offset) {
      if n < LIMIT16 && length < LIMIT32 && offset < LIMIT32 {
        EndRecordSays(n, length, offset);
      }
    }
  }
}
