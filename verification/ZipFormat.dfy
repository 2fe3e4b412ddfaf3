/**
 The records of a classic ZIP archive (sections 4.3.7, 4.3.12 and 4.3.16 of the PKWARE
 APPNOTE), printed and read back, and the per-entry guards of the HWPX safe editor.
 Compression, checksums and name encodings are foreign: they are function values in a `Codec`.
 */
module ZipFormat {
  import opened Basics
  import opened Bytes

  /** The foreign functions: zlib at level 6 with a raw stream, CRC-32 and Python's text codecs. */
  datatype Codec = Codec(
    deflate: Bytes -> Bytes,
    inflate: Bytes -> Option<Bytes>,
    crc32: Bytes -> U32,
    encodeUtf8: string -> Option<Bytes>,
    decodeUtf8: Bytes -> Option<string>,
    decodeCp437: Bytes -> string)
  {
    /** What the model relies on: each decoder undoes its encoder, and ASCII means the same in both code pages. */
    ghost predicate Lawful() {
      && (forall d :: inflate(deflate(d)) == Some(d) && |deflate(d)| > 0)
      && (forall n :: encodeUtf8(n).Some? ==>
            && decodeUtf8(encodeUtf8(n).value) == Some(n)
            && (IsAscii(encodeUtf8(n).value) ==> decodeCp437(encodeUtf8(n).value) == n))
    }
  }

  predicate IsAscii(b: Bytes) {
    forall i | 0 <= i < |b| :: b[i] < 0x80
  }

  const MAX_ARCHIVE_BYTES: nat := 512 * 1024 * 1024
  const MAX_ZIP_ENTRIES: nat := 10000
  const MAX_ENTRY_UNCOMPRESSED_BYTES: nat := 128 * 1024 * 1024
  const MAX_TOTAL_UNCOMPRESSED_BYTES: nat := 1024 * 1024 * 1024
  const MAX_COMPRESSION_RATIO: nat := 1000
  const STORED: U16 := 0
  const DEFLATED: U16 := 8

  const LOCAL_SIGNATURE: Bytes := [0x50, 0x4b, 0x03, 0x04]
  const CENTRAL_SIGNATURE: Bytes := [0x50, 0x4b, 0x01, 0x02]
  const EOCD_SIGNATURE: Bytes := [0x50, 0x4b, 0x05, 0x06]

  datatype ZipEntry = ZipEntry(
    name: string, nameBytes: Bytes,
    versionMadeBy: U16, versionNeeded: U16, flags: U16, compression: U16,
    modTime: U16, modDate: U16, crc: U32, compressedSize: U32, uncompressedSize: U32,
    diskStart: U16, internalAttr: U16, externalAttr: U32, localOffset: U32,
    localExtra: Bytes, centralExtra: Bytes, comment: Bytes,
    dataStart: nat, dataEnd: nat, spanEnd: nat)
  {
    /** The lengths fit the 16-bit fields that store them. */
    predicate Storable() {
      |nameBytes| < 0x1_0000 && |localExtra| < 0x1_0000 && |centralExtra| < 0x1_0000 && |comment| < 0x1_0000
    }

    /** What the central directory alone says about the entry. */
    function CentralView(): ZipEntry {
      this.(localExtra := [], dataStart := 0, dataEnd := 0, spanEnd := 0)
    }
  }

  // Central directory records

  /** Byte `i` of the fixed part; the editor always writes disk number 0. */
  function CentralByte(e: ZipEntry, i: nat): Byte
    requires e.Storable() && i < 46
  {
    if i < 4 then CENTRAL_SIGNATURE[i]
    else if i < 6 then ByteOf(e.versionMadeBy, i - 4)
    else if i < 8 then ByteOf(e.versionNeeded, i - 6)
    else if i < 10 then ByteOf(e.flags, i - 8)
    else if i < 12 then ByteOf(e.compression, i - 10)
    else if i < 14 then ByteOf(e.modTime, i - 12)
    else if i < 16 then ByteOf(e.modDate, i - 14)
    else if i < 20 then ByteOf(e.crc, i - 16)
    else if i < 24 then ByteOf(e.compressedSize, i - 20)
    else if i < 28 then ByteOf(e.uncompressedSize, i - 24)
    else if i < 30 then ByteOf(|e.nameBytes|, i - 28)
    else if i < 32 then ByteOf(|e.centralExtra|, i - 30)
    else if i < 34 then ByteOf(|e.comment|, i - 32)
    else if i < 36 then 0
    else if i < 38 then ByteOf(e.internalAttr, i - 36)
    else if i < 42 then ByteOf(e.externalAttr, i - 38)
    else ByteOf(e.localOffset, i - 42)
  }

  function CentralFixed(e: ZipEntry): (b: Bytes)
    requires e.Storable()
    ensures |b| == 46
  {
    seq(46, i requires 0 <= i < 46 => CentralByte(e, i))
  }

  function CentralRecord(e: ZipEntry): Bytes
    requires e.Storable()
  {
    CentralFixed(e) + e.nameBytes + e.centralExtra + e.comment
  }

  /** The length that a fixed part declares for the whole central record. */
  function CentralLength(dir: Bytes): nat
    requires |dir| >= 46
  {
    46 + U16At(dir, 28) as nat + U16At(dir, 30) as nat + U16At(dir, 32) as nat
  }

  function DecodeName(codec: Codec, nameBytes: Bytes, flags: U16): Option<string> {
    if Bit(flags, 0x0800) then codec.decodeUtf8(nameBytes) else Some(codec.decodeCp437(nameBytes))
  }

  /** The record at the start of `dir`, or None when it is malformed, truncated or its name does not decode. */
  function ReadCentral(codec: Codec, dir: Bytes): (r: Option<ZipEntry>)
    ensures r.Some? ==>
              |dir| >= 46 && |dir| >= CentralLength(dir) && r.value.Storable() && r.value == r.value.CentralView()
  {
    if |dir| < 46 || dir[..4] != CENTRAL_SIGNATURE || |dir| < CentralLength(dir) then None
    else
      var nameEnd := 46 + U16At(dir, 28) as nat;
      var extraEnd := nameEnd + U16At(dir, 30) as nat;
      var nameBytes := dir[46..nameEnd];
      match DecodeName(codec, nameBytes, U16At(dir, 8))
      case None => None
      case Some(name) =>
        Some(ZipEntry(
          name, nameBytes,
          U16At(dir, 4), U16At(dir, 6), U16At(dir, 8), U16At(dir, 10),
          U16At(dir, 12), U16At(dir, 14), U32At(dir, 16), U32At(dir, 20), U32At(dir, 24),
          U16At(dir, 34), U16At(dir, 36), U32At(dir, 38), U32At(dir, 42),
          [], dir[nameEnd..extraEnd], dir[extraEnd..CentralLength(dir)], 0, 0, 0))
  }

  // Local headers

  /** Byte `i` of the fixed part of a local header. */
  function LocalByte(e: ZipEntry, i: nat): Byte
    requires e.Storable() && i < 30
  {
    if i < 4 then LOCAL_SIGNATURE[i]
    else if i < 6 then ByteOf(e.versionNeeded, i - 4)
    else if i < 8 then ByteOf(e.flags, i - 6)
    else if i < 10 then ByteOf(e.compression, i - 8)
    else if i < 12 then ByteOf(e.modTime, i - 10)
    else if i < 14 then ByteOf(e.modDate, i - 12)
    else if i < 18 then ByteOf(e.crc, i - 14)
    else if i < 22 then ByteOf(e.compressedSize, i - 18)
    else if i < 26 then ByteOf(e.uncompressedSize, i - 22)
    else if i < 28 then ByteOf(|e.nameBytes|, i - 26)
    else ByteOf(|e.localExtra|, i - 28)
  }

  function LocalFixed(e: ZipEntry): (b: Bytes)
    requires e.Storable()
    ensures |b| == 30
  {
    seq(30, i requires 0 <= i < 30 => LocalByte(e, i))
  }

  function LocalHead(e: ZipEntry): Bytes
    requires e.Storable()
  {
    LocalFixed(e) + e.nameBytes + e.localExtra
  }

  // End of central directory

  function EocdFixed(count: U16, size: U32, offset: U32, commentLength: U16): (b: Bytes)
    ensures |b| == 22
  {
    [0x50, 0x4b, 0x05, 0x06, 0, 0, 0, 0,
     ByteOf(count, 0), ByteOf(count, 1), ByteOf(count, 0), ByteOf(count, 1),
     ByteOf(size, 0), ByteOf(size, 1), ByteOf(size, 2), ByteOf(size, 3),
     ByteOf(offset, 0), ByteOf(offset, 1), ByteOf(offset, 2), ByteOf(offset, 3),
     ByteOf(commentLength, 0), ByteOf(commentLength, 1)]
  }

  // Guards

  /** Python's `flags & mask` for a one-bit mask. */
  predicate Bit(flags: U16, mask: nat)
    requires mask > 0
  {
    (flags / mask) % 2 == 1
  }

  /** Extra fields are whole (id, length, payload) records and none is the ZIP64 record. */
  predicate ExtraOk(extra: Bytes) {
    extra != [] ==>
      && |extra| >= 4
      && 4 + U16At(extra, 2) <= |extra|
      && U16At(extra, 0) != 0x0001
      && ExtraOk(extra[4 + U16At(extra, 2)..])
  }

  predicate FeaturesOk(flags: U16, compression: U16, diskStart: U16, extra: Bytes) {
    && !Bit(flags, 0x0001) && !Bit(flags, 0x0040) && !Bit(flags, 0x2000) && !Bit(flags, 0x0008)
    && (compression == STORED || compression == DEFLATED)
    && diskStart == 0
    && ExtraOk(extra)
  }

  predicate IsAsciiLetter(c: char) {
    'A' <= c <= 'Z' || 'a' <= c <= 'z'
  }

  /** Some "/"-separated part of the name, starting at `i`, is "..". */
  predicate ParentPartAt(name: string, i: nat)
    requires i < |name|
  {
    && i + 2 <= |name| && name[i] == '.' && name[i + 1] == '.'
    && (i == 0 || name[i - 1] == '/')
    && (i + 2 == |name| || name[i + 2] == '/')
  }

  predicate NameOk(name: string) {
    && name != "" && '\0' !in name && '\\' !in name && name[0] != '/'
    && !(|name| >= 2 && IsAsciiLetter(name[0]) && name[1] == ':')
    && !(exists i | 0 <= i < |name| :: ParentPartAt(name, i))
  }

  /** The size limits of one entry; the source divides floats, whose rounding cannot reach the limit. */
  predicate SizesOk(compressedSize: nat, uncompressedSize: nat) {
    && uncompressedSize <= MAX_ENTRY_UNCOMPRESSED_BYTES
    && (uncompressedSize > 0 ==> compressedSize > 0 && uncompressedSize <= MAX_COMPRESSION_RATIO * compressedSize)
  }

  predicate Admissible(e: ZipEntry) {
    && FeaturesOk(e.flags, e.compression, e.diskStart, e.centralExtra)
    && SizesOk(e.compressedSize, e.uncompressedSize)
    && NameOk(e.name)
  }

  /** The loop of the extra-field guard accepts exactly the well-formed extra fields. */
  method GuardExtra(extra: Bytes) returns (ok: bool)
    ensures ok == ExtraOk(extra)
  {
    var cursor := 0;
    while cursor < |extra|
      invariant 0 <= cursor <= |extra|
      invariant ExtraOk(extra) == ExtraOk(extra[cursor..])
    {
      if cursor + 4 > |extra| {
        return false;
      }
      var fieldId, length := U16At(extra, cursor), U16At(extra, cursor + 2);
      assert fieldId == U16At(extra[cursor..], 0) && length == U16At(extra[cursor..], 2);
      cursor := cursor + 4;
      if cursor + length > |extra| {
        return false;
      }
      if fieldId == 0x0001 {
        return false;
      }
      assert extra[cursor - 4..][4 + length..] == extra[cursor + length..];
      cursor := cursor + length;
    }
    return true;
  }

  // Printing and reading undo each other

  lemma Field16(b: Bytes, i: nat, n: U16)
    requires i + 2 <= |b| && b[i] == ByteOf(n, 0) && b[i + 1] == ByteOf(n, 1)
    ensures U16At(b, i) == n
  {
  }

  lemma Field32(b: Bytes, i: nat, n: U32)
    requires i + 4 <= |b| && b[i] == ByteOf(n, 0) && b[i + 1] == ByteOf(n, 1)
    requires b[i + 2] == ByteOf(n, 2) && b[i + 3] == ByteOf(n, 3)
    ensures U32At(b, i) == n
  {
    FourBytes(n);
  }

  /** Whatever follows it, a printed central record is read back as the entry the directory describes. */
  lemma CentralRoundTrip(codec: Codec, e: ZipEntry, rest: Bytes)
    requires e.Storable() && e.diskStart == 0
    requires DecodeName(codec, e.nameBytes, e.flags) == Some(e.name)
    ensures ReadCentral(codec, CentralRecord(e) + rest) == Some(e.CentralView())
    ensures CentralLength(CentralRecord(e) + rest) == |CentralRecord(e)|
  {
    hide CentralRecord, CentralFixed, U16At, U32At, DecodeName;
    CentralParts(e, rest);
    CentralFieldsRoundTrip(e, CentralRecord(e) + rest);
  }

  /** The parts of a printed central record, whatever follows it. */
  lemma CentralParts(e: ZipEntry, rest: Bytes)
    requires e.Storable()
    ensures var dir, n, x := CentralRecord(e) + rest, |e.nameBytes|, |e.centralExtra|;
            && |CentralRecord(e)| == 46 + n + x + |e.comment| && dir[..4] == CENTRAL_SIGNATURE
              && dir[..46] == CentralFixed(e)
            && dir[46..46 + n] == e.nameBytes && dir[46 + n..46 + n + x] == e.centralExtra
            && dir[46 + n + x..|CentralRecord(e)|] == e.comment
  {
    assert CentralFixed(e)[..4] == CENTRAL_SIGNATURE;
    hide CentralFixed;
    assert (CentralRecord(e) + rest)[..4] == CentralFixed(e)[..4];
  }

  lemma CentralFieldsRoundTrip(e: ZipEntry, dir: Bytes)
    requires e.Storable() && |dir| >= 46 && dir[..46] == CentralFixed(e)
    ensures U16At(dir, 4) == e.versionMadeBy && U16At(dir, 6) == e.versionNeeded
    ensures U16At(dir, 8) == e.flags && U16At(dir, 10) == e.compression
    ensures U16At(dir, 12) == e.modTime && U16At(dir, 14) == e.modDate
    ensures U32At(dir, 16) == e.crc && U32At(dir, 20) == e.compressedSize && U32At(dir, 24) == e.uncompressedSize
    ensures U16At(dir, 28) == |e.nameBytes| && U16At(dir, 30) == |e.centralExtra| && U16At(dir, 32) == |e.comment|
    ensures U16At(dir, 34) == 0 && U16At(dir, 36) == e.internalAttr
    ensures U32At(dir, 38) == e.externalAttr && U32At(dir, 42) == e.localOffset
  {
    assert forall i | 0 <= i < 46 :: dir[i] == CentralFixed(e)[i];
    Field16(dir, 4, e.versionMadeBy);
    Field16(dir, 6, e.versionNeeded);
    Field16(dir, 8, e.flags);
    Field16(dir, 10, e.compression);
    Field16(dir, 12, e.modTime);
    Field16(dir, 14, e.modDate);
    Field32(dir, 16, e.crc);
    Field32(dir, 20, e.compressedSize);
    Field32(dir, 24, e.uncompressedSize);
    Field16(dir, 28, |e.nameBytes|);
    Field16(dir, 30, |e.centralExtra|);
    Field16(dir, 32, |e.comment|);
    Field16(dir, 36, e.internalAttr);
    Field32(dir, 38, e.externalAttr);
    Field32(dir, 42, e.localOffset);
  }

  lemma Split16(b: Bytes, i: nat)
    requires i + 2 <= |b|
    ensures b[i] == ByteOf(U16At(b, i), 0) && b[i + 1] == ByteOf(U16At(b, i), 1)
  {
  }

  lemma Split32(b: Bytes, i: nat)
    requires i + 4 <= |b|
    ensures b[i] == ByteOf(U32At(b, i), 0) && b[i + 1] == ByteOf(U32At(b, i), 1)
    ensures b[i + 2] == ByteOf(U32At(b, i), 2) && b[i + 3] == ByteOf(U32At(b, i), 3)
  {
    LowByte(b[i], b[i + 1] as int + 0x100 * (b[i + 2] as int) + 0x1_0000 * (b[i + 3] as int));
    LowByte(b[i + 1], b[i + 2] as int + 0x100 * (b[i + 3] as int));
    LowByte(b[i + 2], b[i + 3]);
    SameQuotients(U32At(b, i));
  }

  lemma LowByte(low: Byte, high: nat)
    ensures (low as int + 0x100 * high) % 0x100 == low && (low as int + 0x100 * high) / 0x100 == high
  {
  }

  lemma SameQuotients(n: nat)
    ensures n / 0x1_0000 == (n / 0x100) / 0x100 && n / 0x100_0000 == ((n / 0x100) / 0x100) / 0x100
  {
  }

  /** A record that was read is exactly the bytes that printing the entry produces. */
  lemma CentralReadPrints(codec: Codec, dir: Bytes)
    requires ReadCentral(codec, dir).Some? && ReadCentral(codec, dir).value.diskStart == 0
    ensures CentralRecord(ReadCentral(codec, dir).value) == dir[..CentralLength(dir)]
    ensures DecodeName(codec, ReadCentral(codec, dir).value.nameBytes, ReadCentral(codec, dir).value.flags)
            == Some(ReadCentral(codec, dir).value.name)
  {
    hide CentralFixed, U16At, U32At, DecodeName;
    var e := ReadCentral(codec, dir).value;
    CentralMatchPrints(e, dir);
  }

  lemma ZeroBytes()
    ensures ByteOf(0, 0) == 0 && ByteOf(0, 1) == 0
  {
  }

  lemma CentralMatchPrints(e: ZipEntry, dir: Bytes)
    requires e.Storable() && |dir| >= 46 && dir[..4] == CENTRAL_SIGNATURE
    requires U16At(dir, 4) == e.versionMadeBy && U16At(dir, 6) == e.versionNeeded
    requires U16At(dir, 8) == e.flags && U16At(dir, 10) == e.compression
    requires U16At(dir, 12) == e.modTime && U16At(dir, 14) == e.modDate
    requires U32At(dir, 16) == e.crc && U32At(dir, 20) == e.compressedSize && U32At(dir, 24) == e.uncompressedSize
    requires U16At(dir, 28) == |e.nameBytes| && U16At(dir, 30) == |e.centralExtra| && U16At(dir, 32) == |e.comment|
    requires U16At(dir, 34) == 0 && U16At(dir, 36) == e.internalAttr
    requires U32At(dir, 38) == e.externalAttr && U32At(dir, 42) == e.localOffset
    ensures dir[..46] == CentralFixed(e)
  {
    hide U16At, U32At, ByteOf;
    ZeroBytes();
    assert forall i | 0 <= i < 4 :: dir[i] == dir[..4][i];
    Split16(dir, 4); Split16(dir, 6); Split16(dir, 8); Split16(dir, 10); Split16(dir, 12); Split16(dir, 14);
    assert forall i | 0 <= i < 16 :: dir[i] == CentralByte(e, i);
    Split32(dir, 16); Split32(dir, 20); Split32(dir, 24);
    assert forall i | 16 <= i < 28 :: dir[i] == CentralByte(e, i);
    Split16(dir, 28); Split16(dir, 30); Split16(dir, 32); Split16(dir, 34); Split16(dir, 36);
    assert forall i | 28 <= i < 38 :: dir[i] == CentralByte(e, i);
    Split32(dir, 38); Split32(dir, 42);
  }

  /** The header at the start of `b` carries the fields of `e`, in the comparison the editor makes. */
  predicate LocalFieldsMatch(e: ZipEntry, b: Bytes)
    requires |b| >= 30
  {
    && U16At(b, 4) == e.versionNeeded && U16At(b, 6) == e.flags && U16At(b, 8) == e.compression
    && U16At(b, 10) == e.modTime && U16At(b, 12) == e.modDate && U32At(b, 14) == e.crc
    && U32At(b, 18) == e.compressedSize && U32At(b, 22) == e.uncompressedSize
  }

  lemma LocalRoundTrip(e: ZipEntry, b: Bytes)
    requires e.Storable() && |b| >= 30 && b[..30] == LocalFixed(e)
    ensures b[..4] == LOCAL_SIGNATURE && LocalFieldsMatch(e, b)
    ensures U16At(b, 26) == |e.nameBytes| && U16At(b, 28) == |e.localExtra|
  {
    assert forall i | 0 <= i < 30 :: b[i] == LocalFixed(e)[i];
    Field16(b, 4, e.versionNeeded);
    Field16(b, 6, e.flags);
    Field16(b, 8, e.compression);
    Field16(b, 10, e.modTime);
    Field16(b, 12, e.modDate);
    Field32(b, 14, e.crc);
    Field32(b, 18, e.compressedSize);
    Field32(b, 22, e.uncompressedSize);
    Field16(b, 26, |e.nameBytes|);
    Field16(b, 28, |e.localExtra|);
    assert b[..4] == LOCAL_SIGNATURE;
  }

  lemma LocalMatchPrints(e: ZipEntry, b: Bytes)
    requires e.Storable() && |b| >= 30 && b[..4] == LOCAL_SIGNATURE && LocalFieldsMatch(e, b)
    requires U16At(b, 26) == |e.nameBytes| && U16At(b, 28) == |e.localExtra|
    ensures b[..30] == LocalFixed(e)
  {
    Split16(b, 4); Split16(b, 6); Split16(b, 8); Split16(b, 10); Split16(b, 12);
    Split32(b, 14); Split32(b, 18); Split32(b, 22); Split16(b, 26); Split16(b, 28);
    assert forall i | 0 <= i < 4 :: b[i] == b[..4][i];
  }

  lemma EocdRoundTrip(b: Bytes, count: U16, size: U32, offset: U32, commentLength: U16)
    requires |b| >= 22 && b[..22] == EocdFixed(count, size, offset, commentLength)
    ensures b[..4] == EOCD_SIGNATURE && U16At(b, 4) == 0 && U16At(b, 6) == 0
    ensures U16At(b, 8) == count && U16At(b, 10) == count
    ensures U32At(b, 12) == size && U32At(b, 16) == offset && U16At(b, 20) == commentLength
  {
    assert forall i | 0 <= i < 22 :: b[i] == EocdFixed(count, size, offset, commentLength)[i];
    Field16(b, 8, count);
    Field16(b, 10, count);
    Field32(b, 12, size);
    Field32(b, 16, offset);
    Field16(b, 20, commentLength);
    assert b[..4] == EOCD_SIGNATURE;
  }

  lemma EocdReadPrints(b: Bytes)
    requires |b| >= 22 && b[..4] == EOCD_SIGNATURE
    requires U16At(b, 4) == 0 && U16At(b, 6) == 0 && U16At(b, 8) == U16At(b, 10)
    ensures b[..22] == EocdFixed(U16At(b, 10), U32At(b, 12), U32At(b, 16), U16At(b, 20))
  {
    Split16(b, 8); Split16(b, 10); Split32(b, 12); Split32(b, 16); Split16(b, 20);
    assert forall i | 0 <= i < 4 :: b[i] == b[..4][i];
  }

  // Entry names, part by part

  /** The name with these parts between its slashes. */
  function Joined(parts: seq<string>): string
    requires parts != []
  {
    if |parts| == 1 then parts[0] else parts[0] + "/" + Joined(parts[1..])
  }

  ghost predicate HasParentPart(name: string) {
    exists i | 0 <= i < |name| :: ParentPartAt(name, i)
  }

  lemma {:induction false} JoinedHas(parts: seq<string>, c: char)
    requires parts != [] && c != '/'
    ensures c in Joined(parts) <==> exists p :: p in parts && c in p
  {
    if |parts| == 1 {
      assert parts == [parts[0]];
    } else {
      JoinedHas(parts[1..], c);
      assert parts == [parts[0]] + parts[1..];
      assert c !in "/";
      assert c in Joined(parts) <==> c in parts[0] || c in Joined(parts[1..]);
      if exists p :: p in parts && c in p {
        var p :| p in parts && c in p;
        assert p == parts[0] || p in parts[1..];
      }
    }
  }

  /** A parent part of a name is its first part or one of the rest. */
  lemma ParentFirstOrLater(first: string, rest: string)
    requires '/' !in first
    ensures HasParentPart(first + "/" + rest) <==> first == ".." || HasParentPart(rest)
  {
    var name, n := first + "/" + rest, |first| + 1;
    assert name[n - 1] == '/' && forall i | 0 <= i < n - 1 :: name[i] == first[i] && first[i] in first;
    assert forall i | 0 <= i < |rest| :: name[n + i] == rest[i];
    assert forall i | 0 <= i < |rest| :: ParentPartAt(name, n + i) == ParentPartAt(rest, i);
    assert forall i | 0 <= i < n :: ParentPartAt(name, i) <==> i == 0 && first == "..";
    if HasParentPart(name) {
      var i :| 0 <= i < |name| && ParentPartAt(name, i);
      if i >= n {
        assert ParentPartAt(rest, i - n);
      }
    }
    if HasParentPart(rest) {
      var i :| 0 <= i < |rest| && ParentPartAt(rest, i);
      assert ParentPartAt(name, n + i);
    }
    if first == ".." {
      assert ParentPartAt(name, 0);
    }
  }

  lemma ParentAlone(part: string)
    requires '/' !in part
    ensures HasParentPart(part) <==> part == ".."
  {
    assert forall k | 0 <= k < |part| :: part[k] in part;
    if part == ".." {
      assert ParentPartAt(part, 0);
    }
  }

  lemma {:induction false} ParentParts(parts: seq<string>)
    requires parts != [] && forall p | p in parts :: '/' !in p
    ensures HasParentPart(Joined(parts)) <==> ".." in parts
  {
    hide HasParentPart;
    if |parts| == 1 {
      ParentAlone(parts[0]);
      assert parts == [parts[0]];
    } else {
      ParentParts(parts[1..]);
      ParentFirstOrLater(parts[0], Joined(parts[1..]));
      assert parts == [parts[0]] + parts[1..];
    }
  }

  /**
   The guard accepts a name exactly when no part is "..", the first part is neither empty nor begins with a
   drive letter, and no part holds a NUL or a backslash.
   */
  lemma NameOkByParts(parts: seq<string>)
    requires parts != [] && forall p | p in parts :: '/' !in p
    ensures NameOk(Joined(parts)) <==>
            && ".." !in parts && parts[0] != ""
            && !(|parts[0]| >= 2 && IsAsciiLetter(parts[0][0]) && parts[0][1] == ':')
            && forall p | p in parts :: '\0' !in p && '\\' !in p
  {
    ParentParts(parts);
    JoinedHas(parts, '\0');
    JoinedHas(parts, '\\');
    FirstPart(parts);
    hide ParentPartAt, Joined;
    assert NameOk(Joined(parts)) <==>
           && Joined(parts) != "" && '\0' !in Joined(parts) && '\\' !in Joined(parts) && Joined(parts)[0] != '/'
           && !(|Joined(parts)| >= 2 && IsAsciiLetter(Joined(parts)[0]) && Joined(parts)[1] == ':')
           && !HasParentPart(Joined(parts));
  }

  lemma FirstPart(parts: seq<string>)
    requires parts != [] && forall p | p in parts :: '/' !in p
    ensures Joined(parts) != "" && Joined(parts)[0] != '/' <==> parts[0] != ""
    ensures |Joined(parts)| >= 2 && IsAsciiLetter(Joined(parts)[0]) && Joined(parts)[1] == ':' <==>
            |parts[0]| >= 2 && IsAsciiLetter(parts[0][0]) && parts[0][1] == ':'
  {
    assert parts[0] in parts;
    if parts[0] != "" {
      assert Joined(parts)[0] == parts[0][0] && parts[0][0] in parts[0];
    }
  }

  // Extra fields, record by record

  predicate AllWritable(records: seq<(U16, Bytes)>) {
    forall i | 0 <= i < |records| :: |records[i].1| < 0x1_0000
  }

  /** The extra field with these records: a header ID, the length of the data and the data. */
  function ExtraOf(records: seq<(U16, Bytes)>): Bytes
    requires AllWritable(records)
  {
    if records == [] then []
    else
      var (id, data) := records[0];
      [ByteOf(id, 0), ByteOf(id, 1), ByteOf(|data|, 0), ByteOf(|data|, 1)] + data + ExtraOf(records[1..])
  }

  lemma ExtraFront(id: U16, data: Bytes, rest: Bytes)
    requires |data| < 0x1_0000
    ensures var extra := [ByteOf(id, 0), ByteOf(id, 1), ByteOf(|data|, 0), ByteOf(|data|, 1)] + data + rest;
            && U16At(extra, 0) == id && U16At(extra, 2) == |data| && extra[4 + |data|..] == rest
            && |extra| == 4 + |data| + |rest|
  {
  }

  /** Of whole records the guard refuses exactly those with a ZIP64 record among them. */
  lemma {:induction false} ExtraByRecords(records: seq<(U16, Bytes)>)
    requires AllWritable(records)
    ensures ExtraOk(ExtraOf(records)) <==> forall i | 0 <= i < |records| :: records[i].0 != 1
  {
    hide ByteOf, U16At;
    if records != [] {
      ExtraFront(records[0].0, records[0].1, ExtraOf(records[1..]));
      ExtraByRecords(records[1..]);
      assert forall i | 0 < i < |records| :: records[i] == records[1..][i - 1];
    }
  }

  /** And it accepts nothing but whole records. */
  lemma {:induction false} ExtraIsRecords(extra: Bytes) returns (records: seq<(U16, Bytes)>)
    requires ExtraOk(extra)
    ensures AllWritable(records) && ExtraOf(records) == extra
  {
    if extra == [] {
      records := [];
    } else {
      var id, data := U16At(extra, 0), extra[4..4 + U16At(extra, 2)];
      var rest := ExtraIsRecords(extra[4 + U16At(extra, 2)..]);
      records := [(id, data)] + rest;
      assert records[1..] == rest;
      assert extra == extra[..4] + data + extra[4 + |data|..];
      FourFront(extra, id, |data|);
    }
  }

  lemma FourFront(extra: Bytes, id: U16, length: U16)
    requires |extra| >= 4 && U16At(extra, 0) == id && U16At(extra, 2) == length
    ensures extra[..4] == [ByteOf(id, 0), ByteOf(id, 1), ByteOf(length, 0), ByteOf(length, 1)]
  {
  }

  // General purpose flags, bit by bit

  /** The number with these bits, the lowest first. */
  function Binary(bits: seq<bool>): nat {
    if bits == [] then 0 else (if bits[0] then 1 else 0) + 2 * Binary(bits[1..])
  }

  function Power(k: nat): nat {
    if k == 0 then 1 else 2 * Power(k - 1)
  }

  lemma Doubled(p: nat, n: nat)
    ensures 2 * p * n == 2 * (p * n)
  {
  }

  lemma {:induction false} BinarySplit(bits: seq<bool>, k: nat)
    requires k <= |bits|
    ensures Binary(bits[..k]) < Power(k)
    ensures Binary(bits) == Binary(bits[..k]) + Power(k) * Binary(bits[k..])
  {
    if k == 0 {
      assert bits[..0] == [] && bits[0..] == bits;
    } else {
      BinarySplit(bits[1..], k - 1);
      assert bits[..k][1..] == bits[1..][..k - 1] && bits[k..] == bits[1..][k - 1..];
      Doubled(Power(k - 1), Binary(bits[k..]));
    }
  }

  /** What the guard's mask tells about a bit. */
  lemma BitAt(bits: seq<bool>, k: nat, mask: nat)
    requires |bits| == 16 && (k, mask) in {(0, 0x1), (3, 0x8), (6, 0x40), (13, 0x2000)}
    ensures Binary(bits) < 0x1_0000
    ensures Bit(Binary(bits), mask) <==> bits[k]
  {
    BinarySplit(bits, 16);
    BinarySplit(bits, k);
    Powers();
    HighBit(bits, k);
    assert bits[..16] == bits;
    hide *;
    var low, high := Binary(bits[..k]), Binary(bits[k..]);
    Masked(Binary(bits), mask, low, high);
  }

  lemma HighBit(bits: seq<bool>, k: nat)
    requires k < |bits|
    ensures Binary(bits[k..]) % 2 == 1 <==> bits[k]
  {
  }

  /** Dividing by the mask removes the bits below it. */
  lemma Masked(n: U16, mask: nat, low: nat, high: nat)
    requires mask in {0x1, 0x8, 0x40, 0x2000} && n == low + mask * high && low < mask
    ensures Bit(n, mask) <==> high % 2 == 1
  {
    if mask == 0x1 {
      assert n / 0x1 == high;
    } else if mask == 0x8 {
      assert n / 0x8 == high;
    } else if mask == 0x40 {
      assert n / 0x40 == high;
    } else {
      assert n / 0x2000 == high;
    }
  }

  lemma Powers()
    ensures Power(0) == 0x1 && Power(3) == 0x8 && Power(6) == 0x40 && Power(13) == 0x2000 && Power(16) == 0x1_0000
  {
    assert Power(5) == 0x20;
    assert Power(8) == 0x100;
    assert Power(10) == 0x400;
  }

  /**
   Encryption (bits 0, 6 and 13 of section 4.4.4), data descriptors (bit 3), other methods than stored and
   deflated, and further disks are refused, and no other bit matters.
   */
  lemma FeaturesByBits(bits: seq<bool>, compression: U16, diskStart: U16, extra: Bytes)
    requires |bits| == 16
    ensures Binary(bits) < 0x1_0000
    ensures FeaturesOk(Binary(bits), compression, diskStart, extra) <==>
            && !bits[0] && !bits[3] && !bits[6] && !bits[13]
            && compression in {0, 8} && diskStart == 0 && ExtraOk(extra)
  {
    hide ExtraOk, Binary, Bit;
    BitAt(bits, 0, 0x1);
    BitAt(bits, 3, 0x8);
    BitAt(bits, 6, 0x40);
    BitAt(bits, 13, 0x2000);
  }
}
