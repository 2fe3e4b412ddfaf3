/**
 A second EOCD signature behind the real one. The search goes backwards, so it would be taken for the
 record; here it is shown where one can begin, and that the inspector then accepts nothing at all.
 */
module ZipSignature {
  import opened Basics
  import opened Bytes
  import opened ZipFormat
  import opened ZipInspect
  import opened ZipLayout
  import opened ZipAcceptance
  import opened ZipRepack
  import opened ZipRoundTrip

  // Where a signature can begin inside the record

  /** The bytes from the EOCD record on. */
  function Ending(count: U16, size: U32, offset: U32, comment: Bytes): Bytes
    requires |comment| < 0x1_0000
  {
    EocdFixed(count, size, offset, |comment|) + comment
  }

  /**
   The fields spell a signature: the size does, the offset does, or one of them does together with the
   first byte of the field behind it.
   */
  predicate FieldsSpellSignature(size: int, offset: int, commentLength: int) {
    || size == 0x0605_4B50
    || (size / 0x100 == 0x05_4B50 && offset % 0x100 == 6)
    || offset == 0x0605_4B50
    || (offset / 0x100 == 0x05_4B50 && commentLength % 0x100 == 6)
  }

  lemma Spelled(t: Bytes, k: nat)
    requires SignatureAt(t, EOCD_SIGNATURE, k)
    ensures t[k] == 0x50 && t[k + 1] == 0x4b && t[k + 2] == 5 && t[k + 3] == 6
  {
    var read := t[k..k + 4];
    assert read[0] == t[k] && read[1] == t[k + 1] && read[2] == t[k + 2] && read[3] == t[k + 3];
  }

  /** What a signature that begins inside the record says about the fields it covers. */
  lemma SpelledFields(count: U16, size: U32, offset: U32, comment: Bytes, k: nat)
    requires |comment| < 0x1_0000 && 0 < k < 20
    requires SignatureAt(Ending(count, size, offset, comment), EOCD_SIGNATURE, k)
    ensures 10 <= k
    ensures k == 10 ==> count == 0x4B50 && ByteOf(size, 0) == 5 && ByteOf(size, 1) == 6
    ensures k == 11 ==> count >= 0x5000 && ByteOf(size, 0) == 0x4B && ByteOf(size, 1) == 5 && ByteOf(size, 2) == 6
    ensures k == 12 ==> size == 0x0605_4B50
    ensures k == 13 ==> size / 0x100 == 0x05_4B50 && offset % 0x100 == 6
    ensures k == 14 || k == 15 ==> size >= 0x4B50_0000
    ensures k == 16 ==> offset == 0x0605_4B50
    ensures k == 17 ==> offset / 0x100 == 0x05_4B50 && |comment| % 0x100 == 6
    ensures k == 18 || k == 19 ==> offset >= 0x4B50_0000
  {
    var t := Ending(count, size, offset, comment);
    Spelled(t, k);
    assert forall i | 0 <= i < 22 :: t[i] == EocdFixed(count, size, offset, |comment|)[i];
    FourBytes(size);
    FourBytes(offset);
    hide SignatureAt;
  }

  /** Conversely such fields put a signature there. */
  lemma FieldsSpell(count: U16, size: U32, offset: U32, comment: Bytes)
    requires |comment| < 0x1_0000 && FieldsSpellSignature(size, offset, |comment|)
    ensures exists k | 0 < k < 20 :: SignatureAt(Ending(count, size, offset, comment), EOCD_SIGNATURE, k)
  {
    var t := Ending(count, size, offset, comment);
    assert forall i | 0 <= i < 22 :: t[i] == EocdFixed(count, size, offset, |comment|)[i];
    FourBytes(size);
    FourBytes(offset);
    var k :=
      if size == 0x0605_4B50 then 12
      else if size / 0x100 == 0x05_4B50 && offset % 0x100 == 6 then 13
      else if offset == 0x0605_4B50 then 16
      else 17;
    assert t[k..k + 4] == [t[k], t[k + 1], t[k + 2], t[k + 3]];
    assert SignatureAt(t, EOCD_SIGNATURE, k);
  }

  /** The second record would have disk numbers that are not zero, no room, or an impossible directory. */
  lemma NoSecondRecord(count: U16, size: U32, offset: U32, comment: Bytes, k: nat)
    requires |comment| < 0x1_0000 && 0 < k < 20
    requires SignatureAt(Ending(count, size, offset, comment), EOCD_SIGNATURE, k)
    requires size >= 46 * count && (size > 0 ==> count > 0) && (count > 0 ==> offset >= 30)
    requires size <= MAX_ARCHIVE_BYTES && offset <= MAX_ARCHIVE_BYTES
    ensures var t := Ending(count, size, offset, comment);
            k + 22 <= |t| ==> !(t[k + 4] == t[k + 5] == t[k + 6] == t[k + 7] == 0)
  {
    var t := Ending(count, size, offset, comment);
    SpelledFields(count, size, offset, comment, k);
    assert forall i | 0 <= i < 22 :: t[i] == EocdFixed(count, size, offset, |comment|)[i];
    FourBytes(size);
    FourBytes(offset);
    hide SignatureAt;
  }

  // Sizes of printed parts

  lemma {:induction false} DirectoryLength(es: seq<ZipEntry>)
    requires AllStorable(es)
    ensures |Directory(es)| >= 46 * |es|
    ensures es == [] ==> Directory(es) == []
  {
    if es != [] {
      DirectoryLength(es[1..]);
    }
  }

  /** Equal printed directories of as many entries declare the same sizes. */
  lemma {:induction false} SameDirectorySameSizes(es: seq<ZipEntry>, fs: seq<ZipEntry>)
    requires AllStorable(es) && AllStorable(fs) && |es| == |fs| && Directory(es) == Directory(fs)
    ensures forall i | 0 <= i < |es| ::
              es[i].compressedSize == fs[i].compressedSize && es[i].uncompressedSize == fs[i].uncompressedSize
    ensures TotalSize(es) == TotalSize(fs)
  {
    hide CentralRecord, CentralFixed, Directory, TotalSize, U16At, U32At;
    if es == [] {
      assert fs == [];
    } else {
      var d, e, f := Directory(es), es[0], fs[0];
      DirectoryTurn(es);
      DirectoryTurn(fs);
      CentralParts(e, Directory(es[1..]));
      CentralParts(f, Directory(fs[1..]));
      CentralFieldsRoundTrip(e, d);
      CentralFieldsRoundTrip(f, d);
      assert Directory(es[1..]) == d[|CentralRecord(e)|..] == Directory(fs[1..]);
      SameDirectorySameSizes(es[1..], fs[1..]);
      assert forall i | 0 < i < |es| :: es[i] == es[1..][i - 1] && fs[i] == fs[1..][i - 1];
    }
  }

  lemma DirectoryTurn(es: seq<ZipEntry>)
    requires AllStorable(es) && es != []
    ensures es[0].Storable() && AllStorable(es[1..]) && Directory(es) == CentralRecord(es[0]) + Directory(es[1..])
    ensures TotalSize(es) == es[0].uncompressedSize as nat + TotalSize(es[1..])
  {
    hide CentralRecord;
  }

  // The search for the record

  /** No signature begins in the comment, nor in the length in front of it. */
  ghost predicate QuietComment(ending: Bytes) {
    forall k | 20 <= k :: !SignatureAt(ending, EOCD_SIGNATURE, k)
  }

  /** The signature is at `k` of the ending exactly when it is `k` behind the record. */
  lemma ShiftedSignature(raw: Bytes, eocd: nat, k: nat)
    requires eocd <= |raw|
    ensures SignatureAt(raw[eocd..], EOCD_SIGNATURE, k) <==> SignatureAt(raw, EOCD_SIGNATURE, eocd + k)
  {
    if eocd + k + 4 <= |raw| {
      SliceOfSlice(raw, eocd, |raw|, k, k + 4);
    }
  }

  /** The record that the search finds has zero disk numbers and is whole, or the inspector refuses. */
  lemma {:induction false} InspectedRecordFields(codec: Codec, raw: Bytes)
    requires Inspect(codec, raw).Ok?
    ensures |raw| <= MAX_ARCHIVE_BYTES && FindEocd(raw).Some?
    ensures var q := FindEocd(raw).value;
            raw[q + 4] == raw[q + 5] == raw[q + 6] == raw[q + 7] == 0
  {
    hide WithinBudget, InspectLocals, ReadDirectory, FindEocd;
    var q := FindEocd(raw).value;
    var record := raw[q..q + 22];
    assert record[4] == raw[q + 4] && record[5] == raw[q + 5] && record[6] == raw[q + 6] && record[7] == raw[q + 7];
  }

  /** An accepted output has no second signature inside its record. */
  lemma {:induction false} AcceptedEndsOnce(
    codec: Codec, raw: Bytes, eocd: nat, count: U16, size: U32, offset: U32, comment: Bytes)
    requires Inspect(codec, raw).Ok?
    requires |comment| < 0x1_0000 && eocd <= |raw| && raw[eocd..] == Ending(count, size, offset, comment)
    requires size >= 46 * count && (size > 0 ==> count > 0) && (count > 0 ==> offset >= 30)
    requires offset as nat + size as nat <= eocd
    requires QuietComment(raw[eocd..])
    ensures FindEocd(raw) == Some(eocd) && LastSignature(raw, eocd)
  {
    hide Inspect, FindEocd, SignatureAt, EocdFixed;
    InspectedRecordFields(codec, raw);
    var q := FindEocd(raw).value;
    RecordSpelled(raw, eocd, count, size, offset, comment);
    if eocd < q {
      var k := q - eocd;
      ShiftedSignature(raw, eocd, k);
      NoSecondRecord(count, size, offset, comment, k);
    }
  }

  lemma RecordSpelled(raw: Bytes, eocd: nat, count: U16, size: U32, offset: U32, comment: Bytes)
    requires |comment| < 0x1_0000 && eocd <= |raw| && raw[eocd..] == Ending(count, size, offset, comment)
    ensures SignatureAt(raw, EOCD_SIGNATURE, eocd)
  {
    var t := raw[eocd..];
    assert t[0..4] == EocdFixed(count, size, offset, |comment|)[..4] == EOCD_SIGNATURE;
    ShiftedSignature(raw, eocd, 0);
  }

  // Outputs of a repack

  /** Where the fields of a laid-out output are, and what its sizes say about each other. */
  lemma {:induction false} OutputEnding(codec: Codec, b: Archive, items: seq<Item>)
    requires ItemsStorable(items) && OutputLaidOut(codec, b, items)
    ensures var size, offset, eocd := |Directory(b.entries)|, CentralOffset(b), |b.raw| - |b.comment| - 22;
            && size >= 46 * |b.entries| && (size > 0 ==> |b.entries| > 0) && (|b.entries| > 0 ==> offset >= 30)
            && 0 <= offset && offset + size == eocd
            && b.raw[eocd..] == Ending(|b.entries|, size, offset, b.comment)
  {
    hide Tiled, Directory, SortByOffset, LaidAll, EocdFixed, LocalHead;
    DirectoryLength(b.entries);
    var size, offset := |Directory(b.entries)|, CentralOffset(b);
    var tail := b.raw[offset..];
    SliceOfSlice(b.raw, offset, |b.raw|, size, |tail|);
    assert tail[size..] == Ending(|b.entries|, size, offset, b.comment);
    if items != [] {
      FirstRecordLength(b.raw, LaidAll(items), offset);
    }
  }

  /** The same for an inspected archive, whose record the search finds. */
  lemma {:induction false} ArchiveEnding(codec: Codec, a: Archive)
    requires IsArchive(codec, a)
    ensures |Directory(a.entries)| < 0x1_0000_0000 && 0 <= CentralOffset(a) < 0x1_0000_0000
    ensures var size, offset, eocd := |Directory(a.entries)|, CentralOffset(a), |a.raw| - |a.comment| - 22;
            && offset + size == eocd && a.raw[offset..eocd] == Directory(a.entries)
            && a.raw[eocd..] == Ending(|a.entries|, size, offset, a.comment)
            && FindEocd(a.raw) == Some(eocd)
  {
    hide Tiled, Directory, SortByOffset, Listed, TotalSize, EocdFixed, FindEocd;
    var size, offset := |Directory(a.entries)|, CentralOffset(a);
    var tail, eocd := a.raw[offset..], offset + size;
    SliceOfSlice(a.raw, offset, |a.raw|, size, |tail|);
    SliceOfSlice(a.raw, offset, |a.raw|, 0, size);
    assert tail[size..] == Ending(|a.entries|, size, offset, a.comment);
    assert tail[0..size] == Directory(a.entries);
    RecordSpelled(a.raw, eocd, |a.entries|, size, offset, a.comment);
    EocdFound(a, eocd);
  }

  lemma FirstRecordLength(raw: Bytes, sorted: seq<ZipEntry>, to: nat)
    requires sorted != [] && to <= |raw| && Tiled(raw, sorted, 0, to)
    ensures to >= 30
  {
  }

  /** The comment, and with it the end of the record, comes from the inspected original. */
  lemma {:induction false} EndingKept(codec: Codec, a: Archive, b: Archive, items: seq<Item>)
    requires IsArchive(codec, a) && a.comment == b.comment
    requires ItemsStorable(items) && OutputLaidOut(codec, b, items)
    ensures |b.raw| >= |b.comment| + 22 && QuietComment(b.raw[|b.raw| - |b.comment| - 22..])
  {
    hide *;
    OutputFacts(codec, b, items);
    ArchiveFacts(codec, a);
    OutputEnding(codec, b, items);
    ArchiveEnding(codec, a);
    SameEnd(a.raw[|a.raw| - |a.comment| - 22..], b.raw[|b.raw| - |b.comment| - 22..],
            |a.entries|, |Directory(a.entries)|, CentralOffset(a),
            |b.entries|, |Directory(b.entries)|, CentralOffset(b), a.comment);
    QuietOriginal(a);
  }

  lemma ArchiveFacts(codec: Codec, a: Archive)
    requires IsArchive(codec, a)
    ensures AllStorable(a.entries) && |a.comment| < 0x1_0000 && |a.entries| < 0x1_0000
    ensures |a.raw| >= |a.comment| + 22 && LastSignature(a.raw, |a.raw| - |a.comment| - 22)
  {
    hide Tiled, Directory, SortByOffset, Listed, TotalSize, EocdFixed, SignatureAt;
  }

  lemma QuietOriginal(a: Archive)
    requires |a.raw| >= |a.comment| + 22 && LastSignature(a.raw, |a.raw| - |a.comment| - 22)
    ensures QuietComment(a.raw[|a.raw| - |a.comment| - 22..])
  {
    var eocd := |a.raw| - |a.comment| - 22;
    hide SignatureAt;
    forall k | 20 <= k ensures !SignatureAt(a.raw[eocd..], EOCD_SIGNATURE, k) {
      ShiftedSignature(a.raw, eocd, k);
    }
  }

  lemma SameEnd(t: Bytes, u: Bytes, m: U16, size: U32, offset: U32, n: U16, other: U32, another: U32, comment: Bytes)
    requires |comment| < 0x1_0000 && t == Ending(m, size, offset, comment) && u == Ending(n, other, another, comment)
    ensures QuietComment(t) <==> QuietComment(u)
  {
    assert t[20..] == u[20..];
    forall k | 20 <= k ensures SignatureAt(t, EOCD_SIGNATURE, k) <==> SignatureAt(u, EOCD_SIGNATURE, k) {
      if k + 4 <= |t| {
        SliceOfSlice(t, 20, |t|, k - 20, k - 16);
        SliceOfSlice(u, 20, |u|, k - 20, k - 16);
      }
    }
  }

  /** Within the limits, a second signature can only be one that the size, the offset or the comment length begins. */
  lemma {:induction false} SignatureByFields(codec: Codec, a: Archive, b: Archive, items: seq<Item>)
    requires IsArchive(codec, a) && a.comment == b.comment
    requires ItemsStorable(items) && OutputLaidOut(codec, b, items) && WithinInspectorLimits(b)
    ensures LastSignature(b.raw, |b.raw| - |b.comment| - 22) <==>
            !FieldsSpellSignature(|Directory(b.entries)|, CentralOffset(b), |b.comment|)
  {
    hide *;
    OutputFacts(codec, b, items);
    LimitFacts(b);
    OutputEnding(codec, b, items);
    EndingKept(codec, a, b, items);
    EndingByFields(b.raw, |b.raw| - |b.comment| - 22, |b.entries|, |Directory(b.entries)|, CentralOffset(b), b.comment);
  }

  lemma LimitFacts(b: Archive)
    requires WithinInspectorLimits(b)
    ensures |b.raw| <= MAX_ARCHIVE_BYTES && |b.entries| <= MAX_ZIP_ENTRIES
  {
  }

  lemma {:induction false} EndingByFields(raw: Bytes, eocd: nat, count: U16, size: U32, offset: U32, comment: Bytes)
    requires |comment| < 0x1_0000 && eocd <= |raw| <= MAX_ARCHIVE_BYTES && count <= MAX_ZIP_ENTRIES
    requires raw[eocd..] == Ending(count, size, offset, comment) && offset as nat + size as nat == eocd
    requires QuietComment(raw[eocd..])
    ensures LastSignature(raw, eocd) <==> !FieldsSpellSignature(size, offset, |comment|)
  {
    hide SignatureAt, EocdFixed, FieldsSpellSignature;
    if FieldsSpellSignature(size, offset, |comment|) {
      FieldsSpell(count, size, offset, comment);
      var k :| 0 < k < 20 && SignatureAt(raw[eocd..], EOCD_SIGNATURE, k);
      ShiftedSignature(raw, eocd, k);
    }
    if !LastSignature(raw, eocd) {
      var k :| eocd < k && SignatureAt(raw, EOCD_SIGNATURE, k);
      ShiftedSignature(raw, eocd, k - eocd);
      SpelledFields(count, size, offset, comment, k - eocd);
      SomeField(count, size, offset, |comment|, k - eocd);
    }
  }

  lemma SomeField(count: U16, size: U32, offset: U32, commentLength: U16, k: nat)
    requires 10 <= k < 20 && count <= MAX_ZIP_ENTRIES && size <= MAX_ARCHIVE_BYTES && offset <= MAX_ARCHIVE_BYTES
    requires k == 10 ==> count == 0x4B50
    requires k == 11 ==> count >= 0x5000
    requires k == 12 ==> size == 0x0605_4B50
    requires k == 13 ==> size / 0x100 == 0x05_4B50 && offset % 0x100 == 6
    requires k == 14 || k == 15 ==> size >= 0x4B50_0000
    requires k == 16 ==> offset == 0x0605_4B50
    requires k == 17 ==> offset / 0x100 == 0x05_4B50 && commentLength % 0x100 == 6
    requires k == 18 || k == 19 ==> offset >= 0x4B50_0000
    ensures FieldsSpellSignature(size, offset, commentLength)
  {
  }

  /** Whatever the inspector makes of an output: if it accepts it at all, the limits hold and the record ends it. */
  lemma {:induction false} AcceptedOutput(codec: Codec, a: Archive, b: Archive, items: seq<Item>)
    requires IsArchive(codec, a) && a.comment == b.comment
    requires ItemsStorable(items) && OutputLaidOut(codec, b, items)
    requires Inspect(codec, b.raw).Ok?
    ensures WithinInspectorLimits(b) && LastSignature(b.raw, |b.raw| - |b.comment| - 22)
  {
    hide *;
    OutputFacts(codec, b, items);
    OutputEnding(codec, b, items);
    EndingKept(codec, a, b, items);
    var eocd := |b.raw| - |b.comment| - 22;
    AcceptedEndsOnce(codec, b.raw, eocd, |b.entries|, |Directory(b.entries)|, CentralOffset(b), b.comment);
    AcceptedLimits(codec, b, Inspect(codec, b.raw).value, items);
  }

  lemma OutputFacts(codec: Codec, b: Archive, items: seq<Item>)
    requires ItemsStorable(items) && OutputLaidOut(codec, b, items)
    ensures AllStorable(b.entries) && |b.comment| < 0x1_0000 && |b.entries| < 0x1_0000
    ensures |Directory(b.entries)| < 0x1_0000_0000 && 0 <= CentralOffset(b) < 0x1_0000_0000
  {
  }

  /** Two archives that end in the same record have the same directory. */
  lemma {:induction false} AcceptedFields(codec: Codec, b: Archive, c: Archive, items: seq<Item>)
    requires ItemsStorable(items) && OutputLaidOut(codec, b, items)
    requires IsArchive(codec, c) && c.raw == b.raw && FindEocd(b.raw) == Some(|b.raw| - |b.comment| - 22)
    ensures |c.entries| == |b.entries| && Directory(c.entries) == Directory(b.entries)
  {
    hide *;
    OutputFacts(codec, b, items);
    OutputDirectory(codec, b, items);
    ArchiveFacts(codec, c);
    OutputEnding(codec, b, items);
    ArchiveEnding(codec, c);
    SameFields(|b.entries|, |Directory(b.entries)|, CentralOffset(b), b.comment,
               |c.entries|, |Directory(c.entries)|, CentralOffset(c), c.comment);
  }

  lemma OutputDirectory(codec: Codec, b: Archive, items: seq<Item>)
    requires ItemsStorable(items) && OutputLaidOut(codec, b, items)
    ensures var offset, size := CentralOffset(b), |Directory(b.entries)|;
            0 <= offset && offset + size <= |b.raw| && b.raw[offset..offset + size] == Directory(b.entries)
  {
    hide Directory, Tiled, SortByOffset, LaidAll, EocdFixed;
    var offset, size := CentralOffset(b), |Directory(b.entries)|;
    SliceOfSlice(b.raw, offset, |b.raw|, 0, size);
    assert b.raw[offset..][0..size] == Directory(b.entries);
  }

  lemma SameFields(m: U16, size: U32, offset: U32, comment: Bytes, n: U16, other: U32, another: U32, remark: Bytes)
    requires |comment| < 0x1_0000 && |remark| < 0x1_0000
    requires Ending(m, size, offset, comment) == Ending(n, other, another, remark)
    ensures m == n && size == other && offset == another
  {
    var t := Ending(m, size, offset, comment);
    assert t[..22] == EocdFixed(m, size, offset, |comment|) && t[..22] == EocdFixed(n, other, another, |remark|);
    hide EocdFixed, Ending;
    EocdRoundTrip(t, m, size, offset, |comment|);
    EocdRoundTrip(t, n, other, another, |remark|);
  }

  /** What was read has the sizes of what was written, since it prints to the same directory. */
  lemma {:induction false} AcceptedLimits(codec: Codec, b: Archive, c: Archive, items: seq<Item>)
    requires ItemsStorable(items) && OutputLaidOut(codec, b, items)
    requires Inspect(codec, b.raw) == Ok(c) && FindEocd(b.raw) == Some(|b.raw| - |b.comment| - 22)
    ensures WithinInspectorLimits(b)
  {
    hide *;
    InspectExact(codec, b.raw, c);
    ArchiveBudget(codec, c);
    OutputFacts(codec, b, items);
    AcceptedFields(codec, b, c, items);
    SameDirectorySameSizes(b.entries, c.entries);
    NotEmpty(codec, b, c, items);
    SameBudget(b, c);
  }

  lemma ArchiveBudget(codec: Codec, c: Archive)
    requires IsArchive(codec, c)
    ensures |c.raw| <= MAX_ARCHIVE_BYTES && |c.entries| <= MAX_ZIP_ENTRIES && AllStorable(c.entries)
    ensures TotalSize(c.entries) <= MAX_TOTAL_UNCOMPRESSED_BYTES && AllSizesOk(c.entries)
  {
    hide Tiled, Directory, SortByOffset, NameOk, FeaturesOk, TotalSize, SizesOk;
  }

  lemma SameBudget(b: Archive, c: Archive)
    requires c.raw == b.raw && |c.entries| == |b.entries| > 0 && TotalSize(b.entries) == TotalSize(c.entries)
    requires forall i | 0 <= i < |b.entries| ::
               b.entries[i].compressedSize == c.entries[i].compressedSize &&
               b.entries[i].uncompressedSize == c.entries[i].uncompressedSize
    requires |c.raw| <= MAX_ARCHIVE_BYTES && |c.entries| <= MAX_ZIP_ENTRIES
    requires TotalSize(c.entries) <= MAX_TOTAL_UNCOMPRESSED_BYTES && AllSizesOk(c.entries)
    ensures WithinInspectorLimits(b)
  {
    hide TotalSize, SizesOk;
    forall e | e in b.entries ensures SizesOk(e.compressedSize, e.uncompressedSize) {
      var i :| 0 <= i < |b.entries| && b.entries[i] == e;
      assert c.entries[i] in c.entries;
    }
  }

  /** An output without entries is an EOCD record, which is not accepted. */
  lemma NotEmpty(codec: Codec, b: Archive, c: Archive, items: seq<Item>)
    requires ItemsStorable(items) && OutputLaidOut(codec, b, items) && IsArchive(codec, c) && c.raw == b.raw
    ensures b.entries != []
  {
    hide Tiled, Directory, SortByOffset, Listed, TotalSize, EocdFixed, Tail;
    if b.entries == [] {
      assert b.raw[0..] == b.raw;
      EmptyOffset(items);
      EmptyTail(b);
    }
  }

  lemma EmptyOffset(items: seq<Item>)
    ensures items == [] ==> ItemBytes(items) == []
  {
  }
}
