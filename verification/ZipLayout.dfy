/**
 The byte strings the strict inspector accepts, described without a parser: local records that
 tile the file up to the central directory, then the printed directory, then the EOCD.
 */
module ZipLayout {
  import opened Basics
  import opened Bytes
  import opened ZipFormat
  import opened ZipInspect

  // Printing

  predicate AllStorable(es: seq<ZipEntry>) {
    forall e | e in es :: e.Storable()
  }

  function Directory(es: seq<ZipEntry>): Bytes
    requires AllStorable(es)
  {
    if es == [] then [] else CentralRecord(es[0]) + Directory(es[1..])
  }

  /** The entry's central record is one the inspector would admit. */
  predicate Listed(codec: Codec, e: ZipEntry) {
    && e.Storable() && Admissible(e) && DecodeName(codec, e.nameBytes, e.flags) == Some(e.name)
  }

  /** Consecutive local records cover raw[from..to] exactly, each in front of the next. */
  ghost predicate Tiled(raw: Bytes, sorted: seq<ZipEntry>, from: nat, to: nat)
    requires to <= |raw|
  {
    if sorted == [] then from == to
    else
      var e := sorted[0];
      && e.localOffset == from && RecordFits(raw, e, to)
      && Tiled(raw, sorted[1..], e.spanEnd, to)
  }

  /** A local record: the printed header, the declared data, then anything up to the span's end. */
  ghost predicate RecordFits(raw: Bytes, e: ZipEntry, to: nat)
    requires to <= |raw|
  {
    && e.Storable() && ExtraOk(e.localExtra)
    && e.dataStart == e.localOffset as nat + |LocalHead(e)|
    && e.dataEnd == e.dataStart + e.compressedSize as nat
    && e.dataEnd <= e.spanEnd <= to
    && raw[e.localOffset..e.dataStart] == LocalHead(e)
  }

  /** Where the central directory of an archive with these parts begins. */
  function CentralOffset(a: Archive): int
    requires AllStorable(a.entries)
  {
    |a.raw| - |a.comment| - 22 - |Directory(a.entries)|
  }

  function Tail(es: seq<ZipEntry>, centralOffset: U32, comment: Bytes): Bytes
    requires AllStorable(es) && |es| < 0x1_0000 && |Directory(es)| < 0x1_0000_0000 && |comment| < 0x1_0000
  {
    Directory(es) + EocdFixed(|es|, |Directory(es)|, centralOffset, |comment|) + comment
  }

  ghost predicate WithinLimits(a: Archive) {
    && |a.raw| <= MAX_ARCHIVE_BYTES && |a.entries| <= MAX_ZIP_ENTRIES
    && TotalSize(a.entries) <= MAX_TOTAL_UNCOMPRESSED_BYTES
  }

  /** No EOCD signature begins after the real record. */
  ghost predicate LastSignature(raw: Bytes, eocd: nat) {
    forall k | eocd < k :: !SignatureAt(raw, EOCD_SIGNATURE, k)
  }

  /** The archive `a` is a reading of its bytes. */
  ghost predicate IsArchive(codec: Codec, a: Archive) {
    && (forall e | e in a.entries :: Listed(codec, e)) && AllStorable(a.entries)
    && WithinLimits(a) && |a.comment| < 0x1_0000
    && NoDuplicates(Names(a.entries))
    && 0 <= CentralOffset(a)
    && a.raw[CentralOffset(a)..] == Tail(a.entries, CentralOffset(a), a.comment)
    && LastSignature(a.raw, |a.raw| - |a.comment| - 22)
    && SignatureAt(a.raw, LOCAL_SIGNATURE, 0)
    && a.localOrder == Names(SortByOffset(a.entries))
    && (a.entries != [] ==> Tiled(a.raw, SortByOffset(a.entries), 0, CentralOffset(a)))
  }

  // The central directory

  function View(): ZipEntry -> ZipEntry {
    (e: ZipEntry) => e.CentralView()
  }

  lemma {:induction false} DirectoryAppend(a: seq<ZipEntry>, b: seq<ZipEntry>)
    requires AllStorable(a) && AllStorable(b)
    ensures AllStorable(a + b) && Directory(a + b) == Directory(a) + Directory(b)
  {
    if a == [] {
      assert a + b == b;
    } else {
      assert (a + b)[1..] == a[1..] + b;
      DirectoryAppend(a[1..], b);
    }
  }

  /** Reading a directory yields entries that print to exactly the bytes read. */
  lemma {:induction false} DirectoryReadPrints(codec: Codec, raw: Bytes, cursor: nat, end: nat, n: nat)
    requires cursor <= end <= |raw|
    requires ReadDirectory(codec, raw, cursor, end, n).Some?
    ensures var es := ReadDirectory(codec, raw, cursor, end, n).value;
            && |es| == n && (forall e | e in es :: Listed(codec, e) && e == e.CentralView())
            && AllStorable(es) && Directory(es) == raw[cursor..end]
    decreases n
  {
    hide ReadEntry, Listed, CentralRecord;
    if n > 0 {
      var read := ReadEntry(codec, raw, cursor, end).value;
      ReadEntryPrints(codec, raw, cursor, end);
      DirectoryReadPrints(codec, raw, read.1, end, n - 1);
      var rest := ReadDirectory(codec, raw, read.1, end, n - 1).value;
      assert ReadDirectory(codec, raw, cursor, end, n).value == [read.0] + rest;
      assert ([read.0] + rest)[1..] == rest;
      assert raw[cursor..end] == raw[cursor..read.1] + raw[read.1..end];
    }
  }

  lemma ReadEntryPrints(codec: Codec, raw: Bytes, cursor: nat, end: nat)
    requires cursor <= end <= |raw| && ReadEntry(codec, raw, cursor, end).Some?
    ensures var read := ReadEntry(codec, raw, cursor, end).value;
            Listed(codec, read.0) && read.0.Storable() && read.0 == read.0.CentralView()
              && CentralRecord(read.0) == raw[cursor..read.1]
  {
    hide CentralRecord, CentralLength, ReadCentral;
    var dir := raw[cursor..end];
    CentralReadPrints(codec, dir);
    assert dir[..CentralLength(dir)] == raw[cursor..cursor + CentralLength(dir)];
  }

  /** A printed directory is read back, entry by entry. */
  lemma {:induction false} DirectoryRoundTrip(codec: Codec, raw: Bytes, cursor: nat, end: nat, es: seq<ZipEntry>)
    requires cursor <= end <= |raw|
    requires forall e | e in es :: Listed(codec, e)
    requires AllStorable(es) && raw[cursor..end] == Directory(es)
    ensures ReadDirectory(codec, raw, cursor, end, |es|) == Some(MapEntries(View(), es))
    decreases |es|
  {
    hide ReadEntry, Listed, CentralRecord;
    if es == [] {
      assert |raw[cursor..end]| == 0;
      assert MapEntries(View(), es) == [];
    } else {
      var rest := Directory(es[1..]);
      var next := cursor + |CentralRecord(es[0])|;
      assert raw[cursor..end] == CentralRecord(es[0]) + rest;
      assert |raw[cursor..end]| == end - cursor;
      ReadEntryOfPrinted(codec, raw, cursor, end, es[0], rest);
      assert raw[next..end] == raw[cursor..end][next - cursor..] == rest;
      DirectoryRoundTrip(codec, raw, next, end, es[1..]);
      assert MapEntries(View(), es) == [es[0].CentralView()] + MapEntries(View(), es[1..]);
    }
  }

  lemma ReadEntryOfPrinted(codec: Codec, raw: Bytes, cursor: nat, end: nat, e: ZipEntry, rest: Bytes)
    requires cursor <= end <= |raw| && Listed(codec, e)
    requires raw[cursor..end] == CentralRecord(e) + rest
    ensures ReadEntry(codec, raw, cursor, end) == Some((e.CentralView(), cursor + |CentralRecord(e)|))
  {
    hide CentralRecord, CentralLength, ReadCentral, Listed, Admissible, DecodeName;
    ListedFacts(codec, e);
    CentralRoundTrip(codec, e, rest);
  }

  lemma ListedFacts(codec: Codec, e: ZipEntry)
    requires Listed(codec, e)
    ensures e.Storable() && e.diskStart == 0 && DecodeName(codec, e.nameBytes, e.flags) == Some(e.name)
    ensures Admissible(e.CentralView())
  {
    hide DecodeName, SizesOk, NameOk;
  }

  lemma {:induction false} ViewsPrintAlike(es: seq<ZipEntry>)
    requires AllStorable(es)
    ensures AllStorable(MapEntries(View(), es)) && Directory(MapEntries(View(), es)) == Directory(es)
    ensures Names(MapEntries(View(), es)) == Names(es)
    ensures TotalSize(MapEntries(View(), es)) == TotalSize(es)
  {
    var vs := MapEntries(View(), es);
    if es != [] {
      ViewsPrintAlike(es[1..]);
      assert vs[1..] == MapEntries(View(), es[1..]);
      assert es[0] in es && es[0].CentralView().Storable();
      assert CentralFixed(es[0].CentralView()) == CentralFixed(es[0]);
    }
  }
}
