/**
 The strict inspector accepts exactly the archives that `ZipLayout.IsArchive` describes, and
 returns the one archive those bytes describe.
 */
module ZipAcceptance {
  import opened Basics
  import opened Bytes
  import opened ZipFormat
  import opened ZipInspect
  import opened ZipSorting
  import opened ZipLayout

  // One local record

  lemma SliceAt(raw: Bytes, from: nat, length: nat, i: nat)
    requires from + length <= |raw|
    ensures i + 2 <= length ==> U16At(raw[from..from + length], i) == U16At(raw, from + i)
    ensures i + 4 <= length ==> U32At(raw[from..from + length], i) == U32At(raw, from + i)
  {
  }

  /** The fields compared are those of the central directory, and fix the compressed size. */
  lemma FieldsFit(e: ZipEntry, p: ZipEntry, b: Bytes)
    requires |b| >= 30 && LocalFieldsMatch(e, b) && p.CentralView() == e.CentralView()
    ensures LocalFieldsMatch(p, b) && U32At(b, 18) == e.compressedSize
  {
    hide U16At, U32At;
  }

  lemma ThreeSlices(raw: Bytes, a: nat, b: nat, c: nat, d: nat)
    requires a <= b <= c <= d <= |raw|
    ensures raw[a..d] == raw[a..b] + raw[b..c] + raw[c..d]
  {
  }

  /** A record that passes the header comparison is the printed header of the completed entry. */
  lemma PlacedFits(raw: Bytes, e: ZipEntry, spanEnd: nat, centralOffset: nat)
    requires centralOffset <= |raw| && e.Storable() && PlacedOk(raw, e, spanEnd, centralOffset)
    ensures RecordFits(raw, Placed(raw, e, spanEnd), centralOffset) && Placed(raw, e, spanEnd).spanEnd == spanEnd
  {
    hide LocalFixed, ExtraOk, U16At, U32At, LocalFieldsMatch;
    var p := Placed(raw, e, spanEnd);
    var offset: nat := e.localOffset;
    var fixed := raw[offset..offset + 30];
    SliceAt(raw, offset, 30, 26);
    SliceAt(raw, offset, 30, 28);
    SliceAt(raw, offset, 30, 18);
    assert fixed[..4] == raw[offset..offset + 4];
    FieldsFit(e, p, fixed);
    LocalMatchPrints(p, fixed);
    assert fixed[..30] == fixed;
    var nameEnd := offset + 30 + |e.nameBytes|;
    ThreeSlices(raw, offset, offset + 30, nameEnd, p.dataStart);
  }

  /** The printed header of an entry passes the comparison with the entry's central view. */
  lemma FitsPlaced(raw: Bytes, e: ZipEntry, centralOffset: nat)
    requires centralOffset <= |raw| && RecordFits(raw, e, centralOffset)
    ensures PlacedOk(raw, e.CentralView(), e.spanEnd, centralOffset)
    ensures Placed(raw, e.CentralView(), e.spanEnd) == e
  {
    hide LocalFixed, ExtraOk, U32At, U16At;
    var offset: nat := e.localOffset;
    var head := LocalHead(e);
    var fixed := raw[offset..offset + 30];
    SliceOfSlice(raw, offset, e.dataStart, 0, 30);
    assert head[0..30] == LocalFixed(e);
    assert fixed[..30] == fixed;
    LocalRoundTrip(e, fixed);
    SliceAt(raw, offset, 30, 26);
    SliceAt(raw, offset, 30, 28);
    SliceAt(raw, offset, 30, 18);
    assert fixed[..4] == raw[offset..offset + 4];
    var nameEnd := offset + 30 + |e.nameBytes|;
    SliceOfSlice(raw, offset, e.dataStart, 30, nameEnd - offset);
    SliceOfSlice(raw, offset, e.dataStart, nameEnd - offset, |head|);
    assert head[30..nameEnd - offset] == e.nameBytes;
    assert head[nameEnd - offset..|head|] == e.localExtra;
  }

  // All local records

  lemma {:induction false} SpanEndAt(sorted: seq<ZipEntry>, k: nat, centralOffset: nat)
    requires NoDuplicates(Names(sorted)) && k < |sorted|
    ensures SpanEndOf(sorted, sorted[k].name, centralOffset)
            == if k + 1 < |sorted| then sorted[k + 1].localOffset else centralOffset
  {
    if k > 0 {
      assert Names(sorted)[0] != Names(sorted)[k];
      assert forall i | 0 <= i < |sorted| - 1 :: Names(sorted[1..])[i] == Names(sorted)[i + 1];
      SpanEndAt(sorted[1..], k - 1, centralOffset);
    }
  }

  lemma {:induction false} PlacedTile(raw: Bytes, sorted: seq<ZipEntry>, k: nat, centralOffset: nat)
    requires centralOffset <= |raw| && k < |sorted|
    requires NoDuplicates(Names(sorted)) && AllStorable(sorted)
    requires forall e | e in sorted :: PlacedOk(raw, e, SpanEndOf(sorted, e.name, centralOffset), centralOffset)
    ensures Tiled(raw, MapEntries(Completion(raw, sorted, centralOffset), sorted)[k..], sorted[k].localOffset,
            centralOffset)
    decreases |sorted| - k
  {
    var placed := MapEntries(Completion(raw, sorted, centralOffset), sorted);
    var e := sorted[k];
    var spanEnd := SpanEndOf(sorted, e.name, centralOffset);
    SpanEndAt(sorted, k, centralOffset);
    PlacedFits(raw, e, spanEnd, centralOffset);
    hide RecordFits, PlacedOk, Placed;
    assert placed[k] == Placed(raw, e, spanEnd);
    assert placed[k..][0] == placed[k] && placed[k..][1..] == placed[k + 1..];
    if k + 1 < |sorted| {
      PlacedTile(raw, sorted, k + 1, centralOffset);
    } else {
      assert placed[k + 1..] == [];
    }
  }

  /** In a tiling, each span ends where the next record begins. */
  lemma {:induction false} TiledAt(raw: Bytes, sorted: seq<ZipEntry>, from: nat, to: nat, k: nat)
    requires to <= |raw| && Tiled(raw, sorted, from, to) && k < |sorted|
    ensures RecordFits(raw, sorted[k], to) && from <= sorted[k].localOffset < to
    ensures sorted[k].spanEnd == if k + 1 < |sorted| then sorted[k + 1].localOffset else to
    ensures k == 0 ==> sorted[k].localOffset == from
  {
    if k > 0 {
      TiledAt(raw, sorted[1..], sorted[0].spanEnd, to, k - 1);
    } else if |sorted| > 1 {
      TiledAt(raw, sorted[1..], sorted[0].spanEnd, to, 0);
    }
  }

  lemma {:induction false} TiledAscends(raw: Bytes, sorted: seq<ZipEntry>, from: nat, to: nat)
    requires to <= |raw| && Tiled(raw, sorted, from, to)
    ensures StrictlyAscending(sorted)
    ensures forall k | 0 <= k < |sorted| :: sorted[k].localOffset >= from
  {
    if sorted != [] {
      TiledAscends(raw, sorted[1..], sorted[0].spanEnd, to);
      assert forall k | 0 < k < |sorted| :: sorted[k] == sorted[1..][k - 1];
    }
  }

  // Soundness

  lemma LocalsSound(codec: Codec, raw: Bytes, es: seq<ZipEntry>, centralOffset: nat, eocd: nat)
    requires centralOffset <= eocd && eocd + 22 <= |raw|
    requires AllStorable(es) && NoDuplicates(Names(es))
    requires InspectLocals(raw, es, centralOffset, eocd).Ok?
    ensures var a := InspectLocals(raw, es, centralOffset, eocd).value;
            && a.raw == raw && a.comment == raw[eocd + 22..]
            && a.localOrder == Names(SortByOffset(a.entries))
            && MapEntries(View(), a.entries) == MapEntries(View(), es)
            && (a.entries != [] ==> Tiled(raw, SortByOffset(a.entries), 0, centralOffset))
  {
    var a := InspectLocals(raw, es, centralOffset, eocd).value;
    var sorted := SortByOffset(es);
    var f := Completion(raw, sorted, centralOffset);
    SortMapped(f, es);
    assert SortByOffset(a.entries) == MapEntries(f, sorted);
    assert Names(MapEntries(f, sorted)) == Names(sorted);
    assert MapEntries(View(), a.entries) == MapEntries(View(), es);
    SortMembers(es);
    SortNames(es);
    if es != [] {
      PlacedTile(raw, sorted, 0, centralOffset);
      assert MapEntries(f, sorted)[0..] == MapEntries(f, sorted);
    }
  }

  lemma ListedPlaced(codec: Codec, raw: Bytes, e: ZipEntry, spanEnd: nat)
    requires Listed(codec, e)
    ensures Listed(codec, Placed(raw, e, spanEnd))
  {
  }

  lemma EntriesAlike(codec: Codec, es: seq<ZipEntry>, fs: seq<ZipEntry>)
    requires AllStorable(es) && AllStorable(fs) && MapEntries(View(), es) == MapEntries(View(), fs)
    ensures Directory(es) == Directory(fs) && TotalSize(es) == TotalSize(fs) && Names(es) == Names(fs)
  {
    ViewsPrintAlike(es);
    ViewsPrintAlike(fs);
  }

  /** Every accepted byte string is laid out as described. */
  lemma InspectSound(codec: Codec, raw: Bytes)
    requires Inspect(codec, raw).Ok?
    ensures IsArchive(codec, Inspect(codec, raw).value) && Inspect(codec, raw).value.raw == raw
  {
    hide InspectLocals, ReadDirectory, Listed, CentralRecord, EocdFixed, Tiled, SortByOffset, U16At, U32At;
    var a := Inspect(codec, raw).value;
    var eocd := FindEocd(raw).value;
    var record := raw[eocd..eocd + 22];
    var offset: nat, n: nat := U32At(record, 16), U16At(record, 10);
    var es := ReadDirectory(codec, raw, offset, eocd, n).value;
    DirectoryReadPrints(codec, raw, offset, eocd, n);
    LocalsSound(codec, raw, es, offset, eocd);
    EntriesListed(codec, raw, es, offset, eocd);
    EntriesAlike(codec, es, a.entries);
    assert |a.entries| == |MapEntries(View(), a.entries)| == |es|;
    assert record[..4] == EOCD_SIGNATURE;
    EocdReadPrints(record);
    TailSplit(raw, offset, eocd);
  }

  lemma TailSplit(raw: Bytes, offset: nat, eocd: nat)
    requires offset <= eocd && eocd + 22 <= |raw|
    ensures raw[offset..] == raw[offset..eocd] + raw[eocd..eocd + 22][..22] + raw[eocd + 22..]
  {
  }

  lemma EntriesListed(codec: Codec, raw: Bytes, es: seq<ZipEntry>, centralOffset: nat, eocd: nat)
    requires centralOffset <= eocd && eocd + 22 <= |raw|
    requires InspectLocals(raw, es, centralOffset, eocd).Ok?
    requires forall e | e in es :: Listed(codec, e)
    ensures var a := InspectLocals(raw, es, centralOffset, eocd).value;
            AllStorable(a.entries) && forall e | e in a.entries :: Listed(codec, e)
  {
    var a := InspectLocals(raw, es, centralOffset, eocd).value;
    forall e | e in a.entries ensures Listed(codec, e) {
      var i :| 0 <= i < |a.entries| && a.entries[i] == e;
      ListedPlaced(codec, raw, es[i], SpanEndOf(SortByOffset(es), es[i].name, centralOffset));
    }
  }

  // Completeness

  lemma EocdFound(a: Archive, eocd: nat)
    requires |a.comment| < 0x1_0000 && eocd == |a.raw| - |a.comment| - 22
    requires SignatureAt(a.raw, EOCD_SIGNATURE, eocd) && LastSignature(a.raw, eocd)
    ensures FindEocd(a.raw) == Some(eocd)
  {
  }

  /** The record of one tiled entry passes every check, and completing its central view restores it. */
  lemma TiledPlaced(raw: Bytes, es: seq<ZipEntry>, to: nat, i: nat)
    requires to <= |raw| && NoDuplicates(Names(es)) && i < |es|
    requires Tiled(raw, SortByOffset(es), 0, to)
    ensures var order := MapEntries(View(), SortByOffset(es));
            var spanEnd := SpanEndOf(order, es[i].name, to);
            PlacedOk(raw, es[i].CentralView(), spanEnd, to) && Placed(raw, es[i].CentralView(), spanEnd) == es[i]
  {
    hide SortByOffset, RecordFits, PlacedOk, Placed;
    var sorted := SortByOffset(es);
    var order := MapEntries(View(), sorted);
    SortMembers(es);
    SortNames(es);
    assert es[i] in sorted;
    var k :| 0 <= k < |sorted| && sorted[k] == es[i];
    assert Names(order) == Names(sorted);
    TiledAt(raw, sorted, 0, to, k);
    SpanEndAt(order, k, to);
    FitsPlaced(raw, sorted[k], to);
  }

  lemma TiledOffsetsOk(raw: Bytes, sorted: seq<ZipEntry>, to: nat)
    requires to <= |raw| && Tiled(raw, sorted, 0, to)
    ensures OffsetsOk(sorted)
  {
    TiledAscends(raw, sorted, 0, to);
    hide Tiled;
    assert forall i, j | 0 <= i < j < |sorted| :: Offsets(sorted)[i] < Offsets(sorted)[j];
    if sorted != [] {
      TiledAt(raw, sorted, 0, to, 0);
    }
  }

  lemma LocalsComplete(codec: Codec, a: Archive, eocd: nat)
    requires AllStorable(a.entries) && NoDuplicates(Names(a.entries))
    requires 0 <= CentralOffset(a) <= eocd && eocd + 22 == |a.raw| - |a.comment|
    requires a.raw[eocd + 22..] == a.comment
    requires a.localOrder == Names(SortByOffset(a.entries))
    requires a.entries != [] ==> Tiled(a.raw, SortByOffset(a.entries), 0, CentralOffset(a))
    ensures InspectLocals(a.raw, MapEntries(View(), a.entries), CentralOffset(a), eocd) == Ok(a)
  {
    hide SortByOffset, Tiled, PlacedOk, Placed, CentralOffset, OffsetsOk;
    var es, to := a.entries, CentralOffset(a);
    var views, sorted := MapEntries(View(), es), SortByOffset(es);
    SortMapped(View(), es);
    var order := MapEntries(View(), sorted);
    assert Names(order) == Names(sorted);
    OrderOffsetsOk(a, to);
    forall i | 0 <= i < |views|
      ensures PlacedOk(a.raw, views[i], SpanEndOf(order, views[i].name, to), to)
      ensures Completion(a.raw, order, to)(views[i]) == es[i]
    {
      TiledPlaced(a.raw, es, to, i);
    }
    assert MapEntries(Completion(a.raw, order, to), views) == es;
  }

  lemma OrderOffsetsOk(a: Archive, to: nat)
    requires to <= |a.raw|
    requires a.entries != [] ==> Tiled(a.raw, SortByOffset(a.entries), 0, to)
    ensures OffsetsOk(MapEntries(View(), SortByOffset(a.entries)))
  {
    var sorted := SortByOffset(a.entries);
    if a.entries != [] {
      TiledOffsetsOk(a.raw, sorted, to);
    }
    assert Offsets(MapEntries(View(), sorted)) == Offsets(sorted);
  }

  /** Every archive laid out as described is accepted, as itself. */
  lemma InspectComplete(codec: Codec, a: Archive)
    requires IsArchive(codec, a)
    ensures Inspect(codec, a.raw) == Ok(a)
  {
    hide InspectLocals, ReadDirectory, Listed, Directory, EocdFixed, U16At, U32At, FindEocd, SortByOffset, EocdOk;
    hide Tiled, SignatureAt, LastSignature, Tail, TotalSize, NoDuplicates;
    var offset: nat := CentralOffset(a);
    var eocd := |a.raw| - |a.comment| - 22;
    RecordComplete(codec, a);
    AllListedStorable(codec, a.entries);
    DirectoryRoundTrip(codec, a.raw, offset, eocd, a.entries);
    ViewsPrintAlike(a.entries);
    LocalsComplete(codec, a, eocd);
  }

  /** The EOCD record of a laid-out archive is found, passes the checks and says where the directory is. */
  lemma RecordComplete(codec: Codec, a: Archive)
    requires IsArchive(codec, a)
    ensures var offset, eocd := CentralOffset(a), |a.raw| - |a.comment| - 22;
            && 0 <= offset <= eocd && FindEocd(a.raw) == Some(eocd)
            && a.raw[offset..eocd] == Directory(a.entries) && a.raw[eocd + 22..] == a.comment
            && var record := a.raw[eocd..eocd + 22];
               && EocdOk(record, eocd, |a.raw|) && U32At(record, 16) == offset && U16At(record, 10) == |a.entries|
  {
    hide Listed, Directory, EocdFixed, U16At, U32At, FindEocd, SortByOffset, TotalSize, NoDuplicates;
    var offset: nat := CentralOffset(a);
    var eocd := |a.raw| - |a.comment| - 22;
    var size := |Directory(a.entries)|;
    var tail := a.raw[offset..];
    var record := a.raw[eocd..eocd + 22];
    SliceOfSlice(a.raw, offset, |a.raw|, 0, size);
    SliceOfSlice(a.raw, offset, |a.raw|, size, size + 22);
    SliceOfSlice(a.raw, offset, |a.raw|, size + 22, |tail|);
    assert tail[0..size] == Directory(a.entries);
    assert record == EocdFixed(|a.entries|, size, offset, |a.comment|);
    assert a.raw[eocd + 22..] == a.comment;
    assert record[..22] == record;
    EocdRoundTrip(record, |a.entries|, size, offset, |a.comment|);
    assert record[..4] == a.raw[eocd..eocd + 4];
    EocdFound(a, eocd);
    if a.entries != [] {
      TiledAt(a.raw, SortByOffset(a.entries), 0, offset, 0);
    }
  }

  lemma AllListedStorable(codec: Codec, es: seq<ZipEntry>)
    requires forall e | e in es :: Listed(codec, e)
    ensures AllStorable(es)
  {
  }

  /** The inspector accepts a byte string as `a` exactly when `a` describes it. */
  lemma InspectExact(codec: Codec, raw: Bytes, a: Archive)
    ensures Inspect(codec, raw) == Ok(a) <==> a.raw == raw && IsArchive(codec, a)
  {
    hide Inspect, IsArchive;
    if Inspect(codec, raw) == Ok(a) {
      InspectSound(codec, raw);
    }
    if a.raw == raw && IsArchive(codec, a) {
      InspectComplete(codec, a);
    }
  }

  /** What is refused is no HWPX document exactly when it does not begin like a ZIP archive; otherwise it is unsafe. */
  lemma RefusedAs(codec: Codec, raw: Bytes)
    requires Inspect(codec, raw).Err?
    ensures var zip := |raw| >= 4 && raw[0] == 0x50 && raw[1] == 0x4B && raw[2] == 3 && raw[3] == 4;
            Inspect(codec, raw).error == if zip then UnsafeZip else NotHwpx
  {
    hide FindEocd, ReadDirectory, InspectLocals, EocdOk, U16At, U32At;
    var zip := |raw| >= 4 && raw[0] == 0x50 && raw[1] == 0x4B && raw[2] == 3 && raw[3] == 4;
    if zip {
      assert raw[0..4] == [0x50, 0x4B, 3, 4];
    } else if |raw| >= 4 {
      assert raw[0..4][0] == raw[0] && raw[0..4][1] == raw[1] && raw[0..4][2] == raw[2] && raw[0..4][3] == raw[3];
    }
    LocalsRefusedAs(codec, raw);
  }

  lemma LocalsRefusedAs(codec: Codec, raw: Bytes)
    ensures SignatureAt(raw, LOCAL_SIGNATURE, 0) && Inspect(codec, raw).Err? ==>
              Inspect(codec, raw).error == UnsafeZip
  {
    hide FindEocd, ReadDirectory, EocdOk, U16At, U32At, SortByOffset, OffsetsOk, PlacedOk;
  }
}
