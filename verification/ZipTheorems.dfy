/**
 The promises of the repacker, stated over inspected archives: its output is read back as the
 edited archive, the edited archive holds exactly the given data, and everything else is kept.
 */
module ZipTheorems {
  import opened Basics
  import opened Bytes
  import opened ZipFormat
  import opened ZipInspect
  import opened ZipSorting
  import opened ZipLayout
  import opened ZipAcceptance
  import opened ZipRepack
  import opened ZipRoundTrip
  import opened ZipSignature

  // Re-inspection

  lemma {:induction false} EditedListed(codec: Codec, a: Archive, changed: map<string, Bytes>,
      added: seq<(string, Bytes)>, items: seq<Item>, out: Bytes)
    requires codec.Lawful() && Repacked(codec, a, changed, added, items, out)
    requires SortByOffset(Reread(a, added, items, out).entries) == LaidAll(items)
    requires AllSizesOk(Reread(a, added, items, out).entries)
    ensures forall e | e in Reread(a, added, items, out).entries :: Listed(codec, e)
  {
    var es := Reread(a, added, items, out).entries;
    hide *;
    SortPermutes(es);
    SortMembers(es);
    EntrySizes(items, es);
    RecordsListed(codec, a, changed, added, items, out);
    LaidEntriesListed(codec, items);
  }

  lemma EditedIs(codec: Codec, a: Archive, changed: map<string, Bytes>, added: seq<(string, Bytes)>, items: seq<Item>,
      out: Bytes)
    requires Repacked(codec, a, changed, added, items, out) && Repack(codec, a, changed, added) == Ok(out)
    ensures Edited(codec, a, changed, added) == Reread(a, added, items, out)
    ensures var b := Reread(a, added, items, out); b.raw == out && b.comment == a.comment
                                                   && b.localOrder == a.localOrder + AddedNames(added)
  {
    hide Repack, Coherent, IsArchive, ArgumentError, AllItems, Assemble, SortByOffset, LocalEntries;
  }

  /**
   The inspector accepts the output exactly when it keeps the inspector's limits, which are tighter than
   the repacker's, and no field of its EOCD record spells a second signature; then it is read back as the
   edited archive, and as nothing else.
   */
  lemma {:induction false} RoundTrip(codec: Codec, a: Archive, changed: map<string, Bytes>, added: seq<(string, Bytes)>)
    requires codec.Lawful() && Inspect(codec, a.raw) == Ok(a) && NoDuplicates(AddedNames(added))
    ensures Coherent(a)
    ensures Repack(codec, a, changed, added).Ok? ==>
              var out, b := Repack(codec, a, changed, added).value, Edited(codec, a, changed, added);
              && b.raw == out && AllStorable(b.entries)
              && (Inspect(codec, out).Ok? <==>
                  WithinInspectorLimits(b) &&
                  !FieldsSpellSignature(|Directory(b.entries)|, CentralOffset(b), |a.comment|))
              && (Inspect(codec, out).Ok? ==> Inspect(codec, out) == Ok(b))
  {
    InspectedCoherent(codec, a);
    if Repack(codec, a, changed, added).Ok? {
      var items := RepackedItems(codec, a, changed, added);
      var out := Repack(codec, a, changed, added).value;
      EditedIs(codec, a, changed, added, items, out);
      LaysOut(codec, a, changed, added, items, out);
      assert IsLaidOut(Reread(a, added, items, out), items);
      hide *;
      ReadBack(codec, a, changed, added, items, out);
      AcceptedOrNot(codec, a, Reread(a, added, items, out), items);
    }
  }

  lemma {:induction false} AcceptedOrNot(codec: Codec, a: Archive, b: Archive, items: seq<Item>)
    requires IsArchive(codec, a) && a.comment == b.comment
    requires IsLaidOut(b, items) && OutputLaidOut(codec, b, items)
    requires Inspect(codec, b.raw) == Ok(b) <==>
             WithinInspectorLimits(b) && LastSignature(b.raw, |b.raw| - |a.comment| - 22)
    ensures AllStorable(b.entries)
    ensures Inspect(codec, b.raw).Ok? <==>
            WithinInspectorLimits(b) && !FieldsSpellSignature(|Directory(b.entries)|, CentralOffset(b), |a.comment|)
    ensures Inspect(codec, b.raw).Ok? ==> Inspect(codec, b.raw) == Ok(b)
  {
    OutputFacts(codec, b, items);
    hide OutputLaidOut, LastSignature, WithinInspectorLimits, Inspect, Directory, FieldsSpellSignature, IsArchive;
    if WithinInspectorLimits(b) {
      SignatureByFields(codec, a, b, items);
    }
    if Inspect(codec, b.raw).Ok? {
      AcceptedOutput(codec, a, b, items);
    }
  }

  lemma InspectedCoherent(codec: Codec, a: Archive)
    requires Inspect(codec, a.raw) == Ok(a)
    ensures IsArchive(codec, a) && Coherent(a) && LocalEntries(a) == SortByOffset(a.entries)
  {
    hide *;
    InspectExact(codec, a.raw, a);
    ArchiveCoherent(codec, a);
  }

  ghost predicate IsLaidOut(b: Archive, items: seq<Item>) {
    ItemsStorable(items) && SortByOffset(b.entries) == LaidAll(items)
  }

  lemma {:induction false} ReadBack(codec: Codec, a: Archive, changed: map<string, Bytes>, added: seq<(string, Bytes)>,
                                    items: seq<Item>, out: Bytes)
    requires codec.Lawful() && Repacked(codec, a, changed, added, items, out)
    requires var b := Reread(a, added, items, out);
             b.raw == out && b.comment == a.comment && OutputLaidOut(codec, b, items) && IsLaidOut(b, items)
    ensures var b := Reread(a, added, items, out);
            Inspect(codec, out) == Ok(b) <==> WithinInspectorLimits(b) && LastSignature(out, |out| - |a.comment| - 22)
  {
    var b := Reread(a, added, items, out);
    hide Inspect, IsArchive, Repacked, OutputLaidOut, Reread, SortByOffset, LaidAll, Listed, LastSignature,
      WithinInspectorLimits,
      Codec.Lawful, SizesOk;
    if AllSizesOk(b.entries) {
      EditedListed(codec, a, changed, added, items, out);
    }
    LaidOutIsArchive(codec, b, items);
    InspectExact(codec, out, b);
  }

  // Contents

  /** The data an entry stands for. */
  function Payload(codec: Codec, raw: Bytes, e: ZipEntry): Option<Bytes>
    requires e.dataStart <= e.dataEnd <= |raw|
  {
    var data := raw[e.dataStart..e.dataEnd];
    if e.compression == STORED then Some(data) else codec.inflate(data)
  }

  /** The entry stands for exactly `data`, and its checksum and size say so. */
  ghost predicate Holds(codec: Codec, raw: Bytes, e: ZipEntry, data: Bytes) {
    && e.dataStart <= e.dataEnd <= e.spanEnd <= |raw|
    && Payload(codec, raw, e) == Some(data) && e.crc == codec.crc32(data) && e.uncompressedSize == |data|
  }

  /** The edited entry `f` of the original `e`: new data if it was changed, the same local record if not. */
  ghost predicate Kept(codec: Codec, raw: Bytes, e: ZipEntry, changed: map<string, Bytes>, out: Bytes, f: ZipEntry)
    requires Sliceable(raw, e)
  {
    && f.localOffset as nat <= f.spanEnd <= |out|
    && f.(crc := e.crc, compressedSize := e.compressedSize, uncompressedSize := e.uncompressedSize,
          localOffset := e.localOffset, dataStart := e.dataStart, dataEnd := e.dataEnd, spanEnd := e.spanEnd) == e
    && (e.name !in changed ==>
          && out[f.localOffset..f.spanEnd] == raw[e.localOffset..e.spanEnd]
          && f.crc == e.crc && f.compressedSize == e.compressedSize && f.uncompressedSize == e.uncompressedSize)
    && (e.name in changed ==>
          Holds(codec, out, f, changed[e.name]) && out[f.dataEnd..f.spanEnd] == raw[e.dataEnd..e.spanEnd])
  }

  lemma {:induction false} ItemAt(raw: Bytes, items: seq<Item>, from: nat, to: nat, k: nat)
    requires Contiguous(items, from) && from <= to <= |raw| && raw[from..to] == ItemBytes(items) && k < |items|
    ensures var start: nat := items[k].entry.localOffset;
            start + |items[k].bytes| <= to && raw[start..start + |items[k].bytes|] == items[k].bytes
    decreases k
  {
    var item, next := items[0], from + |items[0].bytes|;
    assert |raw[from..to]| == |item.bytes| + |ItemBytes(items[1..])|;
    SliceOfSlice(raw, from, to, 0, |item.bytes|);
    SliceOfSlice(raw, from, to, |item.bytes|, to - from);
    if k > 0 {
      ItemAt(raw, items[1..], next, to, k - 1);
    }
  }

  /** A written record in the output holds what it carries. */
  lemma {:induction false} CarriedHolds(codec: Codec, out: Bytes, item: Item, data: Bytes)
    requires codec.Lawful() && ItemFits(item) && Carries(codec, item, data)
    requires item.entry.compression == STORED || item.entry.compression == DEFLATED
    requires var start: nat := item.entry.localOffset;
             start + |item.bytes| <= |out| && out[start..start + |item.bytes|] == item.bytes
    ensures Holds(codec, out, Laid(item), data)
    ensures out[Laid(item).dataEnd..Laid(item).spanEnd]
            == item.bytes[|LocalHead(item.entry)| + item.entry.compressedSize as nat..]
  {
    hide ExtraOk, LocalHead;
    var start: nat, head: nat := item.entry.localOffset, |LocalHead(item.entry)|;
    var end := head + item.entry.compressedSize as nat;
    SliceOfSlice(out, start, start + |item.bytes|, head, end);
    SliceOfSlice(out, start, start + |item.bytes|, end, |item.bytes|);
  }

  /** A record that comes from an entry keeps it. */
  lemma {:induction false} FromKept(codec: Codec, raw: Bytes, e: ZipEntry, changed: map<string, Bytes>, out: Bytes,
      item: Item)
    requires codec.Lawful() && Sliceable(raw, e) && Listed(codec, e) && FromEntry(codec, raw, e, changed, item)
    requires var start: nat := item.entry.localOffset;
             start + |item.bytes| <= |out| && out[start..start + |item.bytes|] == item.bytes
    ensures Kept(codec, raw, e, changed, out, Laid(item))
  {
    if e.name in changed {
      assert item.entry.compression == e.compression;
      hide *;
      CarriedHolds(codec, out, item, changed[e.name]);
    }
  }

  /** In the edited archive, the entry at `m` is the written record that bears its name. */
  lemma {:induction false} EntryIsLaid(a: Archive, added: seq<(string, Bytes)>, items: seq<Item>, out: Bytes, m: nat,
      k: nat)
    requires Coherent(a) && ItemsStorable(items) && Names(ItemEntries(items)) == a.localOrder + AddedNames(added)
    requires NoDuplicates(Names(ItemEntries(items)))
    requires m < |CentralNames(a, added)| && k < |items| && items[k].entry.name == CentralNames(a, added)[m]
    ensures Reread(a, added, items, out).entries[m] == Laid(items[k])
  {
    hide Coherent, ByName, NoDuplicates;
    LaidNames(items);
    AllEmitted(a, added, LaidAll(items));
    assert items[k] in items && LaidAll(items)[k] in LaidAll(items);
    ByNameExact(LaidAll(items), LaidAll(items)[k]);
  }

  /** An addition: a deflated record with the plainest header fields. */
  ghost predicate AddedAs(codec: Codec, f: ZipEntry, name: string) {
    && f.name == name && codec.encodeUtf8(name) == Some(f.nameBytes)
    && f.flags == (if IsAscii(f.nameBytes) then 0 else 0x0800)
    && f.compression == DEFLATED && f.versionMadeBy == f.versionNeeded == 20
    && f.modTime == f.modDate == f.internalAttr == f.externalAttr == f.diskStart == 0
    && f.localExtra == f.centralExtra == f.comment == []
  }

  lemma AdditionAs(codec: Codec, name: string, data: Bytes, offset: nat)
    requires AddedItem(codec, name, data, offset).Ok?
    ensures AddedAs(codec, Laid(AddedItem(codec, name, data, offset).value), name)
  {
    hide LocalHead;
  }

  /** The record is written where its entry says. */
  ghost predicate StoredAt(out: Bytes, item: Item) {
    var start: nat := item.entry.localOffset;
    start + |item.bytes| <= |out| && out[start..start + |item.bytes|] == item.bytes
  }

  lemma {:induction false} AllStored(out: Bytes, items: seq<Item>)
    requires Contiguous(items, 0) && |ItemBytes(items)| <= |out| && out[0..|ItemBytes(items)|] == ItemBytes(items)
    ensures forall item | item in items :: StoredAt(out, item)
  {
    hide Contiguous, ItemBytes;
    forall item | item in items ensures StoredAt(out, item) {
      var k :| 0 <= k < |items| && items[k] == item;
      ItemAt(out, items, 0, |ItemBytes(items)|, k);
    }
  }

  lemma {:induction false} LocalTells(codec: Codec, raw: Bytes, es: seq<ZipEntry>, changed: map<string, Bytes>,
      out: Bytes, locals: seq<Item>, k: nat)
    requires codec.Lawful() && |es| == |locals| && k < |es|
    requires forall e | e in es :: Listed(codec, e) && Sliceable(raw, e)
    requires forall i | 0 <= i < |es| :: FromEntry(codec, raw, es[i], changed, locals[i])
    requires forall item | item in locals :: StoredAt(out, item)
    ensures locals[k].entry.Storable() && Kept(codec, raw, es[k], changed, out, Laid(locals[k]))
    ensures locals[k].entry.name == es[k].name
  {
    hide Listed, Laid, Kept, Codec.Lawful, Sliceable;
    assert es[k] in es && locals[k] in locals;
    FromKept(codec, raw, es[k], changed, out, locals[k]);
  }

  lemma {:induction false} AdditionTells(codec: Codec, added: seq<(string, Bytes)>, offset: nat, out: Bytes, j: nat)
    requires codec.Lawful() && AddedItems(codec, added, offset).Ok? && j < |added|
    requires forall item | item in AddedItems(codec, added, offset).value :: StoredAt(out, item)
    ensures var item := AddedItems(codec, added, offset).value[j];
            && item.entry.name == added[j].0
            && Holds(codec, out, Laid(item), added[j].1) && AddedAs(codec, Laid(item), added[j].0)
  {
    hide AddedItems, AddedItem, Holds, Carries, Laid, ItemFits, Codec.Lawful, AddedAs;
    var at := AddedItemAt(codec, added, offset, j);
    var item := AddedItems(codec, added, offset).value[j];
    assert item in AddedItems(codec, added, offset).value;
    AdditionAs(codec, added[j].0, added[j].1, at);
    AddedItemCarries(codec, added[j].0, added[j].1, at);
    AdditionDeflated(codec, item, added[j].0);
    CarriedHolds(codec, out, item, added[j].1);
  }

  lemma AdditionDeflated(codec: Codec, item: Item, name: string)
    requires item.entry.Storable() && AddedAs(codec, Laid(item), name)
    ensures item.entry.compression == DEFLATED
  {
    hide LocalHead;
  }

  /** The central order is the old order and then the additions, and every entry holds what it should. */
  ghost predicate Contents(codec: Codec, a: Archive, changed: map<string, Bytes>, added: seq<(string, Bytes)>,
      b: Archive) {
    && b.comment == a.comment && b.localOrder == a.localOrder + AddedNames(added)
    && |b.entries| == |a.entries| + |added|
    && (forall i | 0 <= i < |a.entries| ::
          Sliceable(a.raw, a.entries[i]) && Kept(codec, a.raw, a.entries[i], changed, b.raw, b.entries[i]))
    && (forall j | 0 <= j < |added| ::
          var f := b.entries[|a.entries| + j];
          AddedAs(codec, f, added[j].0) && Holds(codec, b.raw, f, added[j].1))
  }

  lemma RepackContents(codec: Codec, a: Archive, changed: map<string, Bytes>, added: seq<(string, Bytes)>)
    requires codec.Lawful() && Inspect(codec, a.raw) == Ok(a) && NoDuplicates(AddedNames(added))
    ensures Coherent(a)
    ensures Repack(codec, a, changed, added).Ok?
            ==> Contents(codec, a, changed, added, Edited(codec, a, changed, added))
  {
    InspectedCoherent(codec, a);
    if Repack(codec, a, changed, added).Ok? {
      var items := RepackedItems(codec, a, changed, added);
      var out := Repack(codec, a, changed, added).value;
      EditedIs(codec, a, changed, added, items, out);
      hide *;
      ContentsOf(codec, a, changed, added, items, out);
    }
  }

  lemma {:induction false} OutputHolds(codec: Codec, a: Archive, changed: map<string, Bytes>,
      added: seq<(string, Bytes)>, items: seq<Item>, out: Bytes)
    requires Repacked(codec, a, changed, added, items, out) && Contiguous(items, 0)
    ensures forall item | item in items :: StoredAt(out, item)
    ensures Names(ItemEntries(items)) == a.localOrder + AddedNames(added)
    ensures NoDuplicates(Names(ItemEntries(items)))
  {
    RepackedNames(codec, a, changed, added, items, out);
    assert Assemble(items, CentralEntries(a, added, items), a.comment) == Ok(out) && |a.comment| < 0x1_0000;
    assert Names(ItemEntries(items)) == a.localOrder + AddedNames(added);
    assert a.localOrder == Names(SortByOffset(a.entries));
    hide *;
    OutputParts(items, CentralEntries(a, added, items), a.comment, out);
    AllStored(out, items);
    CentralNamesPermute(a, added);
    PermutationDistinct(CentralNames(a, added), Names(ItemEntries(items)));
  }

  lemma {:induction false} OriginalKept(codec: Codec, a: Archive, changed: map<string, Bytes>,
      added: seq<(string, Bytes)>, items: seq<Item>, out: Bytes, es: seq<ZipEntry>, locals: seq<Item>,
      more: seq<Item>, i: nat)
    requires Coherent(a) && ItemsStorable(items) && Names(ItemEntries(items)) == a.localOrder + AddedNames(added)
    requires NoDuplicates(Names(ItemEntries(items))) && i < |a.entries|
    requires items == locals + more && a.entries[i] in es
    requires codec.Lawful() && |es| == |locals|
    requires forall e | e in es :: Listed(codec, e) && Sliceable(a.raw, e)
    requires forall k | 0 <= k < |es| :: FromEntry(codec, a.raw, es[k], changed, locals[k])
    requires forall item | item in items :: StoredAt(out, item)
    ensures Sliceable(a.raw, a.entries[i])
    ensures Kept(codec, a.raw, a.entries[i], changed, out, Reread(a, added, items, out).entries[i])
  {
    hide *;
    var k :| 0 <= k < |es| && es[k] == a.entries[i];
    LocalTells(codec, a.raw, es, changed, out, locals, k);
    assert items[k] == locals[k];
    CentralNameAt(a, added, i);
    EntryIsLaid(a, added, items, out, i, k);
  }

  lemma CentralNameAt(a: Archive, added: seq<(string, Bytes)>, m: nat)
    requires m < |a.entries| + |added|
    ensures |CentralNames(a, added)| == |a.entries| + |added|
    ensures CentralNames(a, added)[m] == if m < |a.entries| then a.entries[m].name else added[m - |a.entries|].0
  {
  }

  lemma {:induction false} AdditionKept(codec: Codec, a: Archive, added: seq<(string, Bytes)>,
                                        items: seq<Item>, out: Bytes, locals: seq<Item>, more: seq<Item>, j: nat)
    requires Coherent(a) && ItemsStorable(items) && Names(ItemEntries(items)) == a.localOrder + AddedNames(added)
    requires NoDuplicates(Names(ItemEntries(items))) && j < |added| == |more| && |locals| == |a.entries|
    requires items == locals + more && codec.Lawful() && AddedItems(codec, added, |ItemBytes(locals)|) == Ok(more)
    requires forall item | item in items :: StoredAt(out, item)
    ensures var f := Reread(a, added, items, out).entries[|a.entries| + j];
            AddedAs(codec, f, added[j].0) && Holds(codec, out, f, added[j].1)
  {
    hide *;
    AdditionTells(codec, added, |ItemBytes(locals)|, out, j);
    assert items[|locals| + j] == more[j];
    CentralNameAt(a, added, |a.entries| + j);
    EntryIsLaid(a, added, items, out, |a.entries| + j, |locals| + j);
  }

  lemma {:induction false} ContentsOf(codec: Codec, a: Archive, changed: map<string, Bytes>,
      added: seq<(string, Bytes)>, items: seq<Item>, out: Bytes)
    requires codec.Lawful() && Repacked(codec, a, changed, added, items, out)
    requires var b := Reread(a, added, items, out);
             b.raw == out && b.comment == a.comment && b.localOrder == a.localOrder + AddedNames(added)
    ensures Contents(codec, a, changed, added, Reread(a, added, items, out))
  {
    var locals, more := RecordsWritten(codec, a, changed, added, items, out);
    RepackedParts(codec, a, changed, added, items, out, locals, more);
    OutputHolds(codec, a, changed, added, items, out);
    var es := LocalEntries(a);
    assert ItemsStorable(items) && Coherent(a) && LocalEntries(a) == SortByOffset(a.entries);
    SortMembers(a.entries);
    hide *;
    forall i | 0 <= i < |a.entries|
      ensures Sliceable(a.raw, a.entries[i])
              && Kept(codec, a.raw, a.entries[i], changed, out, Reread(a, added, items, out).entries[i])
    {
      OriginalKept(codec, a, changed, added, items, out, es, locals, more, i);
    }
    forall j | 0 <= j < |added|
      ensures var f := Reread(a, added, items, out).entries[|a.entries| + j];
              AddedAs(codec, f, added[j].0) && Holds(codec, out, f, added[j].1)
    {
      AdditionKept(codec, a, added, items, out, locals, more, j);
    }
    ContentsFold(codec, a, changed, added, Reread(a, added, items, out));
  }

  lemma ContentsFold(codec: Codec, a: Archive, changed: map<string, Bytes>, added: seq<(string, Bytes)>, b: Archive)
    requires b.comment == a.comment && b.localOrder == a.localOrder + AddedNames(added)
    requires |b.entries| == |a.entries| + |added|
    requires forall i | 0 <= i < |a.entries| ::
               Sliceable(a.raw, a.entries[i]) && Kept(codec, a.raw, a.entries[i], changed, b.raw, b.entries[i])
    requires forall j | 0 <= j < |added| ::
               var f := b.entries[|a.entries| + j]; AddedAs(codec, f, added[j].0) && Holds(codec, b.raw, f, added[j].1)
    ensures Contents(codec, a, changed, added, b)
  {
    hide Sliceable, Kept, AddedAs, Holds;
  }
}
