/**
 Inputs that show the conditions of the archive theorems at work: an archive without entries, which a
 repack does not give back, and new data after which the editor refuses its own output.
 */
module ZipWitnesses {
  import opened Basics
  import opened Bytes
  import opened ZipFormat
  import opened ZipInspect
  import opened ZipLayout
  import opened ZipAcceptance
  import opened ZipRepack
  import opened ZipRoundTrip
  import opened ZipSignature
  import opened ZipTheorems

  // An archive without entries

  /** Four bytes that make the file look like a ZIP archive, then an EOCD record that declares no entry. */
  function NoEntries(): Archive {
    Archive(LOCAL_SIGNATURE + EocdFixed(0, 0, 4, 0), [], [], [])
  }

  lemma OneEocd(k: nat)
    ensures SignatureAt(NoEntries().raw, EOCD_SIGNATURE, k) ==> k == 4
  {
    TwoStarts();
    hide NoEntries;
    if SignatureAt(NoEntries().raw, EOCD_SIGNATURE, k) {
      Spelled(NoEntries().raw, k);
    }
  }

  /** The byte that signatures begin with stands in two places, and one of them begins another signature. */
  lemma TwoStarts()
    ensures |NoEntries().raw| == 26 && NoEntries().raw[2] == 3
    ensures forall i | 0 <= i < 26 && NoEntries().raw[i] == 0x50 :: i == 0 || i == 4
  {
    forall i | 0 <= i < 26 && i != 0 && i != 4 ensures NoEntries().raw[i] != 0x50 {
      if i >= 4 {
        assert NoEntries().raw[i] == EocdFixed(0, 0, 4, 0)[i - 4];
      }
    }
  }

  /** It is inspected, and a repack without any edit drops the bytes in front of the record. */
  lemma NoEntriesShrinks(codec: Codec)
    ensures Inspect(codec, NoEntries().raw) == Ok(NoEntries()) && Coherent(NoEntries())
    ensures Repack(codec, NoEntries(), map[], []) != Ok(NoEntries().raw)
  {
    var a := NoEntries();
    NoEntriesInspected(codec);
    hide *;
    EntriesOfNone();
    NoOpIdentity(codec, a);
  }

  lemma EntriesOfNone()
    ensures NoEntries().entries == []
  {
  }

  lemma NoEntriesInspected(codec: Codec)
    ensures Inspect(codec, NoEntries().raw) == Ok(NoEntries())
  {
    var a := NoEntries();
    forall k | 4 < k ensures !SignatureAt(a.raw, EOCD_SIGNATURE, k) {
      OneEocd(k);
    }
    assert a.raw[4..] == Tail([], 4, []);
    assert a.raw[0..4] == LOCAL_SIGNATURE;
    assert Names(SortByOffset([])) == [];
    hide EocdFixed, Inspect;
    InspectComplete(codec, a);
  }

  // An archive with one stored entry

  /** An empty stored entry "a", as the first record of an archive. */
  const EMPTY: ZipEntry := ZipEntry("a", [0x61], 20, 20, 0, STORED, 0, 0, 0, 0, 0, 0, 0, 0, 0, [], [], [], 31, 31, 31)

  function Single(): Archive {
    SingleDirectory(EMPTY);
    Archive(LocalHead(EMPTY) + Tail([EMPTY], 31, []), [EMPTY], ["a"], [])
  }

  /** The codec reads the byte of "a" as "a", as every ASCII-compatible one does. */
  ghost predicate ReadsA(codec: Codec) {
    codec.Lawful() && codec.encodeUtf8("a") == Some([0x61])
  }

  lemma SingleDirectory(e: ZipEntry)
    requires e.Storable() && |e.nameBytes| == 1 && e.centralExtra == [] && e.comment == []
    ensures AllStorable([e]) && Directory([e]) == CentralRecord(e) && |CentralRecord(e)| == 47
  {
    assert [e][1..] == [] && CentralRecord(e) + [] == CentralRecord(e);
  }

  lemma SingleParts()
    ensures var raw := Single().raw;
            && |raw| == 100 && raw[..31] == LocalHead(EMPTY) && raw[31..] == Tail([EMPTY], 31, [])
            && raw[78..] == Ending(1, 47, 31, []) && |LocalHead(EMPTY)| == 31 && CentralOffset(Single()) == 31
  {
    hide LocalFixed, CentralFixed, EocdFixed;
    SingleDirectory(EMPTY);
    assert EocdFixed(1, 47, 31, 0) + [] == EocdFixed(1, 47, 31, 0);
  }

  lemma EmptyListed(codec: Codec)
    requires ReadsA(codec)
    ensures Listed(codec, EMPTY)
  {
    assert IsAscii([0x61]) && NameOk("a") && ExtraOk([]);
  }

  lemma SingleEnds()
    ensures LastSignature(Single().raw, 78)
  {
    SingleParts();
    hide Single, EocdFixed;
    var ending := Single().raw[78..];
    assert |ending| == 22;
    EndingByFields(Single().raw, 78, 1, 47, 31, []);
  }

  lemma HeadStarts()
    ensures LocalHead(EMPTY)[..4] == LOCAL_SIGNATURE
  {
    assert LocalFixed(EMPTY)[..4] == LOCAL_SIGNATURE;
    hide LocalFixed;
    assert LocalHead(EMPTY)[..4] == LocalFixed(EMPTY)[..4];
  }

  lemma SingleFits(raw: Bytes)
    requires |raw| >= 31 && raw[..31] == LocalHead(EMPTY) && |LocalHead(EMPTY)| == 31
    ensures RecordFits(raw, EMPTY, 31)
  {
    hide LocalHead;
    assert raw[0..31] == raw[..31];
    assert ExtraOk([]);
  }

  lemma SingleTiled()
    ensures SignatureAt(Single().raw, LOCAL_SIGNATURE, 0) && Tiled(Single().raw, [EMPTY], 0, 31)
  {
    SingleParts();
    HeadStarts();
    hide Single, LocalHead, RecordFits;
    var raw := Single().raw;
    assert raw[0..4] == raw[..31][..4];
    SingleFits(raw);
    OneTiled(raw, EMPTY, 31);
  }

  lemma OneTiled(raw: Bytes, e: ZipEntry, to: nat)
    requires to <= |raw| && RecordFits(raw, e, to) && e.localOffset == 0 && e.spanEnd == to
    ensures Tiled(raw, [e], 0, to)
  {
    hide RecordFits;
    assert [e][1..] == [];
  }

  lemma SingleInspected(codec: Codec)
    requires ReadsA(codec)
    ensures Inspect(codec, Single().raw) == Ok(Single())
  {
    EmptyListed(codec);
    SingleParts();
    SingleEnds();
    SingleTiled();
    SingleDirectory(EMPTY);
    var a := Single();
    assert TotalSize([EMPTY][1..]) == 0 && Insert(EMPTY, []) == [EMPTY];
    assert SortByOffset([EMPTY][1..]) == [] && SortByOffset([EMPTY]) == [EMPTY] && Names([EMPTY]) == ["a"];
    hide Inspect, EocdFixed, LocalHead, Directory, Tiled, Listed, SortByOffset, LastSignature, SignatureAt, Tail;
    InspectComplete(codec, a);
  }

  // New data for the entry: it is stored as it is, whatever the codec deflates to

  function NewEntry(codec: Codec, data: Bytes): ZipEntry
    requires |data| < 0x1000_0000
  {
    EMPTY.(crc := codec.crc32(data), compressedSize := |data|, uncompressedSize := |data|, dataStart := 0, dataEnd := 0,
      spanEnd := 0)
  }

  function NewItem(codec: Codec, data: Bytes): Item
    requires |data| < 0x1000_0000
  {
    Item(NewEntry(codec, data), LocalHead(NewEntry(codec, data)) + data)
  }

  lemma {:induction false} OneItem(codec: Codec, data: Bytes)
    requires |data| < 0x1000_0000
    ensures Coherent(Single()) && NoDuplicates(AddedNames([])) && ArgumentError(Single(), map["a" := data], []) == None
    ensures AllItems(codec, Single(), map["a" := data], []) == Ok([NewItem(codec, data)])
  {
    SingleParts();
    var a, changed := Single(), map["a" := data];
    OneEntry(EMPTY);
    hide LocalHead, Tail;
    assert Coherent(a);
    assert LocalEntries(a) == [EMPTY];
    assert a.raw[31..31] == [];
    var item := NewItem(codec, data);
    assert item.bytes + [] == item.bytes;
    assert LocalItem(codec, a.raw, EMPTY, changed, 0) == Ok(item);
    hide LocalItem, NewItem;
    assert [EMPTY][1..] == [] && [item] + [] == [item];
    assert LocalItems(codec, a.raw, [EMPTY][1..], changed, |item.bytes|) == Ok([]);
    assert LocalItems(codec, a.raw, [EMPTY], changed, 0) == Ok([item]);
    assert AddedItems(codec, [], |ItemBytes([item])|) == Ok([]);
  }

  lemma OneEntry(e: ZipEntry)
    ensures ByName([e]) == map[e.name := e]
  {
    assert [e][..0] == [];
  }

  /** The repack succeeds, and its output would have these sizes. */
  lemma {:induction false} OneChange(codec: Codec, data: Bytes)
    requires |data| < 0x1000_0000
    ensures Coherent(Single()) && NoDuplicates(AddedNames([])) && Repack(codec, Single(), map["a" := data], []).Ok?
    ensures var b := Edited(codec, Single(), map["a" := data], []);
            && |b.entries| == 1 && AllStorable(b.entries) && |Directory(b.entries)| == 47
            && b.entries[0].compressedSize == |data| && b.entries[0].uncompressedSize == |data|
            && CentralOffset(b) == 31 + |data| && |b.raw| == 100 + |data|
  {
    OneItem(codec, data);
    var a, changed, items := Single(), map["a" := data], [NewItem(codec, data)];
    hide LocalFixed, EocdFixed, CentralFixed, LocalItem;
    AllItemsNamed(codec, a, changed, []);
    var central := CentralEntries(a, [], items);
    OneEntry(items[0].entry);
    OneLaid(items);
    assert Names([EMPTY]) == ["a"] && AddedNames([]) == [] && CentralNames(a, []) == ["a"];
    assert central == [items[0].entry];
    SingleDirectory(items[0].entry);
    SingleDirectory(Laid(items[0]));
    assert ItemBytes(items[1..]) == [];
  }

  lemma OneLaid(items: seq<Item>)
    requires |items| == 1 && ItemsStorable(items)
    ensures ItemEntries(items) == [items[0].entry] && LaidAll(items) == [Laid(items[0])]
    ensures ByName(LaidAll(items)) == map[items[0].entry.name := Laid(items[0])]
  {
    assert items[0] in items;
    OneEntry(Laid(items[0]));
  }

  /** What became of the change: the verdict on the output follows from its size. */
  lemma {:induction false} VerdictOnChange(codec: Codec, data: Bytes)
    requires ReadsA(codec) && |data| < 0x1000_0000
    ensures Coherent(Single()) && NoDuplicates(AddedNames([])) && Repack(codec, Single(), map["a" := data], []).Ok?
    ensures var b := Edited(codec, Single(), map["a" := data], []);
            && Repack(codec, Single(), map["a" := data], []) == Ok(b.raw)
            && (WithinInspectorLimits(b) <==> |data| <= MAX_ENTRY_UNCOMPRESSED_BYTES)
            && (Inspect(codec, b.raw).Ok? <==>
                |data| <= MAX_ENTRY_UNCOMPRESSED_BYTES && 31 + |data| != 0x0605_4B50)
  {
    var a, changed := Single(), map["a" := data];
    OneChange(codec, data);
    SingleInspected(codec);
    LimitsOfOne(Edited(codec, a, changed, []), |data|);
    OnlyTheOffset(31 + |data|);
    assert a.comment == [];
    hide *;
    RoundTrip(codec, a, changed, []);
  }

  /** With a directory of 47 bytes and no comment only the offset can spell a signature. */
  lemma OnlyTheOffset(offset: nat)
    ensures FieldsSpellSignature(47, offset, 0) <==> offset == 0x0605_4B50
  {
  }

  lemma LimitsOfOne(b: Archive, length: nat)
    requires |b.entries| == 1 && length < 0x1000_0000 && |b.raw| == 100 + length
    requires b.entries[0].compressedSize == length && b.entries[0].uncompressedSize == length
    ensures WithinInspectorLimits(b) <==> length <= MAX_ENTRY_UNCOMPRESSED_BYTES
  {
    var e := b.entries[0];
    assert b.entries == [e] && TotalSize([e][1..]) == 0;
    assert TotalSize([e]) == length;
    assert e in b.entries && forall f | f in b.entries :: f == e;
    assert SizesOk(e.compressedSize, e.uncompressedSize) <==> length <= MAX_ENTRY_UNCOMPRESSED_BYTES;
  }

  /** New data within every limit, whose length puts the central directory at offset 0x06054b50. */
  lemma {:induction false} HiddenSignatureRefused(codec: Codec, data: Bytes)
    requires ReadsA(codec) && |data| == 0x0605_4B50 - 31
    ensures Inspect(codec, Single().raw) == Ok(Single()) && Coherent(Single()) && NoDuplicates(AddedNames([]))
    ensures var out := Repack(codec, Single(), map["a" := data], []);
            && out.Ok? && Inspect(codec, out.value).Err?
            && WithinInspectorLimits(Edited(codec, Single(), map["a" := data], []))
  {
    SingleInspected(codec);
    VerdictOnChange(codec, data);
    hide Inspect, Repack, Edited, WithinInspectorLimits, Coherent, NoDuplicates, Single;
  }

  /** New data of one byte more than the inspector allows in an entry, which the repacker does not mind. */
  lemma {:induction false} LargeEntryRefused(codec: Codec, data: Bytes)
    requires ReadsA(codec) && |data| == MAX_ENTRY_UNCOMPRESSED_BYTES + 1
    ensures Inspect(codec, Single().raw) == Ok(Single()) && Coherent(Single()) && NoDuplicates(AddedNames([]))
    ensures var out := Repack(codec, Single(), map["a" := data], []);
            && out.Ok? && Inspect(codec, out.value).Err?
              && CentralOffset(Edited(codec, Single(), map["a" := data], [])) != 0x0605_4B50
  {
    SingleInspected(codec);
    VerdictOnChange(codec, data);
    OneChange(codec, data);
    hide Inspect, Repack, Edited, WithinInspectorLimits, Coherent, NoDuplicates, Single;
  }
}
