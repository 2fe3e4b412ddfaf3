/** An addition that succeeds: the archive with one stored entry gets a second one and is accepted again. */
module ZipAddition {
  import opened Basics
  import opened Bytes
  import opened ZipFormat
  import opened ZipInspect
  import opened ZipLayout
  import opened ZipRepack
  import opened ZipRoundTrip
  import opened ZipSignature
  import opened ZipTheorems
  import opened ZipWitnesses
  import opened ZipPreservation
  import opened ZipSuccess

  /** The codec encodes "a" and "b" as every ASCII-compatible one does. */
  ghost predicate ReadsAB(codec: Codec) {
    ReadsA(codec) && codec.encodeUtf8("b") == Some([0x62])
  }

  function OneB(data: Bytes): seq<(string, Bytes)> {
    [("b", data)]
  }

  lemma SingleNames(data: Bytes)
    ensures EntryNames(Single()) == {"a"} && AddedNames(OneB(data)) == ["b"]
    ensures NamesFit(Single(), map[], OneB(data))
  {
    OneEntry(EMPTY);
    assert "b" != "a" && NameOk("b");
    assert AddedNames(OneB(data)) == ["b"];
  }

  function Copied(): Item {
    Item(EMPTY, LocalHead(EMPTY))
  }

  lemma CopiedItems(codec: Codec)
    ensures Coherent(Single()) && LocalEntries(Single()) == [EMPTY] && |LocalHead(EMPTY)| == 31
    ensures LocalItems(codec, Single().raw, [EMPTY], map[], 0) == Ok([Copied()])
  {
    SingleParts();
    OneEntry(EMPTY);
    var raw := Single().raw;
    hide LocalHead, Tail;
    assert Coherent(Single()) && LocalEntries(Single()) == [EMPTY];
    assert raw[0..31] == raw[..31];
    assert LocalItem(codec, raw, EMPTY, map[], 0) == Ok(Copied());
    hide LocalItem;
    assert [EMPTY][1..] == [] && [Copied()] + [] == [Copied()];
    assert LocalItems(codec, raw, [EMPTY][1..], map[], |Copied().bytes|) == Ok([]);
  }

  lemma AddedB(codec: Codec, data: Bytes)
    requires ReadsAB(codec) && |codec.deflate(data)| < 0x1000_0000 && |data| <= MAX_FIELD_32
    ensures var r := AddedItem(codec, "b", data, 31);
            && r.Ok? && AddedItems(codec, OneB(data), 31) == Ok([r.value])
            && r.value.entry.compressedSize == |codec.deflate(data)| && r.value.entry.uncompressedSize == |data|
            && r.value.entry.nameBytes == [0x62]
            && |r.value.bytes| == 31 + |codec.deflate(data)|
  {
    AddedItemOutcome(codec, "b", data, 31);
    hide LocalHead, Codec.Lawful;
    var item := AddedItem(codec, "b", data, 31).value;
    assert OneB(data)[1..] == [] && [item] + [] == [item];
    assert AddedItems(codec, OneB(data)[1..], 31 + |item.bytes|) == Ok([]);
  }

  /** The record copied for "a" and the one written for "b". */
  lemma TwoItems(codec: Codec, data: Bytes)
    requires ReadsAB(codec) && |codec.deflate(data)| < 0x1000_0000 && |data| <= MAX_FIELD_32
    ensures Coherent(Single()) && AddedItem(codec, "b", data, 31).Ok?
    ensures AllItems(codec, Single(), map[], OneB(data)) == Ok([Copied(), AddedItem(codec, "b", data, 31).value])
  {
    CopiedItems(codec);
    AddedB(codec, data);
    assert [Copied()][1..] == [] && |ItemBytes([Copied()])| == 31;
    hide AddedItem, LocalItems, AddedItems, Single, OneB, LocalHead, Copied, LocalEntries, Coherent, ItemBytes;
    assert [Copied()] + [AddedItem(codec, "b", data, 31).value] == [Copied(), AddedItem(codec, "b", data, 31).value];
  }

  lemma AdditionFitsB(codec: Codec, data: Bytes)
    requires ReadsAB(codec) && |codec.deflate(data)| < 0x1000_0000 && |data| <= MAX_FIELD_32
    ensures Coherent(Single()) && AllStorable(Single().entries) && LocalEntries(Single()) == [EMPTY]
    ensures LocalsLength(codec, [EMPTY], map[]) == 31
    ensures AdditionsLength(codec, OneB(data)) == 31 + |codec.deflate(data)|
    ensures |Directory(Single().entries)| == 47 && AddedDirectoryLength(codec, OneB(data)) == 47
    ensures FieldsFit(codec, Single(), map[], OneB(data))
  {
    CopiedItems(codec);
    SingleDirectory(EMPTY);
    hide LocalHead;
    assert [EMPTY][1..] == [];
    assert LocalsLength(codec, [EMPTY][1..], map[]) == 0;
    assert OneB(data)[1..] == [];
    assert NameLength(codec, "b") == 1;
    assert AdditionsLength(codec, OneB(data)[1..]) == 0;
    assert AddedDirectoryLength(codec, OneB(data)[1..]) == 0;
    hide LocalEntries, Coherent, Directory, LocalsLength, AdditionsLength, AddedDirectoryLength;
  }

  lemma SingleFacts()
    ensures Copied().entry.Storable() && Copied().entry.name == "a"
    ensures Single().entries == [EMPTY] && Single().localOrder == ["a"] && Single().comment == []
  {
    hide LocalHead, Tail;
  }

  lemma NamesOfTwo(codec: Codec, data: Bytes)
    requires ReadsAB(codec) && |codec.deflate(data)| < 0x1000_0000 && |data| <= MAX_FIELD_32
    ensures CentralNames(Single(), OneB(data)) == ["a", "b"]
    ensures NoDuplicates(AddedNames(OneB(data)))
    ensures AddedItem(codec, "b", data, 31).Ok?
    ensures var items := [Copied(), AddedItem(codec, "b", data, 31).value];
            Names(ItemEntries(items)) == ["a", "b"] && NoDuplicates(Names(ItemEntries(items)))
  {
    AddedB(codec, data);
    SingleFacts();
    hide Single, LocalHead, AddedItems;
    assert Names([EMPTY]) == ["a"] && AddedNames(OneB(data)) == ["b"];
    assert ["a"] + ["b"] == ["a", "b"] && "a" != "b";
  }

  /** The edited archive: the old entry as it was, and the new one of the deflated length. */
  lemma {:induction false} EditedByB(codec: Codec, data: Bytes)
    requires ReadsAB(codec) && |codec.deflate(data)| < 0x1000_0000 && |data| <= MAX_FIELD_32
    ensures Inspect(codec, Single().raw) == Ok(Single()) && Coherent(Single()) && NoDuplicates(AddedNames(OneB(data)))
    ensures Repack(codec, Single(), map[], OneB(data)).Ok? && AddedItem(codec, "b", data, 31).Ok?
    ensures var b := Edited(codec, Single(), map[], OneB(data));
            && Copied().entry.Storable()
            && b.entries == [Laid(Copied()), Laid(AddedItem(codec, "b", data, 31).value)]
            && |b.raw| == 178 + |codec.deflate(data)| && b.comment == []
  {
    var a, added := Single(), OneB(data);
    hide *;
    IsReadsA(codec);
    SingleInspected(codec);
    SingleNames(data);
    SingleFacts();
    AdditionFitsB(codec, data);
    TwoItems(codec, data);
    NamesOfTwo(codec, data);
    RepackSucceeds(codec, a, map[], added);
    var out := Repack(codec, a, map[], added).value;
    var written := RepackedItems(codec, a, map[], added);
    WrittenItems(codec, a, map[], added, written, out);
    EditedIs(codec, a, map[], added, written, out);
    EntryIsLaid(a, added, written, out, 0, 0);
    EntryIsLaid(a, added, written, out, 1, 1);
  }

  lemma IsReadsA(codec: Codec)
    requires ReadsAB(codec)
    ensures ReadsA(codec)
  {
  }

  lemma WrittenItems(codec: Codec, a: Archive, changed: map<string, Bytes>, added: seq<(string, Bytes)>,
                     items: seq<Item>, out: Bytes)
    requires Repacked(codec, a, changed, added, items, out)
    ensures Coherent(a) && AllItems(codec, a, changed, added) == Ok(items) && ItemsStorable(items)
    ensures Names(ItemEntries(items)) == a.localOrder + AddedNames(added)
  {
    hide AllItems, IsArchive, Coherent, ItemsStorable, Assemble, CentralEntries, LocalEntries, ArgumentError;
  }

  /** The entry prints a central record of 47 bytes and has these sizes. */
  predicate Plain(e: ZipEntry, compressedSize: nat, uncompressedSize: nat) {
    && e.Storable() && |e.nameBytes| == 1 && e.centralExtra == [] && e.comment == []
    && e.compressedSize == compressedSize && e.uncompressedSize == uncompressedSize
  }

  lemma BothPlain(codec: Codec, data: Bytes)
    requires ReadsAB(codec) && |codec.deflate(data)| < 0x1000_0000 && |data| <= MAX_FIELD_32
    ensures Copied().entry.Storable() && Plain(Laid(Copied()), 0, 0)
    ensures AddedItem(codec, "b", data, 31).Ok?
    ensures Plain(Laid(AddedItem(codec, "b", data, 31).value), |codec.deflate(data)|, |data|)
  {
    AddedB(codec, data);
    AdditionAs(codec, "b", data, 31);
    hide LocalHead, AddedItem, AddedItems, Codec.Lawful;
  }

  lemma TwoPlain(b: Archive, e: ZipEntry, f: ZipEntry, d: nat, n: nat)
    requires b.entries == [e, f] && Plain(e, 0, 0) && Plain(f, d, n)
    requires |b.raw| == 178 + d && b.comment == [] && d < 0x1000_0000
    ensures AllStorable(b.entries) && |Directory(b.entries)| == 94 && CentralOffset(b) == 62 + d
    ensures WithinInspectorLimits(b) <==> SizesOk(d, n)
  {
    SingleDirectory(e);
    SingleDirectory(f);
    DirectoryAppend([e], [f]);
    assert [e] + [f] == b.entries;
    hide CentralRecord, Directory;
    assert b.entries[1..] == [f] && [f][1..] == [] && TotalSize([]) == 0;
    assert TotalSize([f]) == n && TotalSize(b.entries) == n;
    assert e in b.entries && f in b.entries && SizesOk(0, 0);
  }

  /**
   An entry "b" added to the archive is written whatever its data, and the output is accepted again exactly
   when the data keeps the entry limits and the directory does not begin at offset 0x06054b50.
   */
  lemma {:induction false} AdditionAccepted(codec: Codec, data: Bytes)
    requires ReadsAB(codec) && |codec.deflate(data)| < 0x1000_0000 && |data| <= MAX_FIELD_32
    ensures Inspect(codec, Single().raw) == Ok(Single()) && Coherent(Single()) && NoDuplicates(AddedNames(OneB(data)))
    ensures Repack(codec, Single(), map[], OneB(data)).Ok?
    ensures var b := Edited(codec, Single(), map[], OneB(data));
            && Repack(codec, Single(), map[], OneB(data)) == Ok(b.raw) && |b.raw| == 178 + |codec.deflate(data)|
            && (Inspect(codec, b.raw).Ok? <==>
                && |data| <= MAX_ENTRY_UNCOMPRESSED_BYTES
                && |data| <= MAX_COMPRESSION_RATIO * |codec.deflate(data)|
                && 62 + |codec.deflate(data)| != 0x0605_4B50)
            && (Inspect(codec, b.raw).Ok? ==> Inspect(codec, b.raw) == Ok(b))
            && |b.entries| == 2 && AddedAs(codec, b.entries[1], "b") && Holds(codec, b.raw, b.entries[1], data)
  {
    var a, added := Single(), OneB(data);
    Deflates(codec, data);
    OnlyOffset(62 + |codec.deflate(data)|);
    hide *;
    EditedByB(codec, data);
    var b := Edited(codec, a, map[], added);
    BothPlain(codec, data);
    TwoPlain(b, Laid(Copied()), Laid(AddedItem(codec, "b", data, 31).value), |codec.deflate(data)|, |data|);
    SingleFacts();
    RoundTrip(codec, a, map[], added);
    RepackContents(codec, a, map[], added);
    HoldsB(codec, data, b);
  }

  lemma Deflates(codec: Codec, data: Bytes)
    requires ReadsAB(codec)
    ensures codec.Lawful()
    ensures SizesOk(|codec.deflate(data)|, |data|) <==>
            |data| <= MAX_ENTRY_UNCOMPRESSED_BYTES && |data| <= MAX_COMPRESSION_RATIO * |codec.deflate(data)|
  {
  }

  /** With a directory of 94 bytes and no comment only the offset can spell a signature. */
  lemma OnlyOffset(offset: nat)
    ensures FieldsSpellSignature(94, offset, 0) <==> offset == 0x0605_4B50
  {
  }

  lemma HoldsB(codec: Codec, data: Bytes, b: Archive)
    requires Contents(codec, Single(), map[], OneB(data), b)
    ensures |b.entries| == 2 && AddedAs(codec, b.entries[1], "b") && Holds(codec, b.raw, b.entries[1], data)
  {
    SingleFacts();
    hide Single, AddedAs, Holds, Kept, Sliceable;
    assert OneB(data)[0] == ("b", data) && b.entries[1 + 0] == b.entries[1];
  }
}
