/**
 What the repacker promises: a no-op repack reproduces the archive byte for byte, and the strict
 inspector reads every repacked archive back as the edited one.
 */
module ZipRoundTrip {
  import opened Basics
  import opened Bytes
  import opened ZipFormat
  import opened ZipInspect
  import opened ZipSorting
  import opened ZipLayout
  import opened ZipAcceptance
  import opened ZipRepack

  // Records as laid out in the output

  /** The entry completed with the extent of its written record. */
  function Laid(item: Item): ZipEntry
    requires item.entry.Storable()
  {
    var e := item.entry;
    var start := e.localOffset as nat + |LocalHead(e)|;
    e.(dataStart := start, dataEnd := start + e.compressedSize as nat, spanEnd := e.localOffset as nat + |item.bytes|)
  }

  function LaidAll(items: seq<Item>): (es: seq<ZipEntry>)
    requires ItemsStorable(items)
    ensures |es| == |items|
  {
    seq(|items|, i requires 0 <= i < |items| && items[i] in items => Laid(items[i]))
  }

  /** A written record starts with its header and holds its declared data. */
  ghost predicate ItemFits(item: Item) {
    var e := item.entry;
    && e.Storable() && ExtraOk(e.localExtra)
    && |LocalHead(e)| + e.compressedSize as nat <= |item.bytes|
    && item.bytes[..|LocalHead(e)|] == LocalHead(e)
  }

  ghost predicate AllFit(items: seq<Item>) {
    forall item | item in items :: ItemFits(item)
  }

  /** Each record is written at the offset its entry states. */
  predicate Contiguous(items: seq<Item>, from: nat) {
    items != [] ==> items[0].entry.localOffset == from && Contiguous(items[1..], from + |items[0].bytes|)
  }

  lemma {:induction false} ItemsTile(raw: Bytes, items: seq<Item>, from: nat, to: nat)
    requires ItemsStorable(items) && AllFit(items) && Contiguous(items, from)
    requires from <= to <= |raw| && raw[from..to] == ItemBytes(items)
    ensures Tiled(raw, LaidAll(items), from, to)
    decreases |items|
  {
    if items == [] {
      assert |raw[from..to]| == 0;
    } else {
      hide ItemFits, ItemsStorable, AllFit, ItemBytes, RecordFits, Contiguous;
      var item, next := items[0], from + |items[0].bytes|;
      ItemsRest(items, from);
      BytesCut(raw, from, to, item.bytes, ItemBytes(items[1..]));
      LaidFits(raw, item, to);
      ItemsTile(raw, items[1..], next, to);
    }
  }

  /** The first of two parts and the rest. */
  lemma BytesCut(raw: Bytes, from: nat, to: nat, a: Bytes, b: Bytes)
    requires from <= to <= |raw| && raw[from..to] == a + b
    ensures from + |a| <= to && raw[from..from + |a|] == a && raw[from + |a|..to] == b
  {
    assert |raw[from..to]| == |a| + |b|;
    SliceOfSlice(raw, from, to, 0, |a|);
    SliceOfSlice(raw, from, to, |a|, to - from);
  }

  lemma ItemsRest(items: seq<Item>, from: nat)
    requires ItemsStorable(items) && AllFit(items) && Contiguous(items, from) && items != []
    ensures ItemFits(items[0]) && items[0].entry.localOffset == from && items[0] in items
    ensures ItemsStorable(items[1..]) && AllFit(items[1..]) && Contiguous(items[1..], from + |items[0].bytes|)
    ensures ItemBytes(items) == items[0].bytes + ItemBytes(items[1..]) && LaidAll(items)[1..] == LaidAll(items[1..])
  {
    hide ItemFits;
    assert items[0] in items;
  }

  lemma LaidFits(raw: Bytes, item: Item, to: nat)
    requires ItemFits(item) && item.entry.localOffset as nat + |item.bytes| <= to <= |raw|
    requires raw[item.entry.localOffset..item.entry.localOffset as nat + |item.bytes|] == item.bytes
    ensures RecordFits(raw, Laid(item), to)
  {
    var from: nat := item.entry.localOffset;
    SliceOfSlice(raw, from, from + |item.bytes|, 0, |LocalHead(item.entry)|);
    assert LocalFixed(Laid(item)) == LocalFixed(item.entry);
  }

  // How a written record relates to the entry it came from

  /** The record of `e` in the output: copied verbatim, or re-emitted with new data. */
  ghost predicate FromEntry(codec: Codec, raw: Bytes, e: ZipEntry, changed: map<string, Bytes>, item: Item)
    requires Sliceable(raw, e)
  {
    && ItemFits(item)
    && item.entry.(crc := e.crc, compressedSize := e.compressedSize, uncompressedSize := e.uncompressedSize,
                   localOffset := e.localOffset, dataStart := e.dataStart, dataEnd := e.dataEnd, spanEnd := e.spanEnd)
                     == e
    && (e.name !in changed ==>
          && item.bytes == raw[e.localOffset..e.spanEnd]
          && item.entry == e.(localOffset := item.entry.localOffset))
    && (e.name in changed ==>
          && Carries(codec, item, changed[e.name])
          && item.bytes[|LocalHead(item.entry)| + item.entry.compressedSize as nat..] == raw[e.dataEnd..e.spanEnd])
  }

  /** The record's data area is the compression of `data`, and its entry says so. */
  ghost predicate Carries(codec: Codec, item: Item, data: Bytes)
    requires ItemFits(item)
  {
    var head := |LocalHead(item.entry)|;
    && item.bytes[head..head + item.entry.compressedSize as nat] == Compress(codec, data, item.entry.compression)
    && item.entry.crc == codec.crc32(data) && item.entry.uncompressedSize == |data|
  }

  lemma LocalItemFrom(codec: Codec, raw: Bytes, to: nat, e: ZipEntry, changed: map<string, Bytes>, offset: nat)
    requires to <= |raw| && RecordFits(raw, e, to) && LocalItem(codec, raw, e, changed, offset).Ok?
    ensures var item := LocalItem(codec, raw, e, changed, offset).value;
            FromEntry(codec, raw, e, changed, item) && item.entry.localOffset == offset
  {
    hide LocalFixed, ExtraOk;
    var item := LocalItem(codec, raw, e, changed, offset).value;
    var head := LocalHead(item.entry);
    if e.name in changed {
      assert item.bytes[..|head|] == head;
      var data := Compress(codec, changed[e.name], e.compression);
      assert item.bytes[|head|..|head| + |data|] == data;
      assert item.bytes[|head| + |data|..] == raw[e.dataEnd..e.spanEnd];
    } else {
      SameFixed(e, offset);
      SliceOfSlice(raw, e.localOffset, e.spanEnd, 0, |head|);
    }
  }

  lemma SameFixed(e: ZipEntry, offset: U32)
    requires e.Storable()
    ensures LocalHead(e.(localOffset := offset)) == LocalHead(e)
  {
    assert LocalFixed(e.(localOffset := offset)) == LocalFixed(e);
  }

  lemma AddedItemCarries(codec: Codec, name: string, data: Bytes, offset: nat)
    requires AddedItem(codec, name, data, offset).Ok?
    ensures var item := AddedItem(codec, name, data, offset).value;
            ItemFits(item) && Carries(codec, item, data) && item.entry.localOffset == offset
  {
    hide LocalFixed;
    var item := AddedItem(codec, name, data, offset).value;
    var head := LocalHead(item.entry);
    assert item.bytes[..|head|] == head;
    assert item.bytes[|head|..] == Compress(codec, data, DEFLATED);
  }

  lemma {:induction false} LocalItemsFrom(codec: Codec, raw: Bytes, to: nat, es: seq<ZipEntry>,
                                          changed: map<string, Bytes>, offset: nat)
    requires to <= |raw| && forall e | e in es :: Sliceable(raw, e) && RecordFits(raw, e, to)
    requires LocalItems(codec, raw, es, changed, offset).Ok?
    ensures var items := LocalItems(codec, raw, es, changed, offset).value;
            && Contiguous(items, offset)
            && forall i | 0 <= i < |es| :: FromEntry(codec, raw, es[i], changed, items[i])
  {
    hide LocalItem, LocalItems, FromEntry, RecordFits, Sliceable, ItemsStorable;
    if es != [] {
      LocalItemsTurn(codec, raw, es, changed, offset);
      LocalItemFrom(codec, raw, to, es[0], changed, offset);
      var item := LocalItem(codec, raw, es[0], changed, offset).value;
      LocalItemsFrom(codec, raw, to, es[1..], changed, offset + |item.bytes|);
      var items := LocalItems(codec, raw, es, changed, offset).value;
      assert items == [item] + items[1..];
    }
  }

  lemma {:induction false} AddedItemsCarry(codec: Codec, added: seq<(string, Bytes)>, offset: nat)
    requires AddedItems(codec, added, offset).Ok?
    ensures var items := AddedItems(codec, added, offset).value;
            && Contiguous(items, offset)
            && forall i | 0 <= i < |added| :: ItemFits(items[i]) && Carries(codec, items[i], added[i].1)
  {
    hide AddedItem, AddedItems, Carries, ItemFits, ItemsStorable;
    if added != [] {
      AddedItemsTurn(codec, added, offset);
      AddedItemCarries(codec, added[0].0, added[0].1, offset);
      var item := AddedItem(codec, added[0].0, added[0].1, offset).value;
      AddedItemsCarry(codec, added[1..], offset + |item.bytes|);
      var items := AddedItems(codec, added, offset).value;
      assert items == [item] + items[1..];
    }
  }

  lemma {:induction false} ContiguousAppend(a: seq<Item>, b: seq<Item>, from: nat)
    requires Contiguous(a, from) && Contiguous(b, from + |ItemBytes(a)|)
    ensures Contiguous(a + b, from)
  {
    if a == [] {
      assert a + b == b;
    } else {
      ContiguousAppend(a[1..], b, from + |a[0].bytes|);
      assert (a + b)[1..] == a[1..] + b;
    }
  }

  // An inspected archive seen by the repacker

  lemma ByNameExact(es: seq<ZipEntry>, e: ZipEntry)
    requires NoDuplicates(Names(es)) && e in es
    ensures e.name in ByName(es) && ByName(es)[e.name] == e
  {
    hide ByName;
    var f := ByName(es)[e.name];
    var i :| 0 <= i < |es| && es[i] == e;
    var j :| 0 <= j < |es| && es[j] == f;
    assert Names(es)[i] == Names(es)[j];
  }

  lemma ArchiveRecords(codec: Codec, a: Archive)
    requires IsArchive(codec, a)
    ensures forall e | e in a.entries :: RecordFits(a.raw, e, CentralOffset(a)) && Sliceable(a.raw, e)
  {
    hide SortByOffset, RecordFits, Listed;
    var sorted, to := SortByOffset(a.entries), CentralOffset(a);
    SortMembers(a.entries);
    forall e | e in a.entries ensures RecordFits(a.raw, e, to) && Sliceable(a.raw, e) {
      assert e in sorted;
      var k :| 0 <= k < |sorted| && sorted[k] == e;
      TiledAt(a.raw, sorted, 0, to, k);
      FitsSliceable(a.raw, e, to);
    }
  }

  lemma FitsSliceable(raw: Bytes, e: ZipEntry, to: nat)
    requires to <= |raw| && RecordFits(raw, e, to)
    ensures Sliceable(raw, e)
  {
  }

  /** Inspected archives are what the repacker expects, and its local order is the order of the records. */
  lemma ArchiveCoherent(codec: Codec, a: Archive)
    requires IsArchive(codec, a)
    ensures Coherent(a) && LocalEntries(a) == SortByOffset(a.entries)
  {
    ArchiveRecords(codec, a);
    hide RecordFits, Listed, Sliceable, Tiled, SortByOffset, CentralOffset, Tail, TotalSize, ByName;
    LocalOrderNames(a);
    LocalEntriesSorted(a);
  }

  lemma LocalOrderNames(a: Archive)
    requires a.localOrder == Names(SortByOffset(a.entries))
    ensures forall n | n in a.localOrder :: n in ByName(a.entries)
    ensures forall e | e in a.entries :: e.name in a.localOrder
  {
    hide SortByOffset, ByName;
    SortMembers(a.entries);
    var sorted := SortByOffset(a.entries);
    forall n | n in a.localOrder ensures n in ByName(a.entries) {
      var k :| 0 <= k < |sorted| && a.localOrder[k] == n;
      assert sorted[k] in sorted;
    }
    forall e | e in a.entries ensures e.name in a.localOrder {
      assert e in sorted;
      var k :| 0 <= k < |sorted| && sorted[k] == e;
      assert a.localOrder[k] == e.name;
    }
  }

  lemma LocalEntriesSorted(a: Archive)
    requires Coherent(a) && a.localOrder == Names(SortByOffset(a.entries)) && NoDuplicates(Names(a.entries))
    ensures LocalEntries(a) == SortByOffset(a.entries)
  {
    hide SortByOffset, ByName, Coherent, Sliceable;
    SortMembers(a.entries);
    var sorted := SortByOffset(a.entries);
    forall k | 0 <= k < |sorted| ensures LocalEntries(a)[k] == sorted[k] {
      assert sorted[k] in sorted;
      ByNameExact(a.entries, sorted[k]);
    }
  }

  // No-op identity

  /** Copying every record verbatim writes the bytes in front of the central directory, at unchanged offsets. */
  lemma {:induction false} CopyRecords(codec: Codec, raw: Bytes, es: seq<ZipEntry>, from: nat, to: nat)
    requires to <= |raw| <= 0xFFFF_FFFF && Tiled(raw, es, from, to)
    requires forall e | e in es :: Sliceable(raw, e)
    ensures LocalItems(codec, raw, es, map[], from).Ok?
    ensures var items := LocalItems(codec, raw, es, map[], from).value;
            from <= to && ItemBytes(items) == raw[from..to] && ItemEntries(items) == es
  {
    hide LocalItem, RecordFits, Sliceable;
    if es == [] {
      assert raw[from..to] == [];
    } else {
      var e := es[0];
      CopyRecord(codec, raw, e, to);
      CopyRecords(codec, raw, es[1..], e.spanEnd, to);
      var rest := LocalItems(codec, raw, es[1..], map[], e.spanEnd).value;
      FrontItem(Item(e, raw[from..e.spanEnd]), rest);
      assert raw[from..e.spanEnd] + raw[e.spanEnd..to] == raw[from..to];
    }
  }

  lemma FrontItem(item: Item, rest: seq<Item>)
    ensures ItemBytes([item] + rest) == item.bytes + ItemBytes(rest)
    ensures ItemEntries([item] + rest) == [item.entry] + ItemEntries(rest)
  {
    assert ([item] + rest)[1..] == rest;
  }

  lemma CopyRecord(codec: Codec, raw: Bytes, e: ZipEntry, to: nat)
    requires to <= |raw| <= 0xFFFF_FFFF && Sliceable(raw, e) && RecordFits(raw, e, to)
    ensures LocalItem(codec, raw, e, map[], e.localOffset) == Ok(Item(e, raw[e.localOffset..e.spanEnd]))
    ensures e.localOffset as nat <= e.spanEnd <= to
  {
    assert e.(localOffset := e.localOffset) == e;
  }

  /** The central entries of a no-op repack are the archive's own. */
  lemma SameCentral(codec: Codec, a: Archive, items: seq<Item>)
    requires IsArchive(codec, a) && Coherent(a)
    requires ItemEntries(items) == SortByOffset(a.entries) && ItemsStorable(items)
    requires Names(ItemEntries(items)) == a.localOrder + AddedNames([])
    ensures CentralEntries(a, [], items) == a.entries
  {
    hide RecordFits, Listed, Sliceable, Tiled, SortByOffset, CentralOffset, Tail, TotalSize, Coherent;
    var sorted := SortByOffset(a.entries);
    SortMembers(a.entries);
    SortNames(a.entries);
    AllEmitted(a, [], sorted);
    forall i | 0 <= i < |a.entries| ensures CentralEntries(a, [], items)[i] == a.entries[i] {
      assert a.entries[i] in sorted;
      ByNameExact(sorted, a.entries[i]);
      assert CentralNames(a, [])[i] == a.entries[i].name;
    }
  }

  lemma NoAdditions(codec: Codec, a: Archive, items: seq<Item>)
    requires Coherent(a) && LocalItems(codec, a.raw, LocalEntries(a), map[], 0) == Ok(items)
    ensures AllItems(codec, a, map[], []) == Ok(items)
  {
    hide Coherent, LocalItems, LocalEntries, AddedItems, PrependItems;
    NoItems(codec, a.raw, map[], |ItemBytes(items)|, items);
  }

  lemma NoOpItems(codec: Codec, a: Archive)
    requires IsArchive(codec, a) && Coherent(a) && LocalEntries(a) == SortByOffset(a.entries)
    ensures AllItems(codec, a, map[], []).Ok?
    ensures var items := AllItems(codec, a, map[], []).value;
            && ItemEntries(items) == SortByOffset(a.entries)
            && ItemBytes(items) == if a.entries == [] then [] else a.raw[..CentralOffset(a)]
  {
    hide RecordFits, Listed, Tail, Sliceable, LastSignature, Directory, TotalSize, AllItems;
    var sorted, to := SortByOffset(a.entries), CentralOffset(a);
    if a.entries == [] {
      NoAdditions(codec, a, []);
      assert ItemEntries([]) == [];
    } else {
      hide LocalItems, SortByOffset;
      CopyRecords(codec, a.raw, sorted, 0, to);
      NoAdditions(codec, a, LocalItems(codec, a.raw, sorted, map[], 0).value);
      assert a.raw[0..to] == a.raw[..to];
    }
  }

  /** Repacking with no changes and no additions returns the input exactly when the archive has an entry. */
  lemma NoOpIdentity(codec: Codec, a: Archive)
    requires Inspect(codec, a.raw) == Ok(a)
    ensures Coherent(a)
    ensures Repack(codec, a, map[], []) == Ok(a.raw) <==> a.entries != []
  {
    hide Inspect;
    InspectExact(codec, a.raw, a);
    ArchiveCoherent(codec, a);
    NoOpItems(codec, a);
    AllItemsNamed(codec, a, map[], []);
    var items := AllItems(codec, a, map[], []).value;
    SameCentral(codec, a, items);
    hide *;
    NoOpAssembled(codec, a, items);
    NoOpRepack(codec, a, items);
  }

  lemma NoOpRepack(codec: Codec, a: Archive, items: seq<Item>)
    requires Coherent(a) && AllItems(codec, a, map[], []) == Ok(items) && ItemsStorable(items)
    requires Names(ItemEntries(items)) == a.localOrder + AddedNames([])
    ensures Repack(codec, a, map[], []) == Assemble(items, CentralEntries(a, [], items), a.comment)
  {
    hide AllItems, CentralEntries, Assemble, Coherent;
  }

  lemma NoOpAssembled(codec: Codec, a: Archive, items: seq<Item>)
    requires IsArchive(codec, a)
    requires ItemBytes(items) == if a.entries == [] then [] else a.raw[..CentralOffset(a)]
    ensures |a.comment| < 0x1_0000 && AllStorable(a.entries)
    ensures Assemble(items, a.entries, a.comment) == Ok(a.raw) <==> a.entries != []
  {
    hide RecordFits, Listed, SortByOffset, Tiled, ItemBytes, LastSignature, Tail;
    var to := CentralOffset(a);
    if a.entries == [] {
      EmptyTail(a);
    } else {
      assert a.raw == a.raw[..to] + a.raw[to..];
    }
  }

  /** Without entries the repacked archive is an EOCD, which no inspected archive starts with. */
  lemma EmptyTail(a: Archive)
    requires a.entries == [] && |a.comment| < 0x1_0000 && SignatureAt(a.raw, LOCAL_SIGNATURE, 0)
    ensures Tail(a.entries, 0, a.comment) != a.raw
  {
    assert Tail(a.entries, 0, a.comment)[2] == 5;
    assert a.raw[0..4][2] == 3;
  }

  // Round trip

  /** The archive the output is expected to be read back as. */
  function Reread(a: Archive, added: seq<(string, Bytes)>, items: seq<Item>, out: Bytes): (b: Archive)
    requires Coherent(a) && ItemsStorable(items) && Names(ItemEntries(items)) == a.localOrder + AddedNames(added)
    ensures |b.entries| == |a.entries| + |added| && AllStorable(b.entries)
  {
    LaidNames(items);
    AllEmitted(a, added, LaidAll(items));
    Archive(out, Lookup(ByName(LaidAll(items)), CentralNames(a, added)), a.localOrder + AddedNames(added), a.comment)
  }

  lemma LaidNames(items: seq<Item>)
    requires ItemsStorable(items)
    ensures Names(LaidAll(items)) == Names(ItemEntries(items)) && AllStorable(LaidAll(items))
  {
    forall i | 0 <= i < |items| ensures LaidAll(items)[i].name == items[i].entry.name && LaidAll(items)[i].Storable() {
      assert items[i] in items;
    }
  }

  /** The limits that the inspector sets and the repacker does not, on an archive it would be read back as. */
  ghost predicate WithinInspectorLimits(b: Archive) {
    && |b.raw| <= MAX_ARCHIVE_BYTES && 0 < |b.entries| <= MAX_ZIP_ENTRIES
    && TotalSize(b.entries) <= MAX_TOTAL_UNCOMPRESSED_BYTES
    && forall e | e in b.entries :: SizesOk(e.compressedSize, e.uncompressedSize)
  }

  lemma Without<T>(t: seq<T>, k: nat)
    requires k < |t|
    ensures multiset(t[..k] + t[k + 1..]) == multiset(t) - multiset{t[k]}
  {
    assert t == t[..k] + [t[k]] + t[k + 1..];
  }

  lemma PutBack<T>(s: seq<T>, i: nat, t: seq<T>, k: nat)
    requires i < |s| && k < |t| && s[i] == t[k]
    requires multiset(s) - multiset{s[i]} == multiset(t) - multiset{t[k]}
    ensures multiset(s) == multiset(t)
  {
    assert s[i] in multiset(s) && t[k] in multiset(t);
    assert multiset(s) == (multiset(s) - multiset{s[i]}) + multiset{s[i]};
    assert multiset(t) == (multiset(t) - multiset{t[k]}) + multiset{t[k]};
  }

  lemma LookupWithout(m: map<string, ZipEntry>, t: seq<string>, k: nat)
    requires k < |t| && forall n | n in t :: n in m
    ensures forall n | n in t[..k] + t[k + 1..] :: n in m
    ensures Lookup(m, t[..k] + t[k + 1..]) == Lookup(m, t)[..k] + Lookup(m, t)[k + 1..]
    ensures multiset(Lookup(m, t[..k] + t[k + 1..])) == multiset(Lookup(m, t)) - multiset{m[t[k]]}
  {
    Without(Lookup(m, t), k);
  }

  lemma {:induction false} LookupPermutes(m: map<string, ZipEntry>, s: seq<string>, t: seq<string>)
    requires (forall n | n in s :: n in m) && (forall n | n in t :: n in m) && multiset(s) == multiset(t)
    ensures multiset(Lookup(m, s)) == multiset(Lookup(m, t))
  {
    if s == [] {
      assert |multiset(t)| == |t|;
      assert Lookup(m, s) == Lookup(m, t) == [];
    } else {
      assert s[0] in multiset(t);
      var k :| 0 <= k < |t| && t[k] == s[0];
      Without(t, k);
      Without(s, 0);
      LookupWithout(m, s, 0);
      LookupWithout(m, t, k);
      hide Lookup;
      LookupPermutes(m, s[..0] + s[1..], t[..k] + t[k + 1..]);
      assert Lookup(m, s)[0] == Lookup(m, t)[k];
      PutBack(Lookup(m, s), 0, Lookup(m, t), k);
    }
  }

  lemma NamesWithout(es: seq<ZipEntry>, k: nat)
    requires k < |es|
    ensures multiset(Names(es[..k] + es[k + 1..])) == multiset(Names(es)) - multiset{Names(es)[k]}
  {
    Without(Names(es), k);
    assert Names(es[..k] + es[k + 1..]) == Names(es)[..k] + Names(es)[k + 1..];
  }

  lemma NameAt(es: seq<ZipEntry>, k: nat)
    requires k < |es|
    ensures Names(es)[k] == es[k].name
  {
  }

  lemma SameRest<T>(s: seq<T>, i: nat, t: seq<T>, k: nat)
    requires multiset(s) == multiset(t) && i < |s| && k < |t| && s[i] == t[k]
    ensures multiset(s[..i] + s[i + 1..]) == multiset(t[..k] + t[k + 1..])
  {
    Without(s, i);
    Without(t, k);
  }

  lemma SameElement(es: seq<ZipEntry>, fs: seq<ZipEntry>) returns (k: nat)
    requires multiset(es) == multiset(fs) && es != []
    ensures k < |fs| && fs[k] == es[0]
  {
    assert es[0] in multiset(fs);
    k :| k < |fs| && fs[k] == es[0];
  }

  lemma NoNames(es: seq<ZipEntry>, fs: seq<ZipEntry>)
    requires multiset(es) == multiset(fs) && es == []
    ensures Names(es) == Names(fs) == []
  {
    assert |multiset(fs)| == |fs|;
  }

  lemma {:induction false} NamesPermute(es: seq<ZipEntry>, fs: seq<ZipEntry>)
    requires multiset(es) == multiset(fs)
    ensures multiset(Names(es)) == multiset(Names(fs))
  {
    hide *;
    if es == [] {
      NoNames(es, fs);
    } else {
      var k := SameElement(es, fs);
      NameAt(es, 0);
      NameAt(fs, k);
      SameRest(es, 0, fs, k);
      NamesPermute(es[..0] + es[1..], fs[..k] + fs[k + 1..]);
      NamesWithout(es, 0);
      NamesWithout(fs, k);
      PutBack(Names(es), 0, Names(fs), k);
    }
  }

  /** Looking every entry up by its own name, in order, changes nothing. */
  lemma LookupOwnNames(es: seq<ZipEntry>)
    requires NoDuplicates(Names(es))
    ensures forall n | n in Names(es) :: n in ByName(es)
    ensures Lookup(ByName(es), Names(es)) == es
  {
    hide ByName;
    forall i | 0 <= i < |es| ensures es[i].name in ByName(es) && ByName(es)[es[i].name] == es[i] {
      ByNameExact(es, es[i]);
    }
  }

  lemma CentralNamesPermute(a: Archive, added: seq<(string, Bytes)>)
    requires a.localOrder == Names(SortByOffset(a.entries))
    ensures multiset(CentralNames(a, added)) == multiset(a.localOrder + AddedNames(added))
  {
    hide SortByOffset;
    SortPermutes(a.entries);
    NamesPermute(a.entries, SortByOffset(a.entries));
  }

  /** The names of the edited archive are distinct. */
  lemma DistinctNames(a: Archive, added: seq<(string, Bytes)>)
    requires NoDuplicates(Names(a.entries)) && NoDuplicates(AddedNames(added))
    requires forall n | n in AddedNames(added) :: n !in ByName(a.entries)
    ensures NoDuplicates(CentralNames(a, added))
  {
    hide ByName;
    var names := CentralNames(a, added);
    forall i, j | 0 <= i < j < |names| ensures names[i] != names[j] {
      if i < |a.entries| <= j {
        assert a.entries[i] in a.entries && names[j] in AddedNames(added);
      } else if i >= |a.entries| {
        assert names[i] == AddedNames(added)[i - |a.entries|];
      }
    }
  }

  /** A permutation of a duplicate-free sequence is duplicate-free. */
  lemma PermutationDistinct<T>(s: seq<T>, t: seq<T>)
    requires NoDuplicates(s) && multiset(s) == multiset(t)
    ensures NoDuplicates(t)
  {
    forall i, j | 0 <= i < j < |t| ensures t[i] != t[j] {
      if t[i] == t[j] {
        Twice(t, i, j);
        AtMostOnce(s, t[i]);
      }
    }
  }

  lemma {:induction false} AtMostOnce<T>(s: seq<T>, x: T)
    requires NoDuplicates(s)
    ensures multiset(s)[x] <= 1
  {
    if s != [] {
      AtMostOnce(s[1..], x);
      assert s == [s[0]] + s[1..];
      if x == s[0] {
        forall k | 0 <= k < |s| - 1 ensures s[1..][k] != x {
          assert s[0] != s[k + 1];
        }
        assert x !in multiset(s[1..]);
      }
    }
  }

  /** Everything known about a successful repack of an inspected archive. */
  ghost predicate Repacked(codec: Codec, a: Archive, changed: map<string, Bytes>, added: seq<(string, Bytes)>,
                           items: seq<Item>, out: Bytes)
  {
    && IsArchive(codec, a) && Coherent(a) && LocalEntries(a) == SortByOffset(a.entries)
    && NoDuplicates(AddedNames(added)) && ArgumentError(a, changed, added) == None
    && AllItems(codec, a, changed, added) == Ok(items) && ItemsStorable(items)
    && Names(ItemEntries(items)) == a.localOrder + AddedNames(added)
    && Assemble(items, CentralEntries(a, added, items), a.comment) == Ok(out)
  }

  lemma RepackedItems(codec: Codec, a: Archive, changed: map<string, Bytes>, added: seq<(string, Bytes)>)
    returns (items: seq<Item>)
    requires Inspect(codec, a.raw) == Ok(a) && Coherent(a) && NoDuplicates(AddedNames(added))
    requires Repack(codec, a, changed, added).Ok?
    ensures Repacked(codec, a, changed, added, items, Repack(codec, a, changed, added).value)
  {
    hide Inspect, IsArchive, AllItems, ArgumentError, Assemble, CentralEntries, SortByOffset, LocalEntries;
    InspectExact(codec, a.raw, a);
    ArchiveCoherent(codec, a);
    AllItemsNamed(codec, a, changed, added);
    items := AllItems(codec, a, changed, added).value;
  }

  lemma LocalsWritten(codec: Codec, a: Archive, changed: map<string, Bytes>)
    requires IsArchive(codec, a) && Coherent(a) && LocalEntries(a) == SortByOffset(a.entries)
    requires LocalItems(codec, a.raw, LocalEntries(a), changed, 0).Ok?
    ensures var locals := LocalItems(codec, a.raw, LocalEntries(a), changed, 0).value;
            && |locals| == |a.entries| && Contiguous(locals, 0) && AllFit(locals)
            && forall i | 0 <= i < |locals| ::
                 FromEntry(codec, a.raw, LocalEntries(a)[i], changed, locals[i])
  {
    ArchiveRecords(codec, a);
    SortMembers(a.entries);
    var sorted, to := LocalEntries(a), CentralOffset(a);
    hide *;
    LocalItemsFrom(codec, a.raw, to, sorted, changed, 0);
    var locals := LocalItems(codec, a.raw, sorted, changed, 0).value;
    FromAllFit(codec, a.raw, sorted, changed, locals);
  }

  lemma FromAllFit(codec: Codec, raw: Bytes, es: seq<ZipEntry>, changed: map<string, Bytes>, items: seq<Item>)
    requires |es| == |items|
    requires forall i | 0 <= i < |es| :: Sliceable(raw, es[i]) && FromEntry(codec, raw, es[i], changed, items[i])
    ensures AllFit(items)
  {
    hide ItemFits, Sliceable;
  }

  lemma ItemsJoin(locals: seq<Item>, more: seq<Item>)
    requires Contiguous(locals, 0) && Contiguous(more, |ItemBytes(locals)|) && AllFit(locals) && AllFit(more)
    ensures Contiguous(locals + more, 0) && AllFit(locals + more)
  {
    hide ItemFits, Contiguous;
    assert 0 + |ItemBytes(locals)| == |ItemBytes(locals)|;
    ContiguousAppend(locals, more, 0);
  }

  lemma AddedFit(items: seq<Item>)
    requires forall i | 0 <= i < |items| :: ItemFits(items[i])
    ensures AllFit(items)
  {
    hide ItemFits;
  }

  /** The written records: those of the local order, each from its entry, then the additions. */
  lemma RecordsWritten(codec: Codec, a: Archive, changed: map<string, Bytes>, added: seq<(string, Bytes)>,
                       items: seq<Item>, out: Bytes)
    returns (locals: seq<Item>, more: seq<Item>)
    requires Repacked(codec, a, changed, added, items, out)
    ensures items == locals + more && |locals| == |a.entries| && |more| == |added|
    ensures Contiguous(items, 0) && AllFit(items)
    ensures |LocalEntries(a)| == |a.entries|
    ensures forall i | 0 <= i < |locals| :: FromEntry(codec, a.raw, LocalEntries(a)[i], changed, locals[i])
    ensures forall j | 0 <= j < |added| :: ItemFits(more[j]) && Carries(codec, more[j], added[j].1)
  {
    assert LocalItems(codec, a.raw, LocalEntries(a), changed, 0).Ok?;
    locals := LocalItems(codec, a.raw, LocalEntries(a), changed, 0).value;
    assert AddedItems(codec, added, |ItemBytes(locals)|).Ok?;
    more := AddedItems(codec, added, |ItemBytes(locals)|).value;
    assert items == locals + more;
    assert |LocalEntries(a)| == |a.entries|;
    assert Coherent(a) && IsArchive(codec, a) && LocalEntries(a) == SortByOffset(a.entries);
    hide *;
    LocalsWritten(codec, a, changed);
    AddedItemsCarry(codec, added, |ItemBytes(locals)|);
    AddedFit(more);
    ItemsJoin(locals, more);
  }

  // The edited archive is an archive

  /** Both dictionaries are keyed alike, and the laid-out entry prints the emitted central record. */
  lemma LaidViews(items: seq<Item>, names: seq<string>)
    requires ItemsStorable(items) && NoDuplicates(Names(ItemEntries(items)))
    requires forall n | n in names :: n in ByName(ItemEntries(items)) && n in ByName(LaidAll(items))
    ensures MapEntries(View(), Lookup(ByName(LaidAll(items)), names))
            == MapEntries(View(), Lookup(ByName(ItemEntries(items)), names))
  {
    hide ByName;
    LaidNames(items);
    forall i | 0 <= i < |names|
      ensures ByName(LaidAll(items))[names[i]].CentralView() == ByName(ItemEntries(items))[names[i]].CentralView()
    {
      assert names[i] in names;
      var e := ByName(ItemEntries(items))[names[i]];
      var k :| 0 <= k < |items| && ItemEntries(items)[k] == e;
      assert items[k] in items && LaidAll(items)[k] == Laid(items[k]);
      assert LaidAll(items)[k] in LaidAll(items);
      ByNameExact(LaidAll(items), LaidAll(items)[k]);
    }
  }

  /** In the order of their records, the edited entries are the records as laid out. */
  lemma RereadOrder(a: Archive, added: seq<(string, Bytes)>, items: seq<Item>, out: Bytes, to: nat)
    requires Coherent(a) && ItemsStorable(items) && Names(ItemEntries(items)) == a.localOrder + AddedNames(added)
    requires a.localOrder == Names(SortByOffset(a.entries)) && NoDuplicates(CentralNames(a, added))
    requires to <= |out| && Tiled(out, LaidAll(items), 0, to)
    ensures SortByOffset(Reread(a, added, items, out).entries) == LaidAll(items)
    ensures NoDuplicates(Names(ItemEntries(items)))
  {
    hide ByName, SortByOffset, Tiled, Coherent;
    LaidNames(items);
    AllEmitted(a, added, LaidAll(items));
    CentralNamesPermute(a, added);
    PermutationDistinct(CentralNames(a, added), Names(LaidAll(items)));
    LookupOwnNames(LaidAll(items));
    LookupPermutes(ByName(LaidAll(items)), CentralNames(a, added), Names(LaidAll(items)));
    TiledAscends(out, LaidAll(items), 0, to);
    SortUnique(Reread(a, added, items, out).entries, LaidAll(items));
  }

  lemma RereadNames(a: Archive, added: seq<(string, Bytes)>, items: seq<Item>, out: Bytes)
    requires Coherent(a) && ItemsStorable(items) && Names(ItemEntries(items)) == a.localOrder + AddedNames(added)
    ensures Names(Reread(a, added, items, out).entries) == CentralNames(a, added)
  {
    hide ByName, Coherent;
    LaidNames(items);
    AllEmitted(a, added, LaidAll(items));
    var names := CentralNames(a, added);
    forall i | 0 <= i < |names| ensures ByName(LaidAll(items))[names[i]].name == names[i] {
      assert names[i] in names;
    }
    assert Names(Reread(a, added, items, out).entries) == names;
  }

  // Admissibility of the new entries

  lemma FromListed(codec: Codec, raw: Bytes, e: ZipEntry, changed: map<string, Bytes>, item: Item)
    requires Sliceable(raw, e) && FromEntry(codec, raw, e, changed, item) && Listed(codec, e)
    requires SizesOk(item.entry.compressedSize, item.entry.uncompressedSize)
    ensures Listed(codec, item.entry)
  {
    hide ExtraOk, NameOk, ItemFits, Carries;
  }

  lemma AddedListed(codec: Codec, name: string, data: Bytes, offset: nat)
    requires codec.Lawful() && NameOk(name) && AddedItem(codec, name, data, offset).Ok?
    requires var e := AddedItem(codec, name, data, offset).value.entry; SizesOk(e.compressedSize, e.uncompressedSize)
    ensures Listed(codec, AddedItem(codec, name, data, offset).value.entry)
  {
    hide NameOk, LocalHead;
  }

  lemma LaidListed(codec: Codec, item: Item)
    requires item.entry.Storable() && Listed(codec, item.entry)
    ensures Listed(codec, Laid(item))
  {
    hide ExtraOk, NameOk, LocalHead;
  }

  /** Every added record of a repack is the record of one addition. */
  lemma {:induction false} AddedItemAt(codec: Codec, added: seq<(string, Bytes)>, offset: nat, j: nat) returns (at: nat)
    requires AddedItems(codec, added, offset).Ok? && j < |added|
    ensures AddedItem(codec, added[j].0, added[j].1, at) == Ok(AddedItems(codec, added, offset).value[j])
  {
    hide AddedItem, AddedItems, ItemsStorable;
    AddedItemsTurn(codec, added, offset);
    var item := AddedItem(codec, added[0].0, added[0].1, offset).value;
    if j == 0 {
      at := offset;
    } else {
      at := AddedItemAt(codec, added[1..], offset + |item.bytes|, j - 1);
    }
  }

  ghost predicate AllSizesOk(es: seq<ZipEntry>) {
    forall e | e in es :: SizesOk(e.compressedSize, e.uncompressedSize)
  }

  lemma RepackedParts(codec: Codec, a: Archive, changed: map<string, Bytes>, added: seq<(string, Bytes)>,
                      items: seq<Item>, out: Bytes, locals: seq<Item>, more: seq<Item>)
    requires Repacked(codec, a, changed, added, items, out)
    requires items == locals + more && |locals| == |LocalEntries(a)|
    ensures LocalItems(codec, a.raw, LocalEntries(a), changed, 0) == Ok(locals)
    ensures AddedItems(codec, added, |ItemBytes(locals)|) == Ok(more)
    ensures forall e | e in LocalEntries(a) :: Listed(codec, e) && Sliceable(a.raw, e)
    ensures forall n | n in AddedNames(added) :: NameOk(n)
  {
    hide Listed, Sliceable, NameOk, SortByOffset, LocalEntries, ItemsStorable, CentralEntries, Assemble, Tail, Tiled,
      AllItems,
      TotalSize, Directory, Coherent, CentralOffset, LastSignature;
    SortMembers(a.entries);
    AddedPart(codec, a, changed, added, items, locals, more);
  }

  lemma RecordsListed(codec: Codec, a: Archive, changed: map<string, Bytes>, added: seq<(string, Bytes)>,
                      items: seq<Item>, out: Bytes)
    requires codec.Lawful() && Repacked(codec, a, changed, added, items, out) && AllSizesOk(ItemEntries(items))
    ensures forall item | item in items :: Listed(codec, item.entry)
  {
    var locals, more := RecordsWritten(codec, a, changed, added, items, out);
    RepackedParts(codec, a, changed, added, items, out, locals, more);
    var sorted := LocalEntries(a);
    hide *;
    SizesSplit(locals, more);
    LocalsListed(codec, a.raw, sorted, changed, locals);
    AdditionsListed(codec, added, |ItemBytes(locals)|);
  }

  lemma SizesSplit(locals: seq<Item>, more: seq<Item>)
    requires AllSizesOk(ItemEntries(locals + more))
    ensures AllSizesOk(ItemEntries(locals)) && AllSizesOk(ItemEntries(more))
  {
    hide SizesOk;
    assert ItemEntries(locals + more) == ItemEntries(locals) + ItemEntries(more);
  }

  lemma LocalsListed(codec: Codec, raw: Bytes, es: seq<ZipEntry>, changed: map<string, Bytes>, locals: seq<Item>)
    requires |es| == |locals| && AllSizesOk(ItemEntries(locals))
    requires forall e | e in es :: Listed(codec, e) && Sliceable(raw, e)
    requires forall i | 0 <= i < |es| :: FromEntry(codec, raw, es[i], changed, locals[i])
    ensures forall item | item in locals :: Listed(codec, item.entry)
  {
    hide Listed, Sliceable, FromEntry, SizesOk;
    forall item | item in locals ensures Listed(codec, item.entry) {
      var i :| 0 <= i < |locals| && locals[i] == item;
      assert ItemEntries(locals)[i] in ItemEntries(locals) && es[i] in es;
      FromListed(codec, raw, es[i], changed, item);
    }
  }

  lemma AdditionsListed(codec: Codec, added: seq<(string, Bytes)>, offset: nat)
    requires codec.Lawful() && (forall n | n in AddedNames(added) :: NameOk(n))
    requires AddedItems(codec, added, offset).Ok?
    requires AllSizesOk(ItemEntries(AddedItems(codec, added, offset).value))
    ensures forall item | item in AddedItems(codec, added, offset).value :: Listed(codec, item.entry)
  {
    hide Listed, NameOk, SizesOk, Codec.Lawful, AddedItem, AddedItems;
    var more := AddedItems(codec, added, offset).value;
    forall item | item in more ensures Listed(codec, item.entry) {
      var j :| 0 <= j < |more| && more[j] == item;
      assert ItemEntries(more)[j] in ItemEntries(more) && AddedNames(added)[j] in AddedNames(added);
      var at := AddedItemAt(codec, added, offset, j);
      AddedListed(codec, added[j].0, added[j].1, at);
    }
  }

  lemma AddedPart(codec: Codec, a: Archive, changed: map<string, Bytes>, added: seq<(string, Bytes)>,
                  items: seq<Item>, locals: seq<Item>, more: seq<Item>)
    requires Coherent(a) && AllItems(codec, a, changed, added) == Ok(items)
    requires items == locals + more && |locals| == |LocalEntries(a)|
    ensures LocalItems(codec, a.raw, LocalEntries(a), changed, 0) == Ok(locals)
    ensures AddedItems(codec, added, |ItemBytes(locals)|) == Ok(more)
  {
    hide Coherent, LocalItems, AddedItems;
    var first := LocalItems(codec, a.raw, LocalEntries(a), changed, 0).value;
    var second := AddedItems(codec, added, |ItemBytes(first)|).value;
    assert first + second == locals + more;
    assert first == (first + second)[..|first|] == locals;
    assert second == (first + second)[|first|..] == more;
  }

  // The theorems

  /** The edited archive: what a successful repack is meant to be read back as. */
  function Edited(codec: Codec, a: Archive, changed: map<string, Bytes>, added: seq<(string, Bytes)>): Archive
    requires Coherent(a) && NoDuplicates(AddedNames(added)) && Repack(codec, a, changed, added).Ok?
  {
    AllItemsNamed(codec, a, changed, added);
    Reread(a, added, AllItems(codec, a, changed, added).value, Repack(codec, a, changed, added).value)
  }

  lemma EntrySizes(items: seq<Item>, es: seq<ZipEntry>)
    requires ItemsStorable(items) && multiset(es) == multiset(LaidAll(items))
    ensures AllSizesOk(es) <==> AllSizesOk(ItemEntries(items))
  {
    hide SizesOk;
    forall i | 0 <= i < |items| ensures LaidAll(items)[i] in es {
      assert LaidAll(items)[i] in multiset(es);
    }
    if AllSizesOk(es) {
      forall e | e in ItemEntries(items) ensures SizesOk(e.compressedSize, e.uncompressedSize) {
        var i :| 0 <= i < |items| && items[i].entry == e;
        assert items[i] in items && LaidAll(items)[i] == Laid(items[i]) && LaidAll(items)[i] in es;
      }
    }
    if AllSizesOk(ItemEntries(items)) {
      forall e | e in es ensures SizesOk(e.compressedSize, e.uncompressedSize) {
        assert e in multiset(LaidAll(items));
        var i :| 0 <= i < |items| && LaidAll(items)[i] == e;
        assert items[i] in items && ItemEntries(items)[i] in ItemEntries(items);
      }
    }
  }

  /** The output is laid out as the edited archive, whatever its size. */
  ghost predicate OutputLaidOut(codec: Codec, b: Archive, items: seq<Item>)
    requires ItemsStorable(items)
  {
    && AllStorable(b.entries) && |b.comment| < 0x1_0000 && |b.entries| < 0x1_0000
      && |Directory(b.entries)| < 0x1_0000_0000
    && CentralOffset(b) == |ItemBytes(items)| < 0x1_0000_0000
    && b.raw[CentralOffset(b)..] == Tail(b.entries, CentralOffset(b), b.comment)
    && NoDuplicates(Names(b.entries))
    && SortByOffset(b.entries) == LaidAll(items) && b.localOrder == Names(SortByOffset(b.entries))
    && Tiled(b.raw, LaidAll(items), 0, CentralOffset(b))
    && (items != [] ==> SignatureAt(b.raw, LOCAL_SIGNATURE, 0))
    && (items == [] <==> b.entries == [])
  }

  lemma RepackedNames(codec: Codec, a: Archive, changed: map<string, Bytes>, added: seq<(string, Bytes)>,
                      items: seq<Item>, out: Bytes)
    requires Repacked(codec, a, changed, added, items, out)
    ensures a.localOrder == Names(SortByOffset(a.entries)) && NoDuplicates(CentralNames(a, added))
  {
    hide SortByOffset, LocalEntries, CentralEntries, Assemble, AllItems, Coherent, Tail, Tiled, Listed, TotalSize,
      Directory,
      ItemsStorable, CentralOffset;
    DistinctNames(a, added);
  }

  lemma OutputParts(items: seq<Item>, central: seq<ZipEntry>, comment: Bytes, out: Bytes)
    requires AllStorable(central) && |comment| < 0x1_0000 && Assemble(items, central, comment) == Ok(out)
    ensures var to := |ItemBytes(items)|;
            && |central| < 0x1_0000 && |Directory(central)| < 0x1_0000_0000 && to < 0x1_0000_0000
            && |out| == to + |Directory(central)| + 22 + |comment|
            && out[0..to] == ItemBytes(items) && out[to..] == Tail(central, to, comment)
  {
  }

  lemma RereadViews(a: Archive, added: seq<(string, Bytes)>, items: seq<Item>, out: Bytes)
    requires Coherent(a) && ItemsStorable(items) && Names(ItemEntries(items)) == a.localOrder + AddedNames(added)
    requires NoDuplicates(Names(ItemEntries(items)))
    ensures MapEntries(View(), Reread(a, added, items, out).entries)
            == MapEntries(View(), CentralEntries(a, added, items))
  {
    hide ByName, Coherent, Lookup;
    LaidNames(items);
    AllEmitted(a, added, LaidAll(items));
    AllEmitted(a, added, ItemEntries(items));
    LaidViews(items, CentralNames(a, added));
  }

  lemma StartsWithHeader(raw: Bytes, e: ZipEntry, to: nat)
    requires to <= |raw| && RecordFits(raw, e, to) && e.localOffset == 0
    ensures SignatureAt(raw, LOCAL_SIGNATURE, 0)
  {
    SliceOfSlice(raw, 0, e.dataStart, 0, 4);
    assert LocalFixed(e)[..4] == LOCAL_SIGNATURE;
    assert LocalHead(e)[0..4] == LocalFixed(e)[..4];
  }

  lemma LaysOut(codec: Codec, a: Archive, changed: map<string, Bytes>, added: seq<(string, Bytes)>,
                items: seq<Item>, out: Bytes)
    requires Repacked(codec, a, changed, added, items, out)
    ensures OutputLaidOut(codec, Reread(a, added, items, out), items)
  {
    var locals, more := RecordsWritten(codec, a, changed, added, items, out);
    RepackedNames(codec, a, changed, added, items, out);
    assert Assemble(items, CentralEntries(a, added, items), a.comment) == Ok(out) && |a.comment| < 0x1_0000;
    assert Coherent(a) && ItemsStorable(items) && Names(ItemEntries(items)) == a.localOrder + AddedNames(added);
    assert |items| == |a.entries| + |added|;
    hide *;
    WritesLaysOut(codec, a, added, items, out);
  }

  lemma {:induction false} WritesLaysOut(codec: Codec, a: Archive, added: seq<(string, Bytes)>, items: seq<Item>,
      out: Bytes)
    requires Coherent(a) && ItemsStorable(items) && Names(ItemEntries(items)) == a.localOrder + AddedNames(added)
    requires a.localOrder == Names(SortByOffset(a.entries)) && NoDuplicates(CentralNames(a, added))
    requires Contiguous(items, 0) && AllFit(items) && |items| == |a.entries| + |added|
    requires |a.comment| < 0x1_0000 && Assemble(items, CentralEntries(a, added, items), a.comment) == Ok(out)
    ensures OutputLaidOut(codec, Reread(a, added, items, out), items)
  {
    hide Coherent, SortByOffset, Tiled, Contiguous, AllFit, ByName, Directory, ItemBytes, RecordFits, LaidAll,
      CentralEntries,
      Lookup, EocdFixed, Assemble;
    var b, to := Reread(a, added, items, out), |ItemBytes(items)|;
    var central := CentralEntries(a, added, items);
    OutputParts(items, central, a.comment, out);
    ItemsTile(out, items, 0, to);
    RereadOrder(a, added, items, out, to);
    RereadNames(a, added, items, out);
    RereadViews(a, added, items, out);
    EntriesAlike(codec, b.entries, central);
    LaidNames(items);
    if items != [] {
      TiledAt(out, LaidAll(items), 0, to, 0);
      StartsWithHeader(out, LaidAll(items)[0], to);
    }
  }

  lemma LaidEntriesListed(codec: Codec, items: seq<Item>)
    requires ItemsStorable(items) && forall item | item in items :: Listed(codec, item.entry)
    ensures forall e | e in LaidAll(items) :: Listed(codec, e)
  {
    hide Listed, Laid;
    forall e | e in LaidAll(items) ensures Listed(codec, e) {
      var i :| 0 <= i < |items| && LaidAll(items)[i] == e;
      assert items[i] in items;
      LaidListed(codec, items[i]);
    }
  }

  /** A laid-out output is an archive exactly when it keeps the inspector's limits and hides no later EOCD. */
  lemma LaidOutIsArchive(codec: Codec, b: Archive, items: seq<Item>)
    requires ItemsStorable(items) && OutputLaidOut(codec, b, items)
    requires AllSizesOk(b.entries) ==> forall e | e in b.entries :: Listed(codec, e)
    ensures IsArchive(codec, b) <==>
            WithinInspectorLimits(b) && LastSignature(b.raw, |b.raw| - |b.comment| - 22)
  {
    hide SortByOffset, Tiled, Directory, TotalSize, LastSignature, LaidAll, NameOk, ExtraOk, Tail;
    if b.entries == [] {
      hide Listed;
      EmptyOutput(codec, b);
    }
  }

  lemma EmptyOutput(codec: Codec, b: Archive)
    requires b.entries == [] && AllStorable(b.entries) && |b.comment| < 0x1_0000
    requires CentralOffset(b) == 0 && b.raw[CentralOffset(b)..] == Tail(b.entries, CentralOffset(b), b.comment)
    ensures !IsArchive(codec, b)
  {
    assert b.raw[0..] == b.raw;
    if SignatureAt(b.raw, LOCAL_SIGNATURE, 0) {
      EmptyTail(b);
    }
  }
}
