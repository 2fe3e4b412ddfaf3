/**
 When a repack succeeds and which error it ends in, read off the names, the lengths of the records and
 the widths of the classic fields.
 */
module ZipSuccess {
  import opened Basics
  import opened Bytes
  import opened ZipFormat
  import opened ZipInspect
  import opened ZipSorting
  import opened ZipLayout
  import opened ZipRepack
  import opened ZipRoundTrip
  import opened ZipTheorems
  import opened ZipPreservation

  const MAX_FIELD_16: nat := 0xFFFF
  const MAX_FIELD_32: nat := 0xFFFF_FFFF

  // Lengths

  /** What `data` takes in a record that is stored or deflated as `e` is. */
  function DataLength(codec: Codec, e: ZipEntry, data: Bytes): nat {
    if e.compression == STORED then |data| else |codec.deflate(data)|
  }

  predicate Spans(e: ZipEntry) {
    e.localOffset as nat <= e.spanEnd && e.dataEnd <= e.spanEnd
  }

  /** What the local record of `e` takes in the output: its old span, or a header, the new data and the old gap. */
  function LocalLength(codec: Codec, e: ZipEntry, changed: map<string, Bytes>): nat
    requires Spans(e)
  {
    if e.name in changed then
      30 + |e.nameBytes| + |e.localExtra| + DataLength(codec, e, changed[e.name]) + (e.spanEnd - e.dataEnd)
    else e.spanEnd - e.localOffset
  }

  function LocalsLength(codec: Codec, es: seq<ZipEntry>, changed: map<string, Bytes>): nat
    requires forall e | e in es :: Spans(e)
  {
    if es == [] then 0 else LocalLength(codec, es[0], changed) + LocalsLength(codec, es[1..], changed)
  }

  function NameLength(codec: Codec, name: string): nat {
    match codec.encodeUtf8(name)
    case None => 0
    case Some(nameBytes) => |nameBytes|
  }

  function AdditionLength(codec: Codec, name: string, data: Bytes): nat {
    30 + NameLength(codec, name) + |codec.deflate(data)|
  }

  function AdditionsLength(codec: Codec, added: seq<(string, Bytes)>): nat {
    if added == [] then 0
    else AdditionLength(codec, added[0].0, added[0].1) + AdditionsLength(codec, added[1..])
  }

  /** What the additions take in the central directory. */
  function AddedDirectoryLength(codec: Codec, added: seq<(string, Bytes)>): nat {
    if added == [] then 0 else 46 + NameLength(codec, added[0].0) + AddedDirectoryLength(codec, added[1..])
  }

  // What fits the classic fields

  predicate ChangeFits(codec: Codec, e: ZipEntry, changed: map<string, Bytes>) {
    e.name in changed ==>
      DataLength(codec, e, changed[e.name]) <= MAX_FIELD_32 && |changed[e.name]| <= MAX_FIELD_32
  }

  predicate DataFits(codec: Codec, data: Bytes) {
    |codec.deflate(data)| <= MAX_FIELD_32 && |data| <= MAX_FIELD_32
  }

  predicate AdditionFits(codec: Codec, name: string, data: Bytes) {
    codec.encodeUtf8(name).Some? && NameLength(codec, name) <= MAX_FIELD_16 && DataFits(codec, data)
  }

  /** Every record of `es` can be written, the first at `offset`. */
  predicate LocalsFit(codec: Codec, es: seq<ZipEntry>, changed: map<string, Bytes>, offset: nat)
    requires forall e | e in es :: Spans(e)
  {
    forall k | 0 <= k < |es| ::
      ChangeFits(codec, es[k], changed) && offset + LocalsLength(codec, es[..k], changed) <= MAX_FIELD_32
  }

  /** The first `n` additions can be written, the first at `offset`. */
  predicate AdditionsFit(codec: Codec, added: seq<(string, Bytes)>, offset: nat, n: nat)
    requires n <= |added|
  {
    forall k | 0 <= k < n ::
      && AdditionFits(codec, added[k].0, added[k].1)
      && offset + AdditionsLength(codec, added[..k]) <= MAX_FIELD_32
  }

  // One record

  lemma LocalItemOutcome(codec: Codec, raw: Bytes, e: ZipEntry, changed: map<string, Bytes>, offset: nat)
    requires Sliceable(raw, e)
    ensures var r := LocalItem(codec, raw, e, changed, offset);
            && (r.Ok? <==> ChangeFits(codec, e, changed) && offset <= MAX_FIELD_32)
            && (r.Err? ==> r.error == UnsafeZip)
            && (r.Ok? ==> |r.value.bytes| == LocalLength(codec, e, changed))
  {
    hide LocalFixed;
  }

  lemma AddedItemOutcome(codec: Codec, name: string, data: Bytes, offset: nat)
    ensures var r := AddedItem(codec, name, data, offset);
            && (r.Ok? <==> AdditionFits(codec, name, data) && offset <= MAX_FIELD_32)
            && (r == Err(Unencodable) <==> codec.encodeUtf8(name).None?)
            && (r == Err(FieldOverflow) <==>
                && codec.encodeUtf8(name).Some? && NameLength(codec, name) > MAX_FIELD_16
                && DataFits(codec, data) && offset <= MAX_FIELD_32)
            && (r.Err? ==> r.error in {UnsafeZip, Unencodable, FieldOverflow})
            && (r.Ok? ==> |r.value.bytes| == AdditionLength(codec, name, data))
  {
    hide LocalFixed;
  }

  // All records

  lemma LocalsFitTurn(codec: Codec, es: seq<ZipEntry>, changed: map<string, Bytes>, offset: nat)
    requires es != [] && forall e | e in es :: Spans(e)
    ensures LocalsFit(codec, es, changed, offset) <==>
            && ChangeFits(codec, es[0], changed) && offset <= MAX_FIELD_32
            && LocalsFit(codec, es[1..], changed, offset + LocalLength(codec, es[0], changed))
  {
    hide ChangeFits, LocalLength;
    var next := offset + LocalLength(codec, es[0], changed);
    forall k | 0 < k < |es|
      ensures offset + LocalsLength(codec, es[..k], changed) == next + LocalsLength(codec, es[1..][..k - 1], changed)
    {
      assert es[..k][1..] == es[1..][..k - 1];
    }
    if LocalsFit(codec, es, changed, offset) {
      assert es[..0] == [];
      forall k | 0 <= k < |es[1..]|
        ensures ChangeFits(codec, es[1..][k], changed)
                && next + LocalsLength(codec, es[1..][..k], changed) <= MAX_FIELD_32
      {
        assert es[k + 1] == es[1..][k];
      }
    }
  }

  lemma {:induction false} LocalItemsOutcome(codec: Codec, raw: Bytes, es: seq<ZipEntry>, changed: map<string, Bytes>,
      offset: nat)
    requires forall e | e in es :: Sliceable(raw, e)
    ensures forall e | e in es :: Spans(e)
    ensures var r := LocalItems(codec, raw, es, changed, offset);
            && (r.Ok? <==> LocalsFit(codec, es, changed, offset))
            && (r.Err? ==> r.error == UnsafeZip)
            && (r.Ok? ==> |ItemBytes(r.value)| == LocalsLength(codec, es, changed))
  {
    hide LocalItem, LocalItems, LocalsFit, ChangeFits, LocalLength, ItemsStorable;
    forall e | e in es ensures Spans(e) {
      assert Sliceable(raw, e);
    }
    hide Sliceable;
    if es == [] {
      NoLocals(codec, raw, changed, offset);
    } else {
      LocalItemsTurn(codec, raw, es, changed, offset);
      LocalsFitTurn(codec, es, changed, offset);
      LocalItemOutcome(codec, raw, es[0], changed, offset);
      LocalItemsOutcome(codec, raw, es[1..], changed, offset + LocalLength(codec, es[0], changed));
      if LocalItems(codec, raw, es, changed, offset).Ok? {
        FrontItem(LocalItem(codec, raw, es[0], changed, offset).value,
          LocalItems(codec, raw, es[1..], changed, offset + LocalLength(codec, es[0], changed)).value);
      }
    }
  }

  lemma NoLocals(codec: Codec, raw: Bytes, changed: map<string, Bytes>, offset: nat)
    ensures LocalItems(codec, raw, [], changed, offset) == Ok([]) && LocalsFit(codec, [], changed, offset)
  {
  }

  lemma AdditionsFitTurn(codec: Codec, added: seq<(string, Bytes)>, offset: nat, n: nat)
    requires 0 < n <= |added|
    ensures AdditionsFit(codec, added, offset, n) <==>
            && AdditionFits(codec, added[0].0, added[0].1) && offset <= MAX_FIELD_32
            && AdditionsFit(codec, added[1..], offset + AdditionLength(codec, added[0].0, added[0].1), n - 1)
  {
    hide AdditionFits, AdditionLength;
    var next := offset + AdditionLength(codec, added[0].0, added[0].1);
    forall k | 0 < k < n
      ensures offset + AdditionsLength(codec, added[..k]) == next + AdditionsLength(codec, added[1..][..k - 1])
    {
      assert added[..k][1..] == added[1..][..k - 1];
    }
    if AdditionsFit(codec, added, offset, n) {
      assert added[..0] == [];
      forall k | 0 <= k < n - 1
        ensures AdditionFits(codec, added[1..][k].0, added[1..][k].1)
                && next + AdditionsLength(codec, added[1..][..k]) <= MAX_FIELD_32
      {
        assert added[k + 1] == added[1..][k];
      }
    }
  }

  lemma {:induction false} AddedItemsOutcome(codec: Codec, added: seq<(string, Bytes)>, offset: nat)
    ensures var r := AddedItems(codec, added, offset);
            && (r.Ok? <==> AdditionsFit(codec, added, offset, |added|))
            && (r.Ok? ==> |ItemBytes(r.value)| == AdditionsLength(codec, added))
  {
    hide AddedItem, AddedItems, AdditionsFit, AdditionFits, AdditionLength, ItemsStorable;
    if added == [] {
      NoAddedItems(codec, offset);
    } else {
      AddedItemsTurn(codec, added, offset);
      AdditionsFitTurn(codec, added, offset, |added|);
      AddedItemOutcome(codec, added[0].0, added[0].1, offset);
      var next := offset + AdditionLength(codec, added[0].0, added[0].1);
      AddedItemsOutcome(codec, added[1..], next);
      if AddedItems(codec, added, offset).Ok? {
        FrontItem(AddedItem(codec, added[0].0, added[0].1, offset).value, AddedItems(codec, added[1..], next).value);
      }
    }
  }

  lemma NoAddedItems(codec: Codec, offset: nat)
    ensures AddedItems(codec, [], offset) == Ok([]) && AdditionsFit(codec, [], offset, 0)
  {
  }

  /** The first addition that cannot be written decides on the error. */
  lemma {:induction false} FirstFailure(codec: Codec, added: seq<(string, Bytes)>, offset: nat) returns (k: nat)
    requires AddedItems(codec, added, offset).Err?
    ensures k < |added| && AdditionsFit(codec, added, offset, k)
    ensures var at := offset + AdditionsLength(codec, added[..k]);
            var r := AddedItem(codec, added[k].0, added[k].1, at);
            r.Err? && AddedItems(codec, added, offset) == Err(r.error)
  {
    hide AddedItem, AddedItems, AdditionsFit, AdditionFits, AdditionLength, ItemsStorable;
    if added == [] {
      NoAddedItems(codec, offset);
      assert false;
    } else {
      AddedItemsTurn(codec, added, offset);
      AddedItemOutcome(codec, added[0].0, added[0].1, offset);
      if AddedItem(codec, added[0].0, added[0].1, offset).Err? {
        k := 0;
        assert added[..0] == [];
        NothingFits(codec, added, offset);
      } else {
        var next := offset + AdditionLength(codec, added[0].0, added[0].1);
        var j := FirstFailure(codec, added[1..], next);
        k := j + 1;
        AdditionsFitTurn(codec, added, offset, k);
        assert added[..k][1..] == added[1..][..j];
      }
    }
  }

  lemma NothingFits(codec: Codec, added: seq<(string, Bytes)>, offset: nat)
    ensures AdditionsFit(codec, added, offset, 0)
  {
  }

  // The central directory

  function RecordLength(e: ZipEntry): nat {
    46 + |e.nameBytes| + |e.centralExtra| + |e.comment|
  }

  lemma {:induction false} SameDirectoryLength(es: seq<ZipEntry>, fs: seq<ZipEntry>)
    requires AllStorable(es) && AllStorable(fs) && |es| == |fs|
    requires forall i | 0 <= i < |es| :: RecordLength(es[i]) == RecordLength(fs[i])
    ensures |Directory(es)| == |Directory(fs)|
  {
    hide CentralFixed;
    if es != [] {
      SameDirectoryLength(es[1..], fs[1..]);
    }
  }

  lemma {:induction false} AdditionsListedLength(codec: Codec, es: seq<ZipEntry>, added: seq<(string, Bytes)>)
    requires AllStorable(es) && |es| == |added|
    requires forall j | 0 <= j < |es| :: RecordLength(es[j]) == 46 + NameLength(codec, added[j].0)
    ensures |Directory(es)| == AddedDirectoryLength(codec, added)
  {
    hide CentralFixed;
    if es != [] {
      AdditionsListedLength(codec, es[1..], added[1..]);
    }
  }

  lemma CentralAt(a: Archive, added: seq<(string, Bytes)>, items: seq<Item>, m: nat, k: nat)
    requires Coherent(a) && ItemsStorable(items) && Names(ItemEntries(items)) == a.localOrder + AddedNames(added)
    requires NoDuplicates(Names(ItemEntries(items)))
    requires m < |CentralNames(a, added)| && k < |items| && items[k].entry.name == CentralNames(a, added)[m]
    ensures |CentralEntries(a, added, items)| == |CentralNames(a, added)|
    ensures CentralEntries(a, added, items)[m] == items[k].entry
  {
    hide Coherent, ByName, NoDuplicates;
    AllEmitted(a, added, ItemEntries(items));
    assert items[k] in items && ItemEntries(items)[k] in ItemEntries(items);
    ByNameExact(ItemEntries(items), ItemEntries(items)[k]);
  }

  /** What a successful run of both loops has produced. */
  ghost predicate BothWritten(codec: Codec, a: Archive, changed: map<string, Bytes>, added: seq<(string, Bytes)>,
                              items: seq<Item>, locals: seq<Item>, more: seq<Item>)
  {
    && Coherent(a) && items == locals + more && |locals| == |LocalEntries(a)| == |a.entries| && |more| == |added|
    && ItemsStorable(items) && Names(ItemEntries(items)) == a.localOrder + AddedNames(added)
    && NoDuplicates(Names(ItemEntries(items)))
    && (forall e | e in a.entries :: e in LocalEntries(a))
    && (forall k | 0 <= k < |locals| :: FromEntry(codec, a.raw, LocalEntries(a)[k], changed, locals[k]))
    && AddedItems(codec, added, |ItemBytes(locals)|) == Ok(more)
  }

  lemma OriginalLength(codec: Codec, a: Archive, changed: map<string, Bytes>, added: seq<(string, Bytes)>,
                       items: seq<Item>, locals: seq<Item>, more: seq<Item>, i: nat)
    requires BothWritten(codec, a, changed, added, items, locals, more) && i < |a.entries|
    ensures RecordLength(CentralEntries(a, added, items)[i]) == RecordLength(a.entries[i])
  {
    hide Coherent, ItemFits, Carries, LocalEntries, NoDuplicates, CentralEntries, Names, ItemEntries, Sliceable;
    assert a.entries[i] in a.entries;
    var k :| 0 <= k < |LocalEntries(a)| && LocalEntries(a)[k] == a.entries[i];
    assert FromEntry(codec, a.raw, LocalEntries(a)[k], changed, locals[k]) && items[k] == locals[k];
    CentralNameAt(a, added, i);
    CentralAt(a, added, items, i, k);
  }

  lemma AddedRecordLength(codec: Codec, a: Archive, changed: map<string, Bytes>, added: seq<(string, Bytes)>,
                          items: seq<Item>, locals: seq<Item>, more: seq<Item>, j: nat)
    requires BothWritten(codec, a, changed, added, items, locals, more) && j < |added|
    ensures RecordLength(CentralEntries(a, added, items)[|a.entries| + j]) == 46 + NameLength(codec, added[j].0)
  {
    hide Coherent, FromEntry, LocalEntries, NoDuplicates, CentralEntries, Names, ItemEntries, AddedItem, AddedItems;
    var at := AddedItemAt(codec, added, |ItemBytes(locals)|, j);
    AdditionAs(codec, added[j].0, added[j].1, at);
    hide LocalHead;
    assert items[|a.entries| + j] == more[j];
    CentralNameAt(a, added, |a.entries| + j);
    CentralAt(a, added, items, |a.entries| + j, |a.entries| + j);
  }

  lemma BothStorable(codec: Codec, a: Archive, changed: map<string, Bytes>, added: seq<(string, Bytes)>,
                     items: seq<Item>, locals: seq<Item>, more: seq<Item>)
    requires BothWritten(codec, a, changed, added, items, locals, more)
    ensures Coherent(a) && ItemsStorable(items) && Names(ItemEntries(items)) == a.localOrder + AddedNames(added)
    ensures var central := CentralEntries(a, added, items);
            |central| == |a.entries| + |added| && AllStorable(central)
  {
    hide Coherent, FromEntry, AddedItems, CentralEntries, LocalEntries;
  }

  lemma SplitLength(codec: Codec, es: seq<ZipEntry>, added: seq<(string, Bytes)>, central: seq<ZipEntry>)
    requires AllStorable(es) && AllStorable(central) && |central| == |es| + |added|
    requires forall i | 0 <= i < |es| :: RecordLength(central[i]) == RecordLength(es[i])
    requires forall j | 0 <= j < |added| :: RecordLength(central[|es| + j]) == 46 + NameLength(codec, added[j].0)
    ensures |Directory(central)| == |Directory(es)| + AddedDirectoryLength(codec, added)
  {
    hide Directory, RecordLength, NameLength, AddedDirectoryLength;
    var front, back := central[..|es|], central[|es|..];
    assert central == front + back;
    DirectoryAppend(front, back);
    SameDirectoryLength(front, es);
    AdditionsListedLength(codec, back, added);
  }

  lemma DirectoryLength(codec: Codec, a: Archive, changed: map<string, Bytes>, added: seq<(string, Bytes)>,
                        items: seq<Item>, locals: seq<Item>, more: seq<Item>, central: seq<ZipEntry>)
    requires BothWritten(codec, a, changed, added, items, locals, more)
    requires Coherent(a) && ItemsStorable(items) && Names(ItemEntries(items)) == a.localOrder + AddedNames(added)
    requires central == CentralEntries(a, added, items) && AllStorable(central) && AllStorable(a.entries)
    requires |central| == |a.entries| + |added|
    ensures |Directory(central)| == |Directory(a.entries)| + AddedDirectoryLength(codec, added)
  {
    hide *;
    forall i | 0 <= i < |a.entries| ensures RecordLength(central[i]) == RecordLength(a.entries[i]) {
      OriginalLength(codec, a, changed, added, items, locals, more, i);
    }
    forall j | 0 <= j < |added|
      ensures RecordLength(central[|a.entries| + j]) == 46 + NameLength(codec, added[j].0)
    {
      AddedRecordLength(codec, a, changed, added, items, locals, more, j);
    }
    SplitLength(codec, a.entries, added, central);
  }

  lemma NamesApart(codec: Codec, a: Archive, changed: map<string, Bytes>, added: seq<(string, Bytes)>,
                   items: seq<Item>)
    requires IsArchive(codec, a) && Coherent(a) && AllItems(codec, a, changed, added) == Ok(items)
    requires NoDuplicates(AddedNames(added)) && (forall n | n in AddedNames(added) :: n !in EntryNames(a))
    ensures ItemsStorable(items) && Names(ItemEntries(items)) == a.localOrder + AddedNames(added)
    ensures NoDuplicates(Names(ItemEntries(items)))
  {
    AllItemsNamed(codec, a, changed, added);
    assert a.localOrder == Names(SortByOffset(a.entries)) && NoDuplicates(Names(a.entries));
    assert forall n | n in AddedNames(added) :: n !in ByName(a.entries);
    hide *;
    CentralNamesPermute(a, added);
    DistinctNames(a, added);
    PermutationDistinct(CentralNames(a, added), Names(ItemEntries(items)));
  }

  lemma LoopsWrite(codec: Codec, a: Archive, changed: map<string, Bytes>, added: seq<(string, Bytes)>)
    returns (items: seq<Item>, locals: seq<Item>, more: seq<Item>)
    requires IsArchive(codec, a) && Coherent(a) && LocalEntries(a) == SortByOffset(a.entries)
    requires NoDuplicates(AddedNames(added)) && (forall n | n in AddedNames(added) :: n !in EntryNames(a))
    requires AllItems(codec, a, changed, added).Ok?
    ensures AllItems(codec, a, changed, added) == Ok(items)
    ensures BothWritten(codec, a, changed, added, items, locals, more)
    ensures LocalItems(codec, a.raw, LocalEntries(a), changed, 0) == Ok(locals)
  {
    items := AllItems(codec, a, changed, added).value;
    locals := LocalItems(codec, a.raw, LocalEntries(a), changed, 0).value;
    more := AddedItems(codec, added, |ItemBytes(locals)|).value;
    assert items == locals + more;
    assert |locals| == |LocalEntries(a)| && |more| == |added|;
    assert AddedItems(codec, added, |ItemBytes(locals)|) == Ok(more);
    hide AllItems, IsArchive, Coherent, LocalItems, AddedItems, FromEntry, ItemsStorable, NoDuplicates, Names,
      SortByOffset, LocalEntries, EntryNames;
    NamesApart(codec, a, changed, added, items);
    SortMembers(a.entries);
    LocalsWritten(codec, a, changed);
  }

  // The outcome

  /** The edits name entries that exist and additions that are new and safe. */
  ghost predicate NamesFit(a: Archive, changed: map<string, Bytes>, added: seq<(string, Bytes)>) {
    changed.Keys <= EntryNames(a) && forall n | n in AddedNames(added) :: n !in EntryNames(a) && NameOk(n)
  }

  /** The sizes, offsets and counts that the edit leads to fit the fields of a classic archive. */
  ghost predicate FieldsFit(codec: Codec, a: Archive, changed: map<string, Bytes>, added: seq<(string, Bytes)>)
    requires Coherent(a) && AllStorable(a.entries) && forall e | e in LocalEntries(a) :: Spans(e)
  {
    && (forall e | e in LocalEntries(a) :: ChangeFits(codec, e, changed))
    && (forall j | 0 <= j < |added| :: AdditionFits(codec, added[j].0, added[j].1))
    && LocalsLength(codec, LocalEntries(a), changed) + AdditionsLength(codec, added) <= MAX_FIELD_32
    && |Directory(a.entries)| + AddedDirectoryLength(codec, added) <= MAX_FIELD_32
    && |a.entries| + |added| <= MAX_FIELD_16
  }

  lemma {:induction false} LocalsReach(codec: Codec, es: seq<ZipEntry>, changed: map<string, Bytes>, k: nat)
    requires (forall e | e in es :: Spans(e)) && k <= |es|
    ensures LocalsLength(codec, es[..k], changed) <= LocalsLength(codec, es, changed)
  {
    hide LocalLength;
    if k > 0 {
      assert es[..k][1..] == es[1..][..k - 1];
      LocalsReach(codec, es[1..], changed, k - 1);
    }
  }

  lemma {:induction false} AdditionsReach(codec: Codec, added: seq<(string, Bytes)>, k: nat)
    requires k <= |added|
    ensures AdditionsLength(codec, added[..k]) <= AdditionsLength(codec, added)
  {
    hide AdditionLength;
    if k > 0 {
      assert added[..k][1..] == added[1..][..k - 1];
      AdditionsReach(codec, added[1..], k - 1);
    }
  }

  /** When the whole fits, so does every record on the way. */
  lemma RecordsFit(codec: Codec, es: seq<ZipEntry>, changed: map<string, Bytes>, added: seq<(string, Bytes)>)
    requires forall e | e in es :: Spans(e)
    requires LocalsLength(codec, es, changed) + AdditionsLength(codec, added) <= MAX_FIELD_32
    ensures LocalsFit(codec, es, changed, 0) <==> forall e | e in es :: ChangeFits(codec, e, changed)
    ensures AdditionsFit(codec, added, LocalsLength(codec, es, changed), |added|) <==>
            forall j | 0 <= j < |added| :: AdditionFits(codec, added[j].0, added[j].1)
  {
    hide ChangeFits, AdditionFits, LocalsLength, AdditionsLength;
    forall k | 0 <= k < |es| ensures LocalsLength(codec, es[..k], changed) <= MAX_FIELD_32 {
      LocalsReach(codec, es, changed, k);
    }
    forall k | 0 <= k < |added|
      ensures LocalsLength(codec, es, changed) + AdditionsLength(codec, added[..k]) <= MAX_FIELD_32
    {
      AdditionsReach(codec, added, k);
    }
  }

  /** Both loops get through exactly when every record fits where it is written. */
  lemma LoopsOutcome(codec: Codec, a: Archive, changed: map<string, Bytes>, added: seq<(string, Bytes)>)
    requires Coherent(a)
    ensures forall e | e in LocalEntries(a) :: Spans(e)
    ensures var r, es := AllItems(codec, a, changed, added), LocalEntries(a);
            && (r.Ok? <==>
                && LocalsFit(codec, es, changed, 0)
                && AdditionsFit(codec, added, LocalsLength(codec, es, changed), |added|))
            && (!LocalsFit(codec, es, changed, 0) ==> r == Err(UnsafeZip))
            && (LocalsFit(codec, es, changed, 0) && r.Err? ==>
                  r == AddedItems(codec, added, LocalsLength(codec, es, changed)))
            && (r.Ok? ==> |ItemBytes(r.value)| == LocalsLength(codec, es, changed) + AdditionsLength(codec, added))
  {
    hide Coherent, LocalEntries, LocalItems, AddedItems, LocalsFit, AdditionsFit, ItemsStorable, LocalsLength,
      AdditionsLength, Spans, ItemBytes;
    var es := LocalEntries(a);
    LocalItemsOutcome(codec, a.raw, es, changed, 0);
    AddedItemsOutcome(codec, added, LocalsLength(codec, es, changed));
    if AllItems(codec, a, changed, added).Ok? {
      ItemBytesAppend(LocalItems(codec, a.raw, es, changed, 0).value,
        AddedItems(codec, added, LocalsLength(codec, es, changed)).value);
    }
  }

  lemma ArgumentOutcome(a: Archive, changed: map<string, Bytes>, added: seq<(string, Bytes)>)
    ensures var r := ArgumentError(a, changed, added);
            && (r.None? <==> NamesFit(a, changed, added))
            && (r == Some(MissingEntry) <==> !(changed.Keys <= EntryNames(a)))
            && (r == Some(EntryExists) <==>
                changed.Keys <= EntryNames(a) && exists n :: n in AddedNames(added) && n in EntryNames(a))
            && (r.Some? ==> r.value in {MissingEntry, EntryExists, UnsafeZip})
  {
    hide NameOk, ByName;
  }

  lemma RepackedInTurn(codec: Codec, a: Archive, changed: map<string, Bytes>, added: seq<(string, Bytes)>)
    requires Coherent(a) && NoDuplicates(AddedNames(added))
    ensures var refused, r := ArgumentError(a, changed, added), Repack(codec, a, changed, added);
            && (refused.Some? ==> r == Err(refused.value))
            && (refused.None? && AllItems(codec, a, changed, added).Err? ==>
                  r == Err(AllItems(codec, a, changed, added).error))
    ensures ArgumentError(a, changed, added).None? && AllItems(codec, a, changed, added).Ok? ==>
              var items := AllItems(codec, a, changed, added).value;
              && ItemsStorable(items) && Names(ItemEntries(items)) == a.localOrder + AddedNames(added)
              && Repack(codec, a, changed, added) == Assemble(items, CentralEntries(a, added, items), a.comment)
  {
    hide ArgumentError, AllItems, Assemble, CentralEntries, Coherent;
    if AllItems(codec, a, changed, added).Ok? {
      AllItemsNamed(codec, a, changed, added);
    }
  }

  lemma AssembleOutcome(items: seq<Item>, central: seq<ZipEntry>, comment: Bytes)
    requires AllStorable(central) && |comment| < 0x1_0000
    ensures var r := Assemble(items, central, comment);
            && (r.Ok? <==>
                |central| <= MAX_FIELD_16 && |Directory(central)| <= MAX_FIELD_32 && |ItemBytes(items)| <= MAX_FIELD_32)
            && (r.Err? ==> r.error == UnsafeZip)
            && (r.Ok? ==> |r.value| == |ItemBytes(items)| + |Directory(central)| + 22 + |comment|)
  {
  }

  /** A repack succeeds exactly when names and fields fit, and then its length is known. */
  lemma RepackSucceeds(codec: Codec, a: Archive, changed: map<string, Bytes>, added: seq<(string, Bytes)>)
    requires Inspect(codec, a.raw) == Ok(a) && NoDuplicates(AddedNames(added))
    ensures Coherent(a) && AllStorable(a.entries) && forall e | e in LocalEntries(a) :: Spans(e)
    ensures Repack(codec, a, changed, added).Ok? <==>
            NamesFit(a, changed, added) && FieldsFit(codec, a, changed, added)
    ensures Repack(codec, a, changed, added).Ok? ==>
              |Repack(codec, a, changed, added).value|
              == LocalsLength(codec, LocalEntries(a), changed) + AdditionsLength(codec, added)
                 + |Directory(a.entries)| + AddedDirectoryLength(codec, added) + 22 + |a.comment|
  {
    hide *;
    InspectedCoherent(codec, a);
    ArchiveStorable(codec, a);
    ArgumentOutcome(a, changed, added);
    LoopsOutcome(codec, a, changed, added);
    RepackedInTurn(codec, a, changed, added);
    if NamesFit(a, changed, added) && AllItems(codec, a, changed, added).Ok? {
      NewNames(a, changed, added);
      var items, locals, more := LoopsWrite(codec, a, changed, added);
      BothStorable(codec, a, changed, added, items, locals, more);
      DirectoryLength(codec, a, changed, added, items, locals, more, CentralEntries(a, added, items));
      AssembleOutcome(items, CentralEntries(a, added, items), a.comment);
    }
    FitsInTurn(codec, a, changed, added);
  }

  lemma ArchiveStorable(codec: Codec, a: Archive)
    requires IsArchive(codec, a)
    ensures AllStorable(a.entries) && |a.comment| < 0x1_0000
  {
  }

  lemma NewNames(a: Archive, changed: map<string, Bytes>, added: seq<(string, Bytes)>)
    requires NamesFit(a, changed, added)
    ensures forall n | n in AddedNames(added) :: n !in EntryNames(a)
  {
    hide EntryNames, NameOk;
  }

  lemma FitsInTurn(codec: Codec, a: Archive, changed: map<string, Bytes>, added: seq<(string, Bytes)>)
    requires Coherent(a) && AllStorable(a.entries) && forall e | e in LocalEntries(a) :: Spans(e)
    ensures FieldsFit(codec, a, changed, added) <==>
            && LocalsFit(codec, LocalEntries(a), changed, 0)
            && AdditionsFit(codec, added, LocalsLength(codec, LocalEntries(a), changed), |added|)
            && LocalsLength(codec, LocalEntries(a), changed) + AdditionsLength(codec, added) <= MAX_FIELD_32
            && |Directory(a.entries)| + AddedDirectoryLength(codec, added) <= MAX_FIELD_32
            && |a.entries| + |added| <= MAX_FIELD_16
  {
    hide Coherent, LocalEntries, LocalsFit, AdditionsFit, LocalsLength, AdditionsLength, ChangeFits, AdditionFits,
      Directory, AddedDirectoryLength;
    if LocalsLength(codec, LocalEntries(a), changed) + AdditionsLength(codec, added) <= MAX_FIELD_32 {
      RecordsFit(codec, LocalEntries(a), changed, added);
    }
  }

  // Errors

  /** The loops get to addition `k`, which is to be written at this offset. */
  ghost predicate GetsTo(codec: Codec, a: Archive, changed: map<string, Bytes>, added: seq<(string, Bytes)>, k: nat)
    requires Coherent(a) && k < |added| && forall e | e in LocalEntries(a) :: Spans(e)
  {
    var es := LocalEntries(a);
    LocalsFit(codec, es, changed, 0) && AdditionsFit(codec, added, LocalsLength(codec, es, changed), k)
  }

  function OffsetOf(codec: Codec, a: Archive, changed: map<string, Bytes>, added: seq<(string, Bytes)>, k: nat): nat
    requires Coherent(a) && k < |added| && forall e | e in LocalEntries(a) :: Spans(e)
  {
    LocalsLength(codec, LocalEntries(a), changed) + AdditionsLength(codec, added[..k])
  }

  /** Addition `k` is the first that cannot be written, and its name has no UTF-8 encoding. */
  ghost predicate UnencodableAt(codec: Codec, a: Archive, changed: map<string, Bytes>, added: seq<(string, Bytes)>,
                                k: nat)
    requires Coherent(a) && forall e | e in LocalEntries(a) :: Spans(e)
  {
    k < |added| && GetsTo(codec, a, changed, added, k) && codec.encodeUtf8(added[k].0).None?
  }

  /** Addition `k` is the first that cannot be written, and only for the length of its name. */
  ghost predicate NameTooLongAt(codec: Codec, a: Archive, changed: map<string, Bytes>, added: seq<(string, Bytes)>,
                                k: nat)
    requires Coherent(a) && forall e | e in LocalEntries(a) :: Spans(e)
  {
    && k < |added| && GetsTo(codec, a, changed, added, k)
    && NameLength(codec, added[k].0) > MAX_FIELD_16
    && DataFits(codec, added[k].1) && OffsetOf(codec, a, changed, added, k) <= MAX_FIELD_32
  }

  lemma GotTo(codec: Codec, a: Archive, changed: map<string, Bytes>, added: seq<(string, Bytes)>)
    returns (k: nat)
    requires Coherent(a) && (forall e | e in LocalEntries(a) :: Spans(e))
    requires LocalsFit(codec, LocalEntries(a), changed, 0) && AllItems(codec, a, changed, added).Err?
    ensures k < |added| && GetsTo(codec, a, changed, added, k)
    ensures var r := AddedItem(codec, added[k].0, added[k].1, OffsetOf(codec, a, changed, added, k));
            r.Err? && AllItems(codec, a, changed, added) == Err(r.error)
  {
    hide Coherent, LocalsFit, AdditionsFit, LocalsLength, AdditionsLength, LocalEntries, AllItems, AddedItem,
      AddedItems, Spans;
    LoopsOutcome(codec, a, changed, added);
    k := FirstFailure(codec, added, LocalsLength(codec, LocalEntries(a), changed));
  }

  /** There is one first failure. */
  lemma OneFirst(codec: Codec, a: Archive, changed: map<string, Bytes>, added: seq<(string, Bytes)>, j: nat, k: nat)
    requires Coherent(a) && (forall e | e in LocalEntries(a) :: Spans(e))
    requires j < |added| && GetsTo(codec, a, changed, added, j)
    requires k < |added| && GetsTo(codec, a, changed, added, k)
    requires !AdditionFits(codec, added[j].0, added[j].1) || OffsetOf(codec, a, changed, added, j) > MAX_FIELD_32
    requires !AdditionFits(codec, added[k].0, added[k].1) || OffsetOf(codec, a, changed, added, k) > MAX_FIELD_32
    ensures j == k
  {
    hide Coherent, LocalsFit, LocalsLength, AdditionsLength, LocalEntries, AdditionFits, Spans;
  }

  /** Which of the two errors of the addition loop comes for which addition. */
  lemma LoopErrors(codec: Codec, a: Archive, changed: map<string, Bytes>, added: seq<(string, Bytes)>)
    requires Coherent(a) && (forall e | e in LocalEntries(a) :: Spans(e))
    ensures var r := AllItems(codec, a, changed, added);
            && (r == Err(Unencodable) <==> exists k: nat :: UnencodableAt(codec, a, changed, added, k))
            && (r == Err(FieldOverflow) <==> exists k: nat :: NameTooLongAt(codec, a, changed, added, k))
            && (r.Err? ==> r.error in {UnsafeZip, Unencodable, FieldOverflow})
  {
    hide *;
    LoopsOutcome(codec, a, changed, added);
    if LocalsFit(codec, LocalEntries(a), changed, 0) {
      if AllItems(codec, a, changed, added).Err? {
        var k := GotTo(codec, a, changed, added);
        AddedItemOutcome(codec, added[k].0, added[k].1, OffsetOf(codec, a, changed, added, k));
        FailsAt(codec, a, changed, added, k);
      } else {
        NoFailure(codec, a, changed, added);
      }
    } else {
      NoneReached(codec, a, changed, added);
    }
  }

  lemma FailsAt(codec: Codec, a: Archive, changed: map<string, Bytes>, added: seq<(string, Bytes)>, k: nat)
    requires Coherent(a) && (forall e | e in LocalEntries(a) :: Spans(e))
    requires k < |added| && GetsTo(codec, a, changed, added, k)
    requires !AdditionFits(codec, added[k].0, added[k].1) || OffsetOf(codec, a, changed, added, k) > MAX_FIELD_32
    ensures (exists j: nat :: UnencodableAt(codec, a, changed, added, j)) <==> codec.encodeUtf8(added[k].0).None?
    ensures (exists j: nat :: NameTooLongAt(codec, a, changed, added, j)) <==>
            && codec.encodeUtf8(added[k].0).Some? && NameLength(codec, added[k].0) > MAX_FIELD_16
            && DataFits(codec, added[k].1) && OffsetOf(codec, a, changed, added, k) <= MAX_FIELD_32
  {
    hide GetsTo, OffsetOf, Coherent, LocalEntries, DataFits, Spans;
    forall j: nat | UnencodableAt(codec, a, changed, added, j) || NameTooLongAt(codec, a, changed, added, j)
      ensures j == k
    {
      OneFirst(codec, a, changed, added, j, k);
    }
    assert UnencodableAt(codec, a, changed, added, k) <==> codec.encodeUtf8(added[k].0).None?;
    assert NameTooLongAt(codec, a, changed, added, k) <==>
           && codec.encodeUtf8(added[k].0).Some? && NameLength(codec, added[k].0) > MAX_FIELD_16
           && DataFits(codec, added[k].1) && OffsetOf(codec, a, changed, added, k) <= MAX_FIELD_32;
  }

  lemma NoFailure(codec: Codec, a: Archive, changed: map<string, Bytes>, added: seq<(string, Bytes)>)
    requires Coherent(a) && (forall e | e in LocalEntries(a) :: Spans(e))
    requires AdditionsFit(codec, added, LocalsLength(codec, LocalEntries(a), changed), |added|)
    ensures forall k: nat :: !UnencodableAt(codec, a, changed, added, k) && !NameTooLongAt(codec, a, changed, added, k)
  {
    hide GetsTo, Coherent, LocalEntries, LocalsLength, AdditionsLength, DataFits, Spans;
  }

  lemma NoneReached(codec: Codec, a: Archive, changed: map<string, Bytes>, added: seq<(string, Bytes)>)
    requires Coherent(a) && (forall e | e in LocalEntries(a) :: Spans(e))
    requires !LocalsFit(codec, LocalEntries(a), changed, 0)
    ensures forall k: nat :: !UnencodableAt(codec, a, changed, added, k) && !NameTooLongAt(codec, a, changed, added, k)
  {
    hide Coherent, LocalEntries, LocalsFit, AdditionsFit, LocalsLength, AdditionsLength, Spans;
  }

  /**
   Which error a refused repack ends in: a missing name before an existing one, both before an unsafe one,
   and only then the additions in order. Every other refusal is for a size, an offset or a count.
   */
  lemma RepackErrors(codec: Codec, a: Archive, changed: map<string, Bytes>, added: seq<(string, Bytes)>)
    requires Inspect(codec, a.raw) == Ok(a) && NoDuplicates(AddedNames(added))
    ensures Coherent(a) && forall e | e in LocalEntries(a) :: Spans(e)
    ensures var r := Repack(codec, a, changed, added);
            && (r == Err(MissingEntry) <==> !(changed.Keys <= EntryNames(a)))
            && (r == Err(EntryExists) <==>
                changed.Keys <= EntryNames(a) && exists n :: n in AddedNames(added) && n in EntryNames(a))
            && (r == Err(Unencodable) <==>
                NamesFit(a, changed, added) && exists k: nat :: UnencodableAt(codec, a, changed, added, k))
            && (r == Err(FieldOverflow) <==>
                NamesFit(a, changed, added) && exists k: nat :: NameTooLongAt(codec, a, changed, added, k))
            && (r.Err? ==> r.error in {MissingEntry, EntryExists, UnsafeZip, Unencodable, FieldOverflow})
  {
    hide *;
    InspectedCoherent(codec, a);
    ArchiveStorable(codec, a);
    ArgumentOutcome(a, changed, added);
    LoopsOutcome(codec, a, changed, added);
    LoopErrors(codec, a, changed, added);
    RepackedInTurn(codec, a, changed, added);
    if NamesFit(a, changed, added) && AllItems(codec, a, changed, added).Ok? {
      var items := AllItems(codec, a, changed, added).value;
      AssembleOutcome(items, CentralEntries(a, added, items), a.comment);
    }
  }
}
