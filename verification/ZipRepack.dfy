/**
 The raw-preserving repacker: unchanged local records are copied verbatim, changed ones are
 re-emitted, additions follow, and the central directory and EOCD are rebuilt.
 */
module ZipRepack {
  import opened Basics
  import opened Bytes
  import opened ZipFormat
  import opened ZipInspect
  import opened ZipLayout

  /** A local record as written, with the entry its central record will print. */
  datatype Item = Item(entry: ZipEntry, bytes: Bytes)

  function ByName(es: seq<ZipEntry>): (m: map<string, ZipEntry>)
    ensures forall n | n in m :: m[n] in es && m[n].name == n
    ensures forall e | e in es :: e.name in m
  {
    if es == [] then map[] else ByName(es[..|es| - 1])[es[|es| - 1].name := es[|es| - 1]]
  }

  predicate Sliceable(raw: Bytes, e: ZipEntry) {
    e.Storable() && e.localOffset as nat <= e.spanEnd <= |raw| && e.dataEnd <= e.spanEnd
  }

  /** What the repacker takes for granted about an inspected archive. */
  predicate Coherent(a: Archive) {
    && |a.comment| < 0x1_0000
    && (forall e | e in a.entries :: Sliceable(a.raw, e))
    && (forall n | n in a.localOrder :: n in ByName(a.entries))
    && (forall e | e in a.entries :: e.name in a.localOrder)
  }

  /** Python's `archive.by_name[name]`. */
  function EntryNamed(a: Archive, name: string): (e: ZipEntry)
    requires Coherent(a) && name in a.localOrder
    ensures e in a.entries && e.name == name && Sliceable(a.raw, e)
  {
    ByName(a.entries)[name]
  }

  /** The entries in the order of their local records. */
  function LocalEntries(a: Archive): (es: seq<ZipEntry>)
    requires Coherent(a)
    ensures |es| == |a.localOrder| && forall e | e in es :: Sliceable(a.raw, e)
    ensures forall i | 0 <= i < |es| :: es[i].name == a.localOrder[i]
  {
    seq(|a.localOrder|, i requires 0 <= i < |a.localOrder| && a.localOrder[i] in a.localOrder =>
          EntryNamed(a, a.localOrder[i]))
  }

  function Compress(codec: Codec, data: Bytes, compression: U16): Bytes {
    if compression == STORED then data else codec.deflate(data)
  }

  predicate ClassicSizes(first: nat, second: nat) {
    first <= 0xFFFF_FFFF && second <= 0xFFFF_FFFF
  }

  // One record

  function LocalItem(codec: Codec, raw: Bytes, e: ZipEntry, changed: map<string, Bytes>, offset: nat)
    : (r: Result<Item, ZipError>)
    requires Sliceable(raw, e)
    ensures r.Ok? ==> r.value.entry.Storable() && r.value.entry.name == e.name
  {
    if offset > 0xFFFF_FFFF then Err(UnsafeZip)
    else if e.name !in changed then Ok(Item(e.(localOffset := offset), raw[e.localOffset..e.spanEnd]))
    else
      var data := changed[e.name];
      var compressed := Compress(codec, data, e.compression);
      if !ClassicSizes(|compressed|, |data|) then Err(UnsafeZip)
      else
        var emitted := e.(crc := codec.crc32(data), compressedSize := |compressed|, uncompressedSize := |data|,
                          localOffset := offset, dataStart := 0, dataEnd := 0, spanEnd := 0);
        Ok(Item(emitted, LocalHead(emitted) + compressed + raw[e.dataEnd..e.spanEnd]))
  }

  function AddedItem(codec: Codec, name: string, data: Bytes, offset: nat): (r: Result<Item, ZipError>)
    ensures r.Ok? ==> r.value.entry.Storable() && r.value.entry.name == name
  {
    match codec.encodeUtf8(name)
    case None => Err(Unencodable)
    case Some(nameBytes) =>
      var flags: U16 := if IsAscii(nameBytes) then 0 else 0x0800;
      var compressed := Compress(codec, data, DEFLATED);
      if !ClassicSizes(|compressed|, |data|) || offset > 0xFFFF_FFFF then Err(UnsafeZip)
      else if |nameBytes| > 0xFFFF then Err(FieldOverflow)
      else
        var emitted := ZipEntry(name, nameBytes, 20, 20, flags, DEFLATED, 0, 0,
                                codec.crc32(data), |compressed|, |data|, 0, 0, 0, offset, [], [], [], 0, 0, 0);
        Ok(Item(emitted, LocalHead(emitted) + compressed))
  }

  // All records

  predicate ItemsStorable(items: seq<Item>) {
    forall item | item in items :: item.entry.Storable()
  }

  function ItemBytes(items: seq<Item>): Bytes {
    if items == [] then [] else items[0].bytes + ItemBytes(items[1..])
  }

  function ItemEntries(items: seq<Item>): (es: seq<ZipEntry>)
    ensures |es| == |items|
    ensures ItemsStorable(items) ==> AllStorable(es)
  {
    seq(|items|, i requires 0 <= i < |items| => items[i].entry)
  }

  function PrependItem(item: Item, rest: Result<seq<Item>, ZipError>): Result<seq<Item>, ZipError> {
    match rest
    case Err(e) => Err(e)
    case Ok(items) => Ok([item] + items)
  }

  function LocalItems(codec: Codec, raw: Bytes, es: seq<ZipEntry>, changed: map<string, Bytes>, offset: nat)
    : (r: Result<seq<Item>, ZipError>)
    requires forall e | e in es :: Sliceable(raw, e)
    ensures r.Ok? ==> |r.value| == |es| && ItemsStorable(r.value)
    ensures r.Ok? ==> forall i | 0 <= i < |es| :: r.value[i].entry.name == es[i].name
  {
    if es == [] then Ok([])
    else
      match LocalItem(codec, raw, es[0], changed, offset)
      case Err(e) => Err(e)
      case Ok(item) => PrependItem(item, LocalItems(codec, raw, es[1..], changed, offset + |item.bytes|))
  }

  function AddedItems(codec: Codec, added: seq<(string, Bytes)>, offset: nat): (r: Result<seq<Item>, ZipError>)
    ensures r.Ok? ==> |r.value| == |added| && ItemsStorable(r.value)
    ensures r.Ok? ==> forall i | 0 <= i < |added| :: r.value[i].entry.name == added[i].0
  {
    if added == [] then Ok([])
    else
      match AddedItem(codec, added[0].0, added[0].1, offset)
      case Err(e) => Err(e)
      case Ok(item) => PrependItem(item, AddedItems(codec, added[1..], offset + |item.bytes|))
  }

  function AddedNames(added: seq<(string, Bytes)>): (names: seq<string>)
    ensures |names| == |added|
  {
    seq(|added|, i requires 0 <= i < |added| => added[i].0)
  }

  /** The entries of `names`. */
  function Lookup(es: map<string, ZipEntry>, names: seq<string>): (r: seq<ZipEntry>)
    requires forall n | n in names :: n in es
    ensures |r| == |names|
  {
    seq(|names|, i requires 0 <= i < |names| => es[names[i]])
  }

  function CentralNames(a: Archive, added: seq<(string, Bytes)>): seq<string> {
    Names(a.entries) + AddedNames(added)
  }

  /** Central directory and EOCD after the local records. */
  function Assemble(items: seq<Item>, central: seq<ZipEntry>, comment: Bytes): Result<Bytes, ZipError>
    requires AllStorable(central) && |comment| < 0x1_0000
  {
    var locals := ItemBytes(items);
    if |central| > 0xFFFF || !ClassicSizes(|Directory(central)|, |locals|) then Err(UnsafeZip)
    else Ok(locals + Tail(central, |locals|, comment))
  }

  /** The argument checks that precede any output. */
  function ArgumentError(a: Archive, changed: map<string, Bytes>, added: seq<(string, Bytes)>): Option<ZipError> {
    if !(forall n | n in changed.Keys :: n in ByName(a.entries)) then Some(MissingEntry)
    else if exists n | n in AddedNames(added) :: n in ByName(a.entries) then Some(EntryExists)
    else if exists n | n in AddedNames(added) :: !NameOk(n) then Some(UnsafeZip)
    else None
  }

  function AllItems(codec: Codec, a: Archive, changed: map<string, Bytes>, added: seq<(string, Bytes)>)
    : Result<seq<Item>, ZipError>
    requires Coherent(a)
  {
    match LocalItems(codec, a.raw, LocalEntries(a), changed, 0)
    case Err(e) => Err(e)
    case Ok(items) => PrependItems(items, AddedItems(codec, added, |ItemBytes(items)|))
  }

  function PrependItems(items: seq<Item>, rest: Result<seq<Item>, ZipError>): Result<seq<Item>, ZipError> {
    match rest
    case Err(e) => Err(e)
    case Ok(more) => Ok(items + more)
  }

  /** The records written are those of the local order and then the additions. */
  lemma AllItemsNamed(codec: Codec, a: Archive, changed: map<string, Bytes>, added: seq<(string, Bytes)>)
    requires Coherent(a) && AllItems(codec, a, changed, added).Ok?
    ensures var items := AllItems(codec, a, changed, added).value;
            ItemsStorable(items) && Names(ItemEntries(items)) == a.localOrder + AddedNames(added)
  {
    hide LocalItem, AddedItem;
    var items := LocalItems(codec, a.raw, LocalEntries(a), changed, 0).value;
    var more := AddedItems(codec, added, |ItemBytes(items)|).value;
    hide *;
    ItemsNamed(items, more, a.localOrder, AddedNames(added));
  }

  lemma ItemsNamed(items: seq<Item>, more: seq<Item>, first: seq<string>, second: seq<string>)
    requires |items| == |first| && |more| == |second|
    requires forall i | 0 <= i < |items| :: items[i].entry.name == first[i]
    requires forall i | 0 <= i < |more| :: more[i].entry.name == second[i]
    ensures Names(ItemEntries(items + more)) == first + second
  {
  }

  /** Every name of the central order was emitted. */
  lemma AllEmitted(a: Archive, added: seq<(string, Bytes)>, es: seq<ZipEntry>)
    requires Coherent(a) && Names(es) == a.localOrder + AddedNames(added)
    ensures forall n | n in CentralNames(a, added) :: n in ByName(es)
  {
    forall n | n in CentralNames(a, added) ensures n in ByName(es) {
      assert n in Names(es) by {
        if n in Names(a.entries) {
          var i :| 0 <= i < |a.entries| && a.entries[i].name == n;
          assert a.entries[i] in a.entries;
        }
      }
      var k :| 0 <= k < |es| && es[k].name == n;
      assert es[k] in es;
    }
  }

  /** The central entries in order, looked up among the emitted ones. */
  function CentralEntries(a: Archive, added: seq<(string, Bytes)>, items: seq<Item>): (es: seq<ZipEntry>)
    requires Coherent(a) && ItemsStorable(items) && Names(ItemEntries(items)) == a.localOrder + AddedNames(added)
    ensures AllStorable(es) && |es| == |a.entries| + |added|
  {
    AllEmitted(a, added, ItemEntries(items));
    Lookup(ByName(ItemEntries(items)), CentralNames(a, added))
  }

  function Repack(codec: Codec, a: Archive, changed: map<string, Bytes>, added: seq<(string, Bytes)>): Result<Bytes,
      ZipError>
    requires Coherent(a) && NoDuplicates(AddedNames(added))
  {
    match ArgumentError(a, changed, added)
    case Some(e) => Err(e)
    case None =>
      match AllItems(codec, a, changed, added)
      case Err(e) => Err(e)
      case Ok(items) =>
        AllItemsNamed(codec, a, changed, added);
        Assemble(items, CentralEntries(a, added, items), a.comment)
  }

  // The loops

  lemma PrependNothing(rest: Result<seq<Item>, ZipError>, items: seq<Item>)
    ensures PrependItems([], rest) == rest
    ensures PrependItems(items, Ok([])) == Ok(items)
  {
    if rest.Ok? {
      assert [] + rest.value == rest.value;
    }
    assert items + [] == items;
  }

  lemma PrependInTurn(items: seq<Item>, item: Item, rest: Result<seq<Item>, ZipError>)
    ensures PrependItems(items, PrependItem(item, rest)) == PrependItems(items + [item], rest)
  {
    if rest.Ok? {
      assert items + ([item] + rest.value) == items + [item] + rest.value;
    }
  }

  lemma NoPrepend(items: seq<Item>)
    ensures forall e: ZipError :: PrependItems(items, Err(e)) == Err(e)
  {
  }

  lemma LocalItemsTurn(codec: Codec, raw: Bytes, es: seq<ZipEntry>, changed: map<string, Bytes>, offset: nat)
    requires es != [] && forall e | e in es :: Sliceable(raw, e)
    ensures LocalItems(codec, raw, es, changed, offset)
            == match LocalItem(codec, raw, es[0], changed, offset)
               case Err(e) => Err(e)
               case Ok(item) => PrependItem(item, LocalItems(codec, raw, es[1..], changed, offset + |item.bytes|))
  {
    hide LocalItem, Sliceable, PrependItem;
  }

  lemma AddedItemsTurn(codec: Codec, added: seq<(string, Bytes)>, offset: nat)
    requires added != []
    ensures AddedItems(codec, added, offset)
            == match AddedItem(codec, added[0].0, added[0].1, offset)
               case Err(e) => Err(e)
               case Ok(item) => PrependItem(item, AddedItems(codec, added[1..], offset + |item.bytes|))
  {
    hide AddedItem, PrependItem;
  }

  /** One turn of the local-record loop. */
  lemma LocalItemsStep(codec: Codec, raw: Bytes, es: seq<ZipEntry>, changed: map<string, Bytes>, offset: nat,
      items: seq<Item>)
    requires es != [] && forall e | e in es :: Sliceable(raw, e)
    ensures PrependItems(items, LocalItems(codec, raw, es, changed, offset))
            == match LocalItem(codec, raw, es[0], changed, offset)
               case Err(e) => Err(e)
               case Ok(item) =>
                 PrependItems(items + [item], LocalItems(codec, raw, es[1..], changed, offset + |item.bytes|))
  {
    LocalItemsTurn(codec, raw, es, changed, offset);
    hide LocalItem, LocalItems, Sliceable, PrependItem, PrependItems;
    NoPrepend(items);
    match LocalItem(codec, raw, es[0], changed, offset)
    case Err(e) =>
    case Ok(item) =>
      PrependInTurn(items, item, LocalItems(codec, raw, es[1..], changed, offset + |item.bytes|));
  }

  /** One turn of the addition loop. */
  lemma AddedItemsStep(codec: Codec, added: seq<(string, Bytes)>, offset: nat, items: seq<Item>)
    requires added != []
    ensures PrependItems(items, AddedItems(codec, added, offset))
            == match AddedItem(codec, added[0].0, added[0].1, offset)
               case Err(e) => Err(e)
               case Ok(item) =>
                 PrependItems(items + [item], AddedItems(codec, added[1..], offset + |item.bytes|))
  {
    AddedItemsTurn(codec, added, offset);
    hide AddedItem, AddedItems, PrependItem, PrependItems;
    NoPrepend(items);
    match AddedItem(codec, added[0].0, added[0].1, offset)
    case Err(e) =>
    case Ok(item) =>
      PrependInTurn(items, item, AddedItems(codec, added[1..], offset + |item.bytes|));
  }

  lemma {:induction false} ItemBytesAppend(a: seq<Item>, b: seq<Item>)
    ensures ItemBytes(a + b) == ItemBytes(a) + ItemBytes(b)
  {
    if a == [] {
      assert a + b == b;
    } else {
      assert (a + b)[1..] == a[1..] + b;
      ItemBytesAppend(a[1..], b);
    }
  }

  /** What the buffer and the `emitted` dictionary hold after `items` have been written. */
  ghost predicate Written(items: seq<Item>, output: Bytes, emitted: map<string, ZipEntry>) {
    output == ItemBytes(items) && emitted == ByName(ItemEntries(items)) && ItemsStorable(items)
  }

  lemma EmitItem(items: seq<Item>, item: Item, output: Bytes, emitted: map<string, ZipEntry>)
    requires Written(items, output, emitted) && item.entry.Storable()
    ensures Written(items + [item], output + item.bytes, emitted[item.entry.name := item.entry])
  {
    ItemBytesAppend(items, [item]);
    assert ItemBytes([item]) == item.bytes;
    var es := ItemEntries(items + [item]);
    assert es[..|es| - 1] == ItemEntries(items);
  }

  lemma NothingWritten()
    ensures Written([], [], map[])
  {
    assert ItemEntries([]) == [];
  }

  method WriteLocalRecords(codec: Codec, a: Archive, changed: map<string, Bytes>)
    returns (failure: Option<ZipError>, output: Bytes, emitted: map<string, ZipEntry>, ghost items: seq<Item>)
    requires Coherent(a)
    ensures LocalItems(codec, a.raw, LocalEntries(a), changed, 0)
            == if failure.Some? then Err(failure.value) else Ok(items)
    ensures failure.None? ==> Written(items, output, emitted)
  {
    hide *;
    output, emitted, items := [], map[], [];
    var original := LocalEntries(a);
    ghost var whole := LocalItems(codec, a.raw, original, changed, 0);
    PrependNothing(whole, []);
    NothingWritten();
    assert original[0..] == original;
    var i := 0;
    while i < |a.localOrder|
      invariant 0 <= i <= |a.localOrder| == |original|
      invariant whole == PrependItems(items, LocalItems(codec, a.raw, original[i..], changed, |output|))
      invariant Written(items, output, emitted)
    {
      assert original[i..][0] == original[i] && original[i..][1..] == original[i + 1..];
      LocalItemsStep(codec, a.raw, original[i..], changed, |output|, items);
      var written := LocalItem(codec, a.raw, original[i], changed, |output|);
      if written.Err? {
        return Some(written.error), output, emitted, items;
      }
      var item := written.value;
      EmitItem(items, item, output, emitted);
      output, emitted, items := output + item.bytes, emitted[item.entry.name := item.entry], items + [item];
      i := i + 1;
    }
    assert original[i..] == [];
    NoItems(codec, a.raw, changed, |output|, items);
    return None, output, emitted, items;
  }

  lemma NoItems(codec: Codec, raw: Bytes, changed: map<string, Bytes>, offset: nat, items: seq<Item>)
    ensures PrependItems(items, LocalItems(codec, raw, [], changed, offset)) == Ok(items)
    ensures PrependItems(items, AddedItems(codec, [], offset)) == Ok(items)
  {
    PrependNothing(Ok([]), items);
  }

  method WriteAddedRecords(codec: Codec, added: seq<(string, Bytes)>, output0: Bytes, emitted0: map<string, ZipEntry>,
                           ghost items0: seq<Item>)
    returns (failure: Option<ZipError>, output: Bytes, emitted: map<string, ZipEntry>, ghost items: seq<Item>)
    requires Written(items0, output0, emitted0)
    ensures AddedItems(codec, added, |output0|) == if failure.Some? then Err(failure.value) else Ok(items)
    ensures failure.None? ==> Written(items0 + items, output, emitted)
  {
    hide *;
    output, emitted, items := output0, emitted0, [];
    ghost var whole := AddedItems(codec, added, |output0|);
    PrependNothing(whole, []);
    assert items0 + [] == items0;
    assert added[0..] == added;
    var i := 0;
    while i < |added|
      invariant 0 <= i <= |added|
      invariant whole == PrependItems(items, AddedItems(codec, added[i..], |output|))
      invariant Written(items0 + items, output, emitted)
    {
      assert added[i..][0] == added[i] && added[i..][1..] == added[i + 1..];
      AddedItemsStep(codec, added[i..], |output|, items);
      var written := AddedItem(codec, added[i].0, added[i].1, |output|);
      if written.Err? {
        return Some(written.error), output, emitted, items;
      }
      var item := written.value;
      EmitItem(items0 + items, item, output, emitted);
      assert items0 + items + [item] == items0 + (items + [item]);
      output, emitted, items := output + item.bytes, emitted[item.entry.name := item.entry], items + [item];
      i := i + 1;
    }
    assert added[i..] == [];
    NoItems(codec, [], map[], |output|, items);
    return None, output, emitted, items;
  }

  method WriteDirectory(emitted: map<string, ZipEntry>, names: seq<string>) returns (directory: Bytes)
    requires forall n | n in names :: n in emitted
    requires forall n | n in emitted :: emitted[n].Storable()
    ensures AllStorable(Lookup(emitted, names)) && directory == Directory(Lookup(emitted, names))
  {
    hide CentralRecord;
    directory := [];
    ghost var central := Lookup(emitted, names);
    var i := 0;
    while i < |names|
      invariant 0 <= i <= |names|
      invariant AllStorable(central[..i]) && directory == Directory(central[..i])
    {
      var e := emitted[names[i]];
      assert names[i] in names;
      assert central[..i + 1] == central[..i] + [e];
      DirectoryAppend(central[..i], [e]);
      assert Directory([e]) == CentralRecord(e);
      directory := directory + CentralRecord(e);
      i := i + 1;
    }
    assert central[..i] == central;
  }

  lemma SeqAssociates(a: Bytes, b: Bytes, c: Bytes, d: Bytes)
    ensures a + b + c + d == a + (b + c + d)
  {
  }

  /** The source's three loops write the specified bytes. */
  method RepackArchivePreserveBytes(codec: Codec, a: Archive, changed: map<string, Bytes>, added: seq<(string, Bytes)>)
    returns (r: Result<Bytes, ZipError>)
    requires Coherent(a) && NoDuplicates(AddedNames(added))
    ensures r == Repack(codec, a, changed, added)
  {
    hide ArgumentError, LocalItems, AddedItems, ByName, Sliceable, EocdFixed, LocalEntries, Directory, ItemBytes,
      ItemEntries;
    var refused := ArgumentError(a, changed, added);
    if refused.Some? {
      return Err(refused.value);
    }
    var failure, output, emitted;
    ghost var items, more;
    failure, output, emitted, items := WriteLocalRecords(codec, a, changed);
    if failure.Some? {
      return Err(failure.value);
    }
    failure, output, emitted, more := WriteAddedRecords(codec, added, output, emitted, items);
    if failure.Some? {
      return Err(failure.value);
    }
    var centralOffset := |output|;
    var order := CentralNames(a, added);
    AllItemsNamed(codec, a, changed, added);
    AllEmitted(a, added, ItemEntries(items + more));
    var directory := WriteDirectory(emitted, order);
    if |order| > 0xFFFF || !ClassicSizes(|directory|, centralOffset) {
      return Err(UnsafeZip);
    }
    SeqAssociates(output, directory, EocdFixed(|order|, |directory|, centralOffset, |a.comment|), a.comment);
    output := output + directory + EocdFixed(|order|, |directory|, centralOffset, |a.comment|) + a.comment;
    return Ok(output);
  }
}
