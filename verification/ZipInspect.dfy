/**
 The strict archive inspector of the HWPX safe editor: a specification function, the loops of
 the source proved equal to it, and a declarative description of the byte strings it accepts.
 */
module ZipInspect {
  import opened Basics
  import opened Bytes
  import opened ZipFormat

  /** The exception classes; their messages are not modelled. */
  datatype ZipError = NotHwpx | UnsafeZip | MissingEntry | EntryExists | Unencodable | FieldOverflow

  datatype Archive = Archive(raw: Bytes, entries: seq<ZipEntry>, localOrder: seq<string>, comment: Bytes)

  // Sequence helpers

  predicate NoDuplicates<T(==)>(s: seq<T>) {
    forall i, j | 0 <= i < j < |s| :: s[i] != s[j]
  }

  function Names(es: seq<ZipEntry>): (names: seq<string>)
    ensures |names| == |es|
  {
    seq(|es|, i requires 0 <= i < |es| => es[i].name)
  }

  function Offsets(es: seq<ZipEntry>): (offsets: seq<int>)
    ensures |offsets| == |es|
  {
    seq(|es|, i requires 0 <= i < |es| => es[i].localOffset as int)
  }

  function TotalSize(es: seq<ZipEntry>): nat {
    if es == [] then 0 else es[0].uncompressedSize as nat + TotalSize(es[1..])
  }

  function MapEntries(f: ZipEntry -> ZipEntry, es: seq<ZipEntry>): (r: seq<ZipEntry>)
    ensures |r| == |es|
  {
    seq(|es|, i requires 0 <= i < |es| => f(es[i]))
  }

  // The end-of-central-directory record

  predicate SignatureAt(raw: Bytes, signature: Bytes, i: nat) {
    i + |signature| <= |raw| && raw[i..i + |signature|] == signature
  }

  /** Python's `raw.rfind(signature, start)`: the last occurrence that begins at or after `start`. */
  function RFind(raw: Bytes, signature: Bytes, start: nat, end: nat): (r: Option<nat>)
    ensures r.Some? ==> start <= r.value < end && SignatureAt(raw, signature, r.value)
    ensures forall k | start <= k < end && SignatureAt(raw, signature, k) :: r.Some? && k <= r.value
    decreases end - start
  {
    if start >= end then None
    else if SignatureAt(raw, signature, end - 1) then Some(end - 1)
    else RFind(raw, signature, start, end - 1)
  }

  function EocdSearchStart(length: nat): nat {
    if length < 22 + 0xFFFF then 0 else length - 22 - 0xFFFF
  }

  function FindEocd(raw: Bytes): (r: Option<nat>)
    ensures r.Some? ==> r.value + 22 <= |raw| && SignatureAt(raw, EOCD_SIGNATURE, r.value)
    ensures r.Some? ==> forall k | r.value < k :: !SignatureAt(raw, EOCD_SIGNATURE, k)
  {
    match RFind(raw, EOCD_SIGNATURE, EocdSearchStart(|raw|), |raw|)
    case None => None
    case Some(cursor) => if cursor + 22 > |raw| then None else Some(cursor)
  }

  /** The checks on the EOCD fields; `eocd` is the record's position in an archive of `length` bytes. */
  predicate EocdOk(record: Bytes, eocd: nat, length: nat)
    requires |record| >= 22
  {
    var count, size, offset := U16At(record, 10), U32At(record, 12), U32At(record, 16);
    && U16At(record, 4) == 0 && U16At(record, 6) == 0 && U16At(record, 8) == count
    && count != 0xFFFF && size != 0xFFFF_FFFF && offset != 0xFFFF_FFFF
    && count <= MAX_ZIP_ENTRIES
    && eocd + 22 + U16At(record, 20) as nat == length
    && offset as nat + size as nat == eocd
    && !(offset == 0 && count > 0)
  }

  // The central directory

  /** One admissible record, with the position after it. */
  function ReadEntry(codec: Codec, raw: Bytes, cursor: nat, end: nat): (r: Option<(ZipEntry, nat)>)
    requires cursor <= end <= |raw|
    ensures r.Some? ==> cursor < r.value.1 <= end
  {
    var dir := raw[cursor..end];
    var read := ReadCentral(codec, dir);
    if read.Some? && Admissible(read.value) then Some((read.value, cursor + CentralLength(dir))) else None
  }

  /** Exactly `n` admissible records from `cursor` on, and nothing after them. */
  function ReadDirectory(codec: Codec, raw: Bytes, cursor: nat, end: nat, n: nat): (r: Option<seq<ZipEntry>>)
    requires cursor <= end <= |raw|
    decreases n
  {
    if n == 0 then (if cursor == end then Some([]) else None)
    else
      match ReadEntry(codec, raw, cursor, end)
      case None => None
      case Some(read) => Prepend([read.0], ReadDirectory(codec, raw, read.1, end, n - 1))
  }

  function Prepend(es: seq<ZipEntry>, r: Option<seq<ZipEntry>>): Option<seq<ZipEntry>> {
    match r
    case None => None
    case Some(rest) => Some(es + rest)
  }

  /** The directory, unless its entries are too large together or share a name. */
  function WithinBudget(whole: Option<seq<ZipEntry>>): Option<seq<ZipEntry>> {
    if whole.Some? && TotalSize(whole.value) <= MAX_TOTAL_UNCOMPRESSED_BYTES && NoDuplicates(Names(whole.value))
    then whole else None
  }

  // Local order and spans

  function Insert(e: ZipEntry, s: seq<ZipEntry>): (r: seq<ZipEntry>)
    ensures |r| == |s| + 1
  {
    if s == [] || e.localOffset <= s[0].localOffset then [e] + s
    else [s[0]] + Insert(e, s[1..])
  }

  function SortByOffset(es: seq<ZipEntry>): (r: seq<ZipEntry>)
    ensures |r| == |es|
  {
    if es == [] then [] else Insert(es[0], SortByOffset(es[1..]))
  }

  /** The first record starts the file and no two share an offset. */
  predicate OffsetsOk(sorted: seq<ZipEntry>) {
    && (sorted != [] ==> sorted[0].localOffset == 0)
    && NoDuplicates(Offsets(sorted))
  }

  /** Where the local record of `name` must end: at the next record, or at the central directory. */
  function SpanEndOf(sorted: seq<ZipEntry>, name: string, centralOffset: nat): nat {
    if sorted == [] then centralOffset
    else if sorted[0].name == name then
      if |sorted| > 1 then sorted[1].localOffset else centralOffset
    else SpanEndOf(sorted[1..], name, centralOffset)
  }

  /** The entry completed with what its local record says. */
  function Placed(raw: Bytes, e: ZipEntry, spanEnd: nat): (r: ZipEntry)
    ensures r.localOffset == e.localOffset && r.name == e.name && r.CentralView() == e.CentralView()
  {
    var offset: nat := e.localOffset;
    if offset + 30 > |raw| then e
    else
      var nameEnd := offset + 30 + U16At(raw, offset + 26) as nat;
      var headerEnd := nameEnd + U16At(raw, offset + 28) as nat;
      if headerEnd > |raw| then e
      else e.(localExtra := raw[nameEnd..headerEnd], dataStart := headerEnd,
              dataEnd := headerEnd + e.compressedSize as nat, spanEnd := spanEnd)
  }

  /** The local record fits its span and agrees with the central directory. */
  predicate PlacedOk(raw: Bytes, e: ZipEntry, spanEnd: nat, centralOffset: nat)
    requires centralOffset <= |raw|
  {
    var offset: nat := e.localOffset;
    && offset + 30 <= centralOffset
    && raw[offset..offset + 4] == LOCAL_SIGNATURE
    && var nameEnd := offset + 30 + U16At(raw, offset + 26) as nat;
       var headerEnd := nameEnd + U16At(raw, offset + 28) as nat;
    && headerEnd + U32At(raw, offset + 18) as nat <= spanEnd <= centralOffset
    && ExtraOk(raw[nameEnd..headerEnd])
    && raw[offset + 30..nameEnd] == e.nameBytes
    && LocalFieldsMatch(e, raw[offset..offset + 30])
  }

  // The inspector

  function Inspect(codec: Codec, raw: Bytes): Result<Archive, ZipError> {
    if !SignatureAt(raw, LOCAL_SIGNATURE, 0) then Err(NotHwpx)
    else if |raw| > MAX_ARCHIVE_BYTES || |raw| < 22 then Err(UnsafeZip)
    else
      match FindEocd(raw)
      case None => Err(UnsafeZip)
      case Some(eocd) =>
        var record := raw[eocd..eocd + 22];
        if !EocdOk(record, eocd, |raw|) then Err(UnsafeZip)
        else
          var offset: nat := U32At(record, 16);
          match WithinBudget(ReadDirectory(codec, raw, offset, eocd, U16At(record, 10)))
          case None => Err(UnsafeZip)
          case Some(provisional) => InspectLocals(raw, provisional, offset, eocd)
  }

  function Completion(raw: Bytes, sorted: seq<ZipEntry>, centralOffset: nat): ZipEntry -> ZipEntry {
    (e: ZipEntry) => Placed(raw, e, SpanEndOf(sorted, e.name, centralOffset))
  }

  function InspectLocals(raw: Bytes, provisional: seq<ZipEntry>, centralOffset: nat, eocd: nat): Result<Archive,
      ZipError>
    requires centralOffset <= eocd && eocd + 22 <= |raw|
  {
    var sorted := SortByOffset(provisional);
    if !OffsetsOk(sorted)
       || !(forall e | e in provisional :: PlacedOk(raw, e, SpanEndOf(sorted, e.name, centralOffset), centralOffset))
    then Err(UnsafeZip)
    else Ok(Archive(raw, MapEntries(Completion(raw, sorted, centralOffset), provisional), Names(sorted),
      raw[eocd + 22..]))
  }

  lemma {:induction false} TotalSizeAppend(a: seq<ZipEntry>, b: seq<ZipEntry>)
    ensures TotalSize(a + b) == TotalSize(a) + TotalSize(b)
  {
    if a == [] {
      assert a + b == b;
    } else {
      assert (a + b)[1..] == a[1..] + b;
      TotalSizeAppend(a[1..], b);
    }
  }

  function NameSet(es: seq<ZipEntry>): set<string> {
    set k | 0 <= k < |es| :: es[k].name
  }

  lemma AppendEntry(es: seq<ZipEntry>, e: ZipEntry)
    ensures TotalSize(es + [e]) == TotalSize(es) + e.uncompressedSize as nat
    ensures NameSet(es + [e]) == NameSet(es) + {e.name}
    ensures NoDuplicates(Names(es + [e])) <==> NoDuplicates(Names(es)) && e.name !in NameSet(es)
  {
    TotalSizeAppend(es, [e]);
    var more := es + [e];
    assert forall k | 0 <= k < |es| :: more[k] == es[k] && Names(more)[k] == Names(es)[k];
    assert Names(more)[|es|] == e.name;
    if e.name in NameSet(es) {
      var k :| 0 <= k < |es| && es[k].name == e.name;
      assert Names(more)[k] == Names(more)[|es|];
    }
    assert NameSet(more) == NameSet(es) + {e.name} by {
      assert more[|es|].name in NameSet(more);
      forall n | n in NameSet(es) ensures n in NameSet(more) {
        var k :| 0 <= k < |es| && es[k].name == n;
        assert more[k].name == n;
      }
    }
  }

  lemma NamesPrefix(es: seq<ZipEntry>, rest: seq<ZipEntry>)
    ensures NoDuplicates(Names(es + rest)) ==> NoDuplicates(Names(es))
  {
    assert forall k | 0 <= k < |es| :: Names(es + rest)[k] == Names(es)[k];
  }

  lemma PrependTwice(a: seq<ZipEntry>, b: seq<ZipEntry>, r: Option<seq<ZipEntry>>)
    ensures Prepend(a, Prepend(b, r)) == Prepend(a + b, r)
    ensures Prepend([], r) == r
  {
    if r.Some? {
      assert a + (b + r.value) == a + b + r.value;
      assert [] + r.value == r.value;
    }
  }

  /** A prefix that already breaks a budget decides the whole directory. */
  lemma PrefixDecides(es: seq<ZipEntry>, rest: Option<seq<ZipEntry>>)
    requires TotalSize(es) > MAX_TOTAL_UNCOMPRESSED_BYTES || !NoDuplicates(Names(es))
    ensures WithinBudget(Prepend(es, rest)) == None
  {
    if rest.Some? {
      TotalSizeAppend(es, rest.value);
      NamesPrefix(es, rest.value);
    }
  }

  /** Reading one more record moves it from the unread part to the provisional entries. */
  lemma UnreadStep(codec: Codec, raw: Bytes, cursor: nat, eocd: nat, n: nat, es: seq<ZipEntry>)
    requires cursor <= eocd <= |raw| && n > 0
    ensures match ReadEntry(codec, raw, cursor, eocd)
            case None => Prepend(es, ReadDirectory(codec, raw, cursor, eocd, n)) == None
            case Some(read) =>
              Prepend(es, ReadDirectory(codec, raw, cursor, eocd, n))
              == Prepend(es + [read.0], ReadDirectory(codec, raw, read.1, eocd, n - 1))
  {
    var read := ReadEntry(codec, raw, cursor, eocd);
    if read.Some? {
      PrependTwice(es, [read.value.0], ReadDirectory(codec, raw, read.value.1, eocd, n - 1));
    }
  }

  lemma UnreadDone(codec: Codec, raw: Bytes, cursor: nat, eocd: nat, es: seq<ZipEntry>)
    requires cursor <= eocd <= |raw|
    ensures Prepend(es, ReadDirectory(codec, raw, cursor, eocd, 0)) == if cursor == eocd then Some(es) else None
  {
    assert es + [] == es;
  }

  /** The state of the directory loop: what has been read, what is still unread, and the running budgets. */
  ghost predicate Reading(whole: Option<seq<ZipEntry>>, es: seq<ZipEntry>, unread: Option<seq<ZipEntry>>,
                          total: nat, names: set<string>)
  {
    && whole == Prepend(es, unread)
    && total == TotalSize(es) <= MAX_TOTAL_UNCOMPRESSED_BYTES
    && names == NameSet(es) && NoDuplicates(Names(es))
  }

  lemma ReadingStep(codec: Codec, raw: Bytes, cursor: nat, eocd: nat, n: nat,
                    whole: Option<seq<ZipEntry>>, es: seq<ZipEntry>, total: nat, names: set<string>)
    requires cursor <= eocd <= |raw| && n > 0
    requires Reading(whole, es, ReadDirectory(codec, raw, cursor, eocd, n), total, names)
    ensures var read := ReadEntry(codec, raw, cursor, eocd);
            if read.None? || total + read.value.0.uncompressedSize as nat > MAX_TOTAL_UNCOMPRESSED_BYTES
               || read.value.0.name in names
            then WithinBudget(whole) == None
            else Reading(whole, es + [read.value.0], ReadDirectory(codec, raw, read.value.1, eocd, n - 1),
                         total + read.value.0.uncompressedSize as nat, names + {read.value.0.name})
  {
    UnreadStep(codec, raw, cursor, eocd, n, es);
    var read := ReadEntry(codec, raw, cursor, eocd);
    if read.Some? {
      var more := es + [read.value.0];
      AppendEntry(es, read.value.0);
      if TotalSize(more) > MAX_TOTAL_UNCOMPRESSED_BYTES || !NoDuplicates(Names(more)) {
        PrefixDecides(more, ReadDirectory(codec, raw, read.value.1, eocd, n - 1));
      }
    }
  }

  /** The central-directory loop, with its running total and set of names seen. */
  method ReadProvisional(codec: Codec, raw: Bytes, centralOffset: nat, eocd: nat, entryCount: nat)
    returns (r: Option<seq<ZipEntry>>)
    requires centralOffset <= eocd <= |raw|
    ensures r == WithinBudget(ReadDirectory(codec, raw, centralOffset, eocd, entryCount))
  {
    hide ReadEntry;
    ghost var whole := ReadDirectory(codec, raw, centralOffset, eocd, entryCount);
    var provisional: seq<ZipEntry> := [];
    var totalUncompressed: nat := 0;
    var cursor := centralOffset;
    var names: set<string> := {};
    var i := 0;
    PrependTwice([], [], whole);
    while i < entryCount
      invariant 0 <= i <= entryCount && centralOffset <= cursor <= eocd
      invariant Reading(whole, provisional, ReadDirectory(codec, raw, cursor, eocd, entryCount - i), totalUncompressed,
                names)
    {
      ReadingStep(codec, raw, cursor, eocd, entryCount - i, whole, provisional, totalUncompressed, names);
      var read := ReadEntry(codec, raw, cursor, eocd);
      if read == None {
        return None;
      }
      totalUncompressed := totalUncompressed + read.value.0.uncompressedSize as nat;
      if totalUncompressed > MAX_TOTAL_UNCOMPRESSED_BYTES || read.value.0.name in names {
        return None;
      }
      names := names + {read.value.0.name};
      provisional := provisional + [read.value.0];
      cursor := read.value.1;
      i := i + 1;
    }
    UnreadDone(codec, raw, cursor, eocd, provisional);
    if cursor != eocd {
      return None;
    }
    return Some(provisional);
  }

  /** The loop that checks each local header and completes its entry. */
  method FinalizeEntries(raw: Bytes, provisional: seq<ZipEntry>, sorted: seq<ZipEntry>, centralOffset: nat)
    returns (r: Option<seq<ZipEntry>>)
    requires centralOffset <= |raw|
    ensures r.Some? <==> forall e | e in provisional ::
                           PlacedOk(raw, e, SpanEndOf(sorted, e.name, centralOffset), centralOffset)
    ensures r.Some? ==> r.value == MapEntries(Completion(raw, sorted, centralOffset), provisional)
  {
    var finalized: seq<ZipEntry> := [];
    var i := 0;
    while i < |provisional|
      invariant 0 <= i <= |provisional| == |provisional|
      invariant finalized == MapEntries(Completion(raw, sorted, centralOffset), provisional[..i])
      invariant forall e | e in provisional[..i] ::
                  PlacedOk(raw, e, SpanEndOf(sorted, e.name, centralOffset), centralOffset)
    {
      var e := provisional[i];
      var spanEnd := SpanEndOf(sorted, e.name, centralOffset);
      if !PlacedOk(raw, e, spanEnd, centralOffset) {
        return None;
      }
      assert provisional[..i + 1] == provisional[..i] + [e];
      finalized := finalized + [Placed(raw, e, spanEnd)];
      i := i + 1;
    }
    assert provisional[..i] == provisional;
    return Some(finalized);
  }

  /** Local order, offsets, spans and headers, after the directory has been read. */
  method InspectLocalRecords(raw: Bytes, provisional: seq<ZipEntry>, centralOffset: nat, eocd: nat)
    returns (r: Result<Archive, ZipError>)
    requires centralOffset <= eocd && eocd + 22 <= |raw|
    ensures r == InspectLocals(raw, provisional, centralOffset, eocd)
  {
    var sorted := SortByOffset(provisional);
    if !OffsetsOk(sorted) {
      return Err(UnsafeZip);
    }
    var finalized := FinalizeEntries(raw, provisional, sorted, centralOffset);
    if finalized == None {
      return Err(UnsafeZip);
    }
    return Ok(Archive(raw, finalized.value, Names(sorted), raw[eocd + 22..]));
  }

  /** The source's loops compute the specification. */
  method InspectArchiveBytes(codec: Codec, raw: Bytes) returns (r: Result<Archive, ZipError>)
    ensures r == Inspect(codec, raw)
  {
    hide ReadDirectory, InspectLocals, FindEocd, SignatureAt;
    if !SignatureAt(raw, LOCAL_SIGNATURE, 0) {
      return Err(NotHwpx);
    }
    if |raw| > MAX_ARCHIVE_BYTES || |raw| < 22 {
      return Err(UnsafeZip);
    }
    var found := FindEocd(raw);
    if found == None {
      return Err(UnsafeZip);
    }
    var eocd := found.value;
    var record := raw[eocd..eocd + 22];
    if !EocdOk(record, eocd, |raw|) {
      return Err(UnsafeZip);
    }
    var entryCount: nat, centralOffset: nat := U16At(record, 10), U32At(record, 16);
    var listed := ReadProvisional(codec, raw, centralOffset, eocd, entryCount);
    if listed == None {
      return Err(UnsafeZip);
    }
    r := InspectLocalRecords(raw, listed.value, centralOffset, eocd);
  }
}
