/**
 The entry-budget preflight of the document tools, a second and laxer reader of the same format,
 and the proof that the strict inspector only accepts what the preflight accepts.
 */
module ZipPreflight {
  import opened Basics
  import opened Bytes
  import opened ZipFormat
  import opened ZipInspect

  datatype Refusal = BadBudget | NoEocd | MultiDisk | Zip64 | TooManyEntries | OutsideArchive | MalformedDirectory
    | CountMismatch

  const MAX_SAFE_INTEGER: int := 0x1F_FFFF_FFFF_FFFF

  /** An EOCD record whose comment ends exactly at the end of the bytes. */
  predicate ExactEocdAt(raw: Bytes, i: nat) {
    i + 22 <= |raw| && SignatureAt(raw, EOCD_SIGNATURE, i) && i + 22 + U16At(raw, i + 20) as nat == |raw|
  }

  /** The backward scan finds the last exact EOCD; its lower bound loses none. */
  method FindExactEocd(raw: Bytes) returns (r: Option<nat>)
    ensures r.Some? ==> ExactEocdAt(raw, r.value) && forall k | r.value < k :: !ExactEocdAt(raw, k)
    ensures r.None? ==> forall k :: !ExactEocdAt(raw, k)
  {
    if |raw| < 22 {
      return None;
    }
    var minimumOffset := if |raw| - 22 - 0xFFFF > 0 then |raw| - 22 - 0xFFFF else 0;
    var offset := |raw| - 22;
    while offset >= minimumOffset
      invariant minimumOffset - 1 <= offset <= |raw| - 22
      invariant forall k: nat | offset < k :: !ExactEocdAt(raw, k)
      decreases offset
    {
      if raw[offset..offset + 4] == EOCD_SIGNATURE {
        var commentLength := U16At(raw, offset + 20);
        if offset + 22 + commentLength as nat == |raw| {
          return Some(offset);
        }
      }
      offset := offset - 1;
    }
    return None;
  }

  /** How many well-formed file headers cover raw[cursor..end] exactly. */
  function HeaderCount(raw: Bytes, cursor: nat, end: nat): (n: Option<nat>)
    requires cursor <= end <= |raw|
    decreases end - cursor
  {
    if cursor == end then Some(0)
    else if end - cursor < 46 || raw[cursor..cursor + 4] != CENTRAL_SIGNATURE then None
    else
      var next := cursor + 46 + U16At(raw, cursor + 28) as nat + U16At(raw, cursor + 30) as nat
        + U16At(raw, cursor + 32) as nat;
      if next > end then None
      else
        match HeaderCount(raw, next, end)
        case None => None
        case Some(n) => Some(n + 1)
  }

  function Plus(count: nat, rest: Option<nat>): Option<nat> {
    match rest
    case None => None
    case Some(n) => Some(count + n)
  }

  /** How many well-formed file headers there are from `cursor` on, up to `end` or the first malformed one. */
  function Headers(raw: Bytes, cursor: nat, end: nat): (n: nat)
    requires cursor <= end <= |raw|
    ensures HeaderCount(raw, cursor, end).Some? ==> HeaderCount(raw, cursor, end).value == n
    decreases end - cursor
  {
    if end - cursor < 46 || raw[cursor..cursor + 4] != CENTRAL_SIGNATURE then 0
    else
      var next := cursor + 46 + U16At(raw, cursor + 28) as nat + U16At(raw, cursor + 30) as nat
        + U16At(raw, cursor + 32) as nat;
      if next > end then 0 else 1 + Headers(raw, next, end)
  }

  /** Where the header at `cursor` ends, if it is well-formed. */
  function HeaderEnd(raw: Bytes, cursor: nat, end: nat): (r: Option<nat>)
    requires cursor <= end <= |raw|
    ensures r.Some? ==> cursor < r.value <= end
  {
    if end - cursor < 46 || raw[cursor..cursor + 4] != CENTRAL_SIGNATURE then None
    else
      var next := cursor + 46 + U16At(raw, cursor + 28) as nat + U16At(raw, cursor + 30) as nat
        + U16At(raw, cursor + 32) as nat;
      if next > end then None else Some(next)
  }

  lemma {:induction false} CountTurn(raw: Bytes, cursor: nat, end: nat)
    requires cursor < end <= |raw|
    ensures HeaderCount(raw, cursor, end) == match HeaderEnd(raw, cursor, end)
                                             case None => None
                                             case Some(next) => Plus(1, HeaderCount(raw, next, end))
    ensures Headers(raw, cursor, end) == match HeaderEnd(raw, cursor, end)
                                         case None => 0
                                         case Some(next) => 1 + Headers(raw, next, end)
  {
  }

  lemma CountEnd(raw: Bytes, end: nat)
    requires end <= |raw|
    ensures HeaderCount(raw, end, end) == Some(0) && Headers(raw, end, end) == 0
  {
  }

  /** The counting loop: too many headers if the budget is spent first, malformed if a bad header comes first. */
  method CountCentralDirectoryEntries(raw: Bytes, centralOffset: nat, centralSize: nat, maximumEntries: nat)
    returns (r: Result<nat, Refusal>)
    requires centralOffset + centralSize <= |raw|
    ensures var n := HeaderCount(raw, centralOffset, centralOffset + centralSize);
            r.Ok? <==> n.Some? && n.value <= maximumEntries
    ensures r.Ok? ==> HeaderCount(raw, centralOffset, centralOffset + centralSize) == Some(r.value)
    ensures var n := Headers(raw, centralOffset, centralOffset + centralSize);
            && (r == Err(TooManyEntries) <==> n > maximumEntries)
            && (r == Err(MalformedDirectory) <==>
                n <= maximumEntries && HeaderCount(raw, centralOffset, centralOffset + centralSize) == None)
    ensures r.Err? ==> r.error == TooManyEntries || r.error == MalformedDirectory
  {
    hide HeaderCount, Headers, U16At;
    var end := centralOffset + centralSize;
    var cursor := centralOffset;
    var count: nat := 0;
    while cursor < end
      invariant centralOffset <= cursor <= end && count <= maximumEntries
      invariant HeaderCount(raw, centralOffset, end) == Plus(count, HeaderCount(raw, cursor, end))
      invariant Headers(raw, centralOffset, end) == count + Headers(raw, cursor, end)
    {
      CountTurn(raw, cursor, end);
      if end - cursor < 46 {
        return Err(MalformedDirectory);
      }
      if raw[cursor..cursor + 4] != CENTRAL_SIGNATURE {
        return Err(MalformedDirectory);
      }
      var next := cursor + 46 + U16At(raw, cursor + 28) as nat + U16At(raw, cursor + 30) as nat
        + U16At(raw, cursor + 32) as nat;
      if next > end {
        return Err(MalformedDirectory);
      }
      count := count + 1;
      if count > maximumEntries {
        return Err(TooManyEntries);
      }
      cursor := next;
    }
    CountEnd(raw, end);
    return Ok(count);
  }

  /** What the preflight requires of the bytes, at the last exact EOCD. */
  ghost predicate WithinEntryBudget(raw: Bytes, eocd: nat, count: nat, maximumEntries: int) {
    && ExactEocdAt(raw, eocd) && (forall k | eocd < k :: !ExactEocdAt(raw, k))
    && U16At(raw, eocd + 4) == 0 && U16At(raw, eocd + 6) == 0
    && U16At(raw, eocd + 8) == U16At(raw, eocd + 10) == count
    && count != 0xFFFF && U32At(raw, eocd + 12) != 0xFFFF_FFFF && U32At(raw, eocd + 16) != 0xFFFF_FFFF
    && count <= maximumEntries <= MAX_SAFE_INTEGER
    && U32At(raw, eocd + 16) as nat + U32At(raw, eocd + 12) as nat <= eocd
    && HeaderCount(raw, U32At(raw, eocd + 16), U32At(raw, eocd + 16) as nat + U32At(raw, eocd + 12) as nat)
      == Some(count)
  }

  lemma LastExact(raw: Bytes, eocd: nat, maximumEntries: int)
    requires ExactEocdAt(raw, eocd) && forall k | eocd < k :: !ExactEocdAt(raw, k)
    ensures eocd + 22 <= |raw|
    ensures forall other: nat, count: nat | WithinEntryBudget(raw, other, count, maximumEntries) :: other == eocd
  {
    hide HeaderCount, U16At, U32At;
  }

  /** The preflight succeeds exactly within the budget, and returns the number of entries. */
  method AssertClassicZipEntryBudget(raw: Bytes, maximumEntries: int) returns (r: Result<nat, Refusal>)
    ensures r.Ok? ==> exists eocd: nat :: WithinEntryBudget(raw, eocd, r.value, maximumEntries)
    ensures r.Err? ==> forall eocd: nat, count: nat :: !WithinEntryBudget(raw, eocd, count, maximumEntries)
  {
    hide ExactEocdAt, HeaderCount, Headers, U16At, U32At;
    if maximumEntries < 0 || maximumEntries > MAX_SAFE_INTEGER {
      return Err(BadBudget);
    }
    var found := FindExactEocd(raw);
    if found == None {
      return Err(NoEocd);
    }
    var eocd := found.value;
    LastExact(raw, eocd, maximumEntries);
    var totalEntries := U16At(raw, eocd + 10);
    var centralSize, centralOffset := U32At(raw, eocd + 12), U32At(raw, eocd + 16);
    if U16At(raw, eocd + 4) != 0 || U16At(raw, eocd + 6) != 0 || U16At(raw, eocd + 8) != totalEntries {
      return Err(MultiDisk);
    }
    if totalEntries == 0xFFFF || centralSize == 0xFFFF_FFFF || centralOffset == 0xFFFF_FFFF {
      return Err(Zip64);
    }
    if totalEntries > maximumEntries {
      return Err(TooManyEntries);
    }
    if centralOffset as nat + centralSize as nat > eocd {
      return Err(OutsideArchive);
    }
    var observed := CountCentralDirectoryEntries(raw, centralOffset, centralSize, maximumEntries);
    if observed.Err? {
      return Err(observed.error);
    }
    if observed.value != totalEntries {
      return Err(CountMismatch);
    }
    assert WithinEntryBudget(raw, eocd, observed.value, maximumEntries);
    return Ok(observed.value);
  }

  /** A directory of `n` admissible records has `n` well-formed headers. */
  lemma {:induction false} DirectoryHeaders(codec: Codec, raw: Bytes, cursor: nat, end: nat, n: nat)
    requires cursor <= end <= |raw| && ReadDirectory(codec, raw, cursor, end, n).Some?
    ensures HeaderCount(raw, cursor, end) == Some(n) && |ReadDirectory(codec, raw, cursor, end, n).value| == n
    decreases n
  {
    hide ReadEntry, U16At;
    if n > 0 {
      var read := ReadEntry(codec, raw, cursor, end).value;
      HeaderRead(codec, raw, cursor, end);
      DirectoryHeaders(codec, raw, read.1, end, n - 1);
    }
  }

  lemma HeaderRead(codec: Codec, raw: Bytes, cursor: nat, end: nat)
    requires cursor <= end <= |raw| && ReadEntry(codec, raw, cursor, end).Some?
    ensures end - cursor >= 46 && raw[cursor..cursor + 4] == CENTRAL_SIGNATURE
    ensures ReadEntry(codec, raw, cursor, end).value.1
            == cursor + 46 + U16At(raw, cursor + 28) as nat + U16At(raw, cursor + 30) as nat
              + U16At(raw, cursor + 32) as nat
  {
    hide Admissible, DecodeName;
    var dir := raw[cursor..end];
    SliceOfSlice(raw, cursor, end, 0, 4);
    assert dir[..4] == raw[cursor..cursor + 4];
  }

  /**
   Every archive the inspector accepts passes the preflight, with the same EOCD and the same number
   of entries, under any budget that covers its entries.
   */
  lemma InspectorRefinesPreflight(codec: Codec, a: Archive, maximumEntries: int)
    requires Inspect(codec, a.raw) == Ok(a) && |a.entries| <= maximumEntries <= MAX_SAFE_INTEGER
    ensures FindEocd(a.raw).Some?
    ensures WithinEntryBudget(a.raw, FindEocd(a.raw).value, |a.entries|, maximumEntries)
    ensures |a.entries| <= MAX_ZIP_ENTRIES
  {
    hide ReadDirectory, HeaderCount, U16At, U32At, SortByOffset, PlacedOk;
    var raw := a.raw;
    var eocd := FindEocd(raw).value;
    var record := raw[eocd..eocd + 22];
    RecordFields(raw, eocd);
    DirectoryHeaders(codec, raw, U32At(record, 16), eocd, U16At(record, 10));
  }

  lemma RecordFields(raw: Bytes, eocd: nat)
    requires eocd + 22 <= |raw|
    ensures var record := raw[eocd..eocd + 22];
            && U16At(record, 4) == U16At(raw, eocd + 4) && U16At(record, 6) == U16At(raw, eocd + 6)
            && U16At(record, 8) == U16At(raw, eocd + 8) && U16At(record, 10) == U16At(raw, eocd + 10)
            && U32At(record, 12) == U32At(raw, eocd + 12) && U32At(record, 16) == U32At(raw, eocd + 16)
            && U16At(record, 20) == U16At(raw, eocd + 20)
  {
  }
}
