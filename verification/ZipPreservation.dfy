/**
 The raw-preservation audit of two archives, and what it says about a repack: nothing when the
 allow lists name the edits, and the name of every edit that they leave out.
 */
module ZipPreservation {
  import opened Basics
  import opened Bytes
  import opened ZipFormat
  import opened ZipInspect
  import opened ZipLayout
  import opened ZipRepack
  import opened ZipRoundTrip
  import opened ZipTheorems

  datatype Issue = Removed(names: set<string>) | UnexpectedAdded(names: set<string>)
                 | MissingAdded(names: set<string>) | UnknownChanged(names: set<string>) | RecordDiffers(name: string)

  function EntryNames(a: Archive): set<string> {
    ByName(a.entries).Keys
  }

  /** The raw bytes of the local record of `name`. */
  function RecordBytes(a: Archive, name: string): Bytes
    requires Coherent(a) && name in EntryNames(a)
  {
    var e := ByName(a.entries)[name];
    a.raw[e.localOffset..e.spanEnd]
  }

  function NameIssues(original: set<string>, edited: set<string>, changed: set<string>,
      added: set<string>): (r: seq<Issue>)
    ensures NoDuplicates(r) && forall i | i in r :: !i.RecordDiffers?
    ensures r == [] <==> && original - edited == {} && (edited - original) - added == {}
                         && added - (edited - original) == {} && changed - (original * edited) == {}
  {
    (if original - edited != {} then [Removed(original - edited)] else [])
    + (if (edited - original) - added != {} then [UnexpectedAdded((edited - original) - added)] else [])
    + (if added - (edited - original) != {} then [MissingAdded(added - (edited - original))] else [])
    + (if changed - (original * edited) != {} then [UnknownChanged(changed - (original * edited))] else [])
  }

  lemma IssueSets(original: set<string>, edited: set<string>, changed: set<string>, added: set<string>)
    ensures var r := NameIssues(original, edited, changed, added);
            && (forall s :: Removed(s) in r <==> s == original - edited && s != {})
            && (forall s :: UnexpectedAdded(s) in r <==> s == (edited - original) - added && s != {})
            && (forall s :: MissingAdded(s) in r <==> s == added - (edited - original) && s != {})
            && (forall s :: UnknownChanged(s) in r <==> s == changed - (original * edited) && s != {})
  {
  }

  /** Name by name: which names each kind of issue carries. */
  lemma NamesReported(original: set<string>, edited: set<string>, changed: set<string>, added: set<string>, n: string)
    ensures var r := NameIssues(original, edited, changed, added);
            && ((exists s :: Removed(s) in r && n in s) <==> n in original && n !in edited)
            && ((exists s :: UnexpectedAdded(s) in r && n in s) <==> n in edited && n !in original && n !in added)
            && ((exists s :: MissingAdded(s) in r && n in s) <==> n in added && (n in original || n !in edited))
            && ((exists s :: UnknownChanged(s) in r && n in s) <==> n in changed && (n !in original || n !in edited))
  {
    hide NameIssues;
    IssueSets(original, edited, changed, added);
    var r := NameIssues(original, edited, changed, added);
    var removed, unexpected := original - edited, (edited - original) - added;
    var missing, unknown := added - (edited - original), changed - (original * edited);
    assert n in removed ==> Removed(removed) in r;
    assert n in unexpected ==> UnexpectedAdded(unexpected) in r;
    assert n in missing ==> MissingAdded(missing) in r;
    assert n in unknown ==> UnknownChanged(unknown) in r;
  }

  /** The common, unlisted entries whose local records differ. */
  ghost predicate Differs(original: Archive, edited: Archive, changed: set<string>, name: string)
    requires Coherent(original) && Coherent(edited)
  {
    && name in EntryNames(original) && name in EntryNames(edited) && name !in changed
    && RecordBytes(original, name) != RecordBytes(edited, name)
  }

  /** The audit; the source visits the names in sorted order, the model in any order. */
  method RawPreservationIssues(original: Archive, edited: Archive, allowChanged: set<string>, allowAdded: set<string>)
    returns (issues: seq<Issue>)
    requires Coherent(original) && Coherent(edited)
    ensures NoDuplicates(issues)
    ensures forall i | i in issues && !i.RecordDiffers? ::
              i in NameIssues(EntryNames(original), EntryNames(edited), allowChanged, allowAdded)
    ensures forall i | i in NameIssues(EntryNames(original), EntryNames(edited), allowChanged, allowAdded) ::
            i in issues
    ensures forall n :: RecordDiffers(n) in issues <==> Differs(original, edited, allowChanged, n)
  {
    hide Coherent, ByName, NameIssues;
    issues := NameIssues(EntryNames(original), EntryNames(edited), allowChanged, allowAdded);
    ghost var header := issues;
    var names := (EntryNames(original) * EntryNames(edited)) - allowChanged;
    while names != {}
      invariant names <= (EntryNames(original) * EntryNames(edited)) - allowChanged
      invariant NoDuplicates(issues)
      invariant forall i | i in header :: i in issues
      invariant forall i | i in issues && !i.RecordDiffers? :: i in header
      invariant forall n :: RecordDiffers(n) in issues <==> Differs(original, edited, allowChanged, n) && n !in names
      decreases |names|
    {
      var name :| name in names;
      names := names - {name};
      if RecordBytes(edited, name) != RecordBytes(original, name) {
        issues := issues + [RecordDiffers(name)];
      }
    }
  }

  /** No issue at all, as the caller reads it. */
  ghost predicate Preserved(original: Archive, edited: Archive, changed: set<string>, added: set<string>)
    requires Coherent(original) && Coherent(edited)
  {
    && NameIssues(EntryNames(original), EntryNames(edited), changed, added) == []
    && forall n :: !Differs(original, edited, changed, n)
  }

  lemma EditedNames(a: Archive, added: seq<(string, Bytes)>, b: Archive)
    requires Names(b.entries) == Names(a.entries) + AddedNames(added)
    ensures EntryNames(b) == EntryNames(a) + set n | n in AddedNames(added)
  {
    hide ByName;
    forall n | n in EntryNames(b) ensures n in EntryNames(a) || n in AddedNames(added) {
      var e := ByName(b.entries)[n];
      var k :| 0 <= k < |b.entries| && b.entries[k] == e;
      assert Names(b.entries)[k] == n;
      if k < |a.entries| {
        assert Names(a.entries)[k] == n && a.entries[k] in a.entries;
      } else {
        assert AddedNames(added)[k - |a.entries|] == n;
      }
    }
    forall n | n in EntryNames(a) ensures n in EntryNames(b) {
      var k :| 0 <= k < |a.entries| && a.entries[k] == ByName(a.entries)[n];
      assert Names(a.entries)[k] == Names(b.entries)[k] && b.entries[k] in b.entries;
    }
    forall n | n in AddedNames(added) ensures n in EntryNames(b) {
      var k :| 0 <= k < |added| && AddedNames(added)[k] == n;
      assert Names(b.entries)[|a.entries| + k] == n && b.entries[|a.entries| + k] in b.entries;
    }
  }

  lemma ContentNames(codec: Codec, a: Archive, changed: map<string, Bytes>, added: seq<(string, Bytes)>, b: Archive)
    requires Contents(codec, a, changed, added, b)
    ensures Names(b.entries) == Names(a.entries) + AddedNames(added)
  {
    hide Holds, Sliceable, Kept;
    forall i | 0 <= i < |b.entries| ensures Names(b.entries)[i] == (Names(a.entries) + AddedNames(added))[i] {
      if i < |a.entries| {
        KeptName(codec, a.raw, a.entries[i], changed, b.raw, b.entries[i]);
      } else {
        assert AddedAs(codec, b.entries[|a.entries| + (i - |a.entries|)], added[i - |a.entries|].0);
      }
    }
  }

  lemma KeptName(codec: Codec, raw: Bytes, e: ZipEntry, changed: map<string, Bytes>, out: Bytes, f: ZipEntry)
    requires Sliceable(raw, e) && Kept(codec, raw, e, changed, out, f)
    ensures e.name == f.name
  {
    hide Holds;
  }

  /** The entry of the edited archive that bears the name of an original entry keeps it. */
  lemma {:induction false} NamedKept(codec: Codec, a: Archive, changed: map<string, Bytes>, added: seq<(string, Bytes)>,
                                     b: Archive, name: string)
    requires Contents(codec, a, changed, added, b) && Coherent(a) && name in EntryNames(a)
             && NoDuplicates(Names(b.entries))
    ensures name in EntryNames(b)
    ensures Kept(codec, a.raw, ByName(a.entries)[name], changed, b.raw, ByName(b.entries)[name])
  {
    hide ByName, Holds, Kept, Sliceable, NoDuplicates;
    var e := ByName(a.entries)[name];
    var k :| 0 <= k < |a.entries| && a.entries[k] == e;
    KeptName(codec, a.raw, e, changed, b.raw, b.entries[k]);
    assert b.entries[k] in b.entries;
    ByNameExact(b.entries, b.entries[k]);
  }

  lemma {:induction false} SpansKept(codec: Codec, a: Archive, changed: map<string, Bytes>, added: seq<(string, Bytes)>,
                                     b: Archive, name: string)
    requires Contents(codec, a, changed, added, b) && Coherent(a) && Coherent(b) && NoDuplicates(Names(b.entries))
    requires name in EntryNames(a) && name !in changed
    ensures name in EntryNames(b) && RecordBytes(a, name) == RecordBytes(b, name)
  {
    NamedKept(codec, a, changed, added, b, name);
    var e := ByName(a.entries)[name];
    assert e.name == name;
    hide ByName, Contents, NoDuplicates;
  }

  /** A repack that the inspector reads back passes the audit with the edits on the allow lists. */
  lemma {:induction false} RepackPreserved(codec: Codec, a: Archive, changed: map<string, Bytes>,
      added: seq<(string, Bytes)>, b: Archive)
    requires codec.Lawful() && Inspect(codec, a.raw) == Ok(a) && NoDuplicates(AddedNames(added)) && Coherent(a)
    requires Repack(codec, a, changed, added).Ok? && b == Edited(codec, a, changed, added)
             && Inspect(codec, b.raw) == Ok(b)
    ensures Coherent(b)
    ensures Preserved(a, b, changed.Keys, set n | n in AddedNames(added))
  {
    hide *;
    var more := set n | n in AddedNames(added);
    ArgumentsFit(codec, a, changed, added);
    InspectedCoherent(codec, b);
    InspectedDistinct(codec, b);
    RepackContents(codec, a, changed, added);
    ContentNames(codec, a, changed, added, b);
    EditedNames(a, added, b);
    forall n | n in EntryNames(a) && n !in changed ensures !Differs(a, b, changed.Keys, n) {
      SpansKept(codec, a, changed, added, b, n);
      SameRecord(a, b, changed.Keys, n);
    }
    NothingReported(a, b, changed.Keys, more);
  }

  lemma ArgumentsFit(codec: Codec, a: Archive, changed: map<string, Bytes>, added: seq<(string, Bytes)>)
    requires Coherent(a) && NoDuplicates(AddedNames(added)) && Repack(codec, a, changed, added).Ok?
    ensures changed.Keys <= EntryNames(a) && EntryNames(a) !! set n | n in AddedNames(added)
  {
    hide AllItems, CentralEntries, Assemble, Coherent, ByName, NameOk;
    assert ArgumentError(a, changed, added) == None;
  }

  lemma InspectedDistinct(codec: Codec, a: Archive)
    requires IsArchive(codec, a)
    ensures NoDuplicates(Names(a.entries))
  {
  }

  lemma SameRecord(a: Archive, b: Archive, changed: set<string>, n: string)
    requires Coherent(a) && Coherent(b) && n in EntryNames(a) && n in EntryNames(b)
             && RecordBytes(a, n) == RecordBytes(b, n)
    ensures !Differs(a, b, changed, n)
  {
    hide RecordBytes;
  }

  lemma NothingReported(a: Archive, b: Archive, changed: set<string>, added: set<string>)
    requires Coherent(a) && Coherent(b)
    requires EntryNames(b) == EntryNames(a) + added && EntryNames(a) !! added && changed <= EntryNames(a)
    requires forall n | n in EntryNames(a) && n !in changed :: !Differs(a, b, changed, n)
    ensures Preserved(a, b, changed, added)
  {
    hide RecordBytes, Coherent, EntryNames;
  }

  /** Equal local records of entries with the same name and extra bytes hold the same data. */
  lemma {:induction false} SameRecordSamePayload(codec: Codec, raw: Bytes, to: nat, e: ZipEntry, out: Bytes, end: nat,
      f: ZipEntry)
    requires to <= |raw| && RecordFits(raw, e, to) && end <= |out| && RecordFits(out, f, end)
    requires e.nameBytes == f.nameBytes && e.localExtra == f.localExtra && e.compression == f.compression
    requires raw[e.localOffset..e.spanEnd] == out[f.localOffset..f.spanEnd]
    ensures Payload(codec, raw, e) == Payload(codec, out, f)
  {
    hide LocalFixed, ExtraOk, U16At, U32At;
    var span, start: nat, from: nat := raw[e.localOffset..e.spanEnd], e.localOffset, f.localOffset;
    var head := |LocalHead(e)|;
    assert head == |LocalHead(f)|;
    SliceOfSlice(raw, start, e.spanEnd, 0, head);
    SliceOfSlice(out, from, f.spanEnd, 0, head);
    assert LocalHead(e) == span[0..head] == LocalHead(f);
    assert LocalFixed(e) == LocalHead(e)[..30] && LocalFixed(f) == LocalHead(f)[..30];
    LocalRoundTrip(e, LocalFixed(e));
    LocalRoundTrip(f, LocalFixed(f));
    assert e.compressedSize == f.compressedSize;
    var stop := head + e.compressedSize as nat;
    SliceOfSlice(raw, start, e.spanEnd, head, stop);
    SliceOfSlice(out, from, f.spanEnd, head, stop);
  }

  /** A change of data that the allow list leaves out is reported by name. */
  lemma {:induction false} UnlistedChangeReported(codec: Codec, a: Archive, changed: map<string, Bytes>,
      added: seq<(string, Bytes)>, b: Archive, listed: set<string>, name: string)
    requires codec.Lawful() && Inspect(codec, a.raw) == Ok(a) && NoDuplicates(AddedNames(added)) && Coherent(a)
    requires Repack(codec, a, changed, added).Ok? && b == Edited(codec, a, changed, added)
             && Inspect(codec, b.raw) == Ok(b)
    requires name in changed && name in EntryNames(a) && name !in listed
    requires var e := ByName(a.entries)[name];
             e.dataStart <= e.dataEnd <= |a.raw| && Payload(codec, a.raw, e) != Some(changed[name])
    ensures Coherent(b) && Differs(a, b, listed, name)
  {
    hide *;
    InspectedCoherent(codec, a);
    InspectedCoherent(codec, b);
    InspectedDistinct(codec, b);
    RepackContents(codec, a, changed, added);
    NamedKept(codec, a, changed, added, b, name);
    InspectedRecord(codec, a, name);
    InspectedRecord(codec, b, name);
    RecordOf(a, name);
    RecordOf(b, name);
    KeptRecordDiffers(codec, a, CentralOffset(a), ByName(a.entries)[name], changed, b, CentralOffset(b),
      ByName(b.entries)[name]);
    DiffersBy(a, b, listed, name);
  }

  lemma InspectedRecord(codec: Codec, a: Archive, name: string)
    requires IsArchive(codec, a) && name in EntryNames(a)
    ensures AllStorable(a.entries) && name in ByName(a.entries)
    ensures ByName(a.entries)[name].name == name && Sliceable(a.raw, ByName(a.entries)[name])
    ensures 0 <= CentralOffset(a) <= |a.raw| && RecordFits(a.raw, ByName(a.entries)[name], CentralOffset(a))
  {
    ArchiveRecords(codec, a);
    hide ByName, RecordFits, Listed, Tiled, SortByOffset, Sliceable;
  }

  lemma RecordOf(a: Archive, name: string)
    requires Coherent(a) && name in EntryNames(a) && Sliceable(a.raw, ByName(a.entries)[name])
    ensures var e := ByName(a.entries)[name]; RecordBytes(a, name) == a.raw[e.localOffset..e.spanEnd]
  {
    hide ByName, Coherent;
  }

  lemma DiffersBy(a: Archive, b: Archive, listed: set<string>, name: string)
    requires Coherent(a) && Coherent(b) && name in EntryNames(a) && name in EntryNames(b) && name !in listed
    requires RecordBytes(a, name) != RecordBytes(b, name)
    ensures Differs(a, b, listed, name)
  {
    hide ByName, Coherent, RecordBytes;
  }

  lemma {:induction false} KeptRecordDiffers(codec: Codec, a: Archive, to: nat, e: ZipEntry,
      changed: map<string, Bytes>, b: Archive, end: nat, f: ZipEntry)
    requires to <= |a.raw| && RecordFits(a.raw, e, to) && end <= |b.raw| && RecordFits(b.raw, f, end)
    requires Sliceable(a.raw, e) && Sliceable(b.raw, f) && Kept(codec, a.raw, e, changed, b.raw, f)
    requires e.name in changed && Payload(codec, a.raw, e) != Some(changed[e.name])
    ensures a.raw[e.localOffset..e.spanEnd] != b.raw[f.localOffset..f.spanEnd]
  {
    hide LocalHead, ExtraOk;
    assert Payload(codec, b.raw, f) == Some(changed[e.name]);
    if a.raw[e.localOffset..e.spanEnd] == b.raw[f.localOffset..f.spanEnd] {
      SameRecordSamePayload(codec, a.raw, to, e, b.raw, end, f);
    }
  }
}
