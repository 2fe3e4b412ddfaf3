# Verified model of the HWP document plugin

Dafny proofs about the parts of the `gpt-codex-hwp` package that are algorithms and protocols:

- **Archives** (`Zip*.dfy`). The raw-preserving ZIP inspector and repacker of the HWPX editor, byte for byte: what
  the inspector accepts, what a repack preserves, how the audit judges it, and how the laxer preflight relates to
  the inspector. Bytes are integers below 256. Deflate, CRC-32 and the two name encodings are functions of which
  only `Codec.Lawful` is assumed: inflating undoes deflating, decoding undoes encoding, ASCII means itself.
- **One child at a time** (`HeavyGate.dfy`, `StartGate.dfy`, `Child*.dfy`). The one-slot gate, the START pipe
  and the life of a spawned document child, as a transition system of any number of concurrent calls in which
  supervisors, clocks, aborts, pipes and closes do what they like. `Possible` says what the environment cannot do:
  a recognized receipt of absence and a clean close do not lie, and a gated root starts nothing before START.
- **Registration** (`Registration*.dfy`, `Coordinator.dfy`). The coordinator that registers descendant processes: its
  job queue, acknowledgements, closing, sealing and poisoning, as steps and as the class that performs them.
- **Markdown** (`Regex.dfy`, `Markdown*.dfy`). The escape of underscores inside words, its block segmenter and its
  linear-time scanners, compared with a backtracking semantics of the regular expressions that the source names.
  The Unicode classes of letters, digits and white space are abstract.
- **Streams** (`BoundedFrame.dfy`, `Base64.dfy`, `Svg*.dfy`, `*Spools.dfy`, `SpoolDelivery.dfy`). The frame decoder, the
  incremental SVG policy, whose tag expressions have the same backtracking semantics, and the result spools. JSON and
  UTF-8 are functions of which `Foreign.Lawful` states the inverse laws.
- **Exclusive output** (`FileSystem.dfy`, `ExclusiveOutput.dfy`). Writing several new files at once on a file system
  where any call may fail or be short and other processes may rearrange paths at any moment.
- **Fonts** (`Font*.dfy`). Inspection and repair of the font references of a header.
- **Anchors** (`Anchor.dfy`). The two programs that must choose the same paragraph for an image.

Loops and objects of the source are methods and classes here. Each is proved against a function on values, and the
properties are lemmas about those functions. `hide` statements keep the proof obligations small.

## What turned out to be false

Each line names the exact condition and an input that fails.

- The repacker undoes nothing for an archive without entries: the bytes before its EOCD record belong to no entry and
  are dropped (`ZipRoundTrip.NoOpIdentity`, `ZipWitnesses.NoEntriesShrinks`).
- A repack is not always accepted again, because its limits are looser than the inspector's, and because the size, the
  offset or the comment length in its EOCD record may spell the EOCD signature. It is never read as another archive
  (`ZipTheorems.RoundTrip`, `ZipWitnesses.LargeEntryRefused`, `ZipWitnesses.HiddenSignatureRefused`).
- An SVG element may be opened and closed by different names, because the opening expression gives back trailing
  `-`, `.` and `:` and ignores what follows the name (`SvgPolicy.AcceptedNesting`, `SvgPolicy.NamesSlip`).
- Text that begins with U+FEFF does not survive a result spool, because `TextDecoder` drops it
  (`Spools.RenderRoundTrip`, `Spools.MarkedRender`, `ParseSpools.ParseRoundTrip`, `ParseSpools.MarkedParse`).
- A sealed coordinator still fails on an error of the registration channel and on a request for termination past the
  deadline, and on nothing else (`Registration.SealedFailsExactly`, `Registration.SealedThenFailed`).
- A missing control pipe leaves a running tree that is neither terminated nor released, and blocks the slot for good
  (`ChildLifecycle.MissingControlPipe`).
- Repairing fonts can fail on a document whose header has only repairable issues: the second inspection also looks at
  the references of the body, which the first one does not
  (`FontNormalization.NormalizeGeneratedFontReferences`, `FontWitness.RepairedButRefused`).

## Model

| member | source | states |
|---|---|---|
| `ZipTheorems.RoundTrip` | packages/gpt-codex-hwp/scripts/hwpx-safe-edit/hwpxlib.py:212-593 | For every inspected archive and every successful repack, the inspector accepts the output if and only if the edited archive keeps the inspector's limits and neither its directory size, its directory offset nor its comment length spells an EOCD signature; what it then reads is the edited archive, never another one. |
| `ZipSuccess.RepackSucceeds` | packages/gpt-codex-hwp/scripts/hwpx-safe-edit/hwpxlib.py:429-593 | For every inspected archive, a repack succeeds if and only if every changed name is an entry, every added name is new, safe and encodable in 65,535 bytes, and the lengths of the new data, of all local records, of the central directory and the number of entries fit the classic fields; the length of the output is given. |
| `ZipSuccess.RepackErrors` | packages/gpt-codex-hwp/scripts/hwpx-safe-edit/hwpxlib.py:436-549 | Which error a refused repack ends in: a missing name comes before an existing one and both before everything else; an unencodable or overlong name is reported exactly when it is that of the first addition that cannot be written; every other refusal is the one for unsafe output. |
| `ZipAddition.AdditionAccepted` | packages/gpt-codex-hwp/scripts/hwpx-safe-edit/insert_image.py:230-239 | Adding an entry "b" to the archive with one stored entry succeeds whatever the data; the output holds them and is accepted again exactly when they keep the limits of an entry and do not put the directory at the one offset that spells a signature. |
| `ZipSignature.SignatureByFields` | packages/gpt-codex-hwp/scripts/hwpx-safe-edit/hwpxlib.py:225-249 | Of a laid-out output within the limits, a second EOCD signature begins after the real one exactly when the size, offset and comment-length fields spell it. |
| `ZipSignature.AcceptedEndsOnce` | packages/gpt-codex-hwp/scripts/hwpx-safe-edit/hwpxlib.py:225-249 | Bytes that end in a printed EOCD record with a possible directory and a comment without a signature are accepted, if at all, at that record. |
| `ZipSignature.NoSecondRecord` | packages/gpt-codex-hwp/scripts/hwpx-safe-edit/hwpxlib.py:225-249 | Wherever inside an EOCD record a signature begins, the record read from there runs past the end, or has a disk number that is not zero. |
| `ZipWitnesses.NoEntriesShrinks` | packages/gpt-codex-hwp/scripts/hwpx-safe-edit/hwpxlib.py:546-593 | An archive of 26 bytes without entries is inspected, and its repack without any change is other bytes. |
| `ZipWitnesses.VerdictOnChange` | packages/gpt-codex-hwp/scripts/hwpx-safe-edit/hwpxlib.py:429-593 | For every lawful codec that encodes "a" as one byte: giving the one stored entry of a 100-byte archive new data below 2^28 bytes succeeds; the output is accepted exactly when the data are within the size limit of an entry and do not put the directory at an offset that spells an EOCD signature. |
| `ZipWitnesses.HiddenSignatureRefused` | packages/gpt-codex-hwp/scripts/hwpx-safe-edit/hwpxlib.py:225-249 | New data within every limit whose length makes the directory offset spell an EOCD signature: the repack succeeds and the inspector refuses it, whatever the codec. |
| `ZipWitnesses.LargeEntryRefused` | packages/gpt-codex-hwp/scripts/hwpx-safe-edit/hwpxlib.py:295-305 | The repacker writes an entry one byte above the size limit, and the inspector refuses it, whatever the codec. |
| `ZipTheorems.RepackContents` | packages/gpt-codex-hwp/scripts/hwpx-safe-edit/hwpxlib.py:429-593 | After a successful repack the central order is the old order and then the additions; changed and added entries stand for exactly the given bytes with their checksum and size, unchanged ones keep their local record byte for byte, and every other central field is kept. |
| `ZipRoundTrip.NoOpIdentity` | packages/gpt-codex-hwp/scripts/hwpx-safe-edit/hwpxlib.py:345-593 | Repacking an inspected archive with no change and no addition gives back the input byte for byte if and only if the archive has an entry. |
| `ZipPreservation.RepackPreserved` | packages/gpt-codex-hwp/scripts/hwpx-safe-edit/hwpxlib.py:841-880 | The preservation audit of an original and its re-inspected repack reports nothing when the allow lists are the changed and the added names, the last original entry included. |
| `ZipPreservation.UnlistedChangeReported` | packages/gpt-codex-hwp/scripts/hwpx-safe-edit/hwpxlib.py:841-880 | A repacked entry whose data differ and whose name is not on the allow list is reported by name. |
| `ZipPreservation.RawPreservationIssues` | packages/gpt-codex-hwp/scripts/hwpx-safe-edit/hwpxlib.py:841-880 | The audit's loop reports exactly the missing, the unlisted added and the unlisted differing entries. |
| `ZipPreservation.NamesReported` | packages/gpt-codex-hwp/scripts/hwpx-safe-edit/hwpxlib.py:841-862 | A name is reported as missing, as added, as allowed to be added or as allowed to change exactly when it was removed, added without leave, not added, or not kept. |
| `ZipPreservation.SameRecordSamePayload` | packages/gpt-codex-hwp/scripts/hwpx-safe-edit/hwpxlib.py:864-880 | Equal raw local records of entries with the same name and extra field stand for the same data: what the audit leaves unreported is really unchanged. |
| `ZipPreflight.InspectorRefinesPreflight` | packages/gpt-codex-hwp/src/shared/zip-preflight.ts:15-59 | Every byte string the strict inspector accepts passes the preflight with the same EOCD record and the same entry count. |
| `ZipPreflight.FindExactEocd` | packages/gpt-codex-hwp/src/shared/zip-preflight.ts:69-89 | The bounded backward scan finds the last EOCD record whose comment ends the file exactly, and misses none. |
| `ZipPreflight.CountCentralDirectoryEntries` | packages/gpt-codex-hwp/src/shared/zip-preflight.ts:91-130 | The counting loop returns the number of headers that tile the directory; it reports an exceeded budget exactly when more well-formed headers than allowed come first, and a malformed directory exactly when they do not and the tiling breaks. |
| `ZipPreflight.AssertClassicZipEntryBudget` | packages/gpt-codex-hwp/src/shared/zip-preflight.ts:15-59 | The preflight succeeds exactly for bytes within the entry budget at the last exact EOCD record, and returns their entry count. |
| `ZipPreflight.DirectoryHeaders` | packages/gpt-codex-hwp/src/shared/zip-preflight.ts:91-130 | A directory of n records that the strict inspector admits is tiled by n headers of the lax one. |
| `ZipAcceptance.InspectExact` | packages/gpt-codex-hwp/scripts/hwpx-safe-edit/hwpxlib.py:212-410 | The inspector accepts a byte string as an archive if and only if the bytes are laid out as that archive: records tiling the front, the printed directory, the printed EOCD with the comment. |
| `ZipAcceptance.InspectSound` | packages/gpt-codex-hwp/scripts/hwpx-safe-edit/hwpxlib.py:225-410 | Whatever is accepted is laid out so. |
| `ZipAcceptance.InspectComplete` | packages/gpt-codex-hwp/scripts/hwpx-safe-edit/hwpxlib.py:225-410 | Whatever is laid out so is accepted, as itself. |
| `ZipAcceptance.RefusedAs` | packages/gpt-codex-hwp/scripts/hwpx-safe-edit/hwpxlib.py:214-259 | Refused bytes are reported as no HWPX document exactly when they do not begin like a ZIP archive, and as unsafe otherwise. |
| `ZipInspect.InspectArchiveBytes` | packages/gpt-codex-hwp/scripts/hwpx-safe-edit/hwpxlib.py:212-410 | The inspector's loops, with running total, set of names and sorted offsets, compute the specified verdict and archive. |
| `ZipInspect.ReadProvisional` | packages/gpt-codex-hwp/scripts/hwpx-safe-edit/hwpxlib.py:261-343 | The directory loop reads exactly the declared number of admissible records within the size and name budgets. |
| `ZipInspect.FinalizeEntries` | packages/gpt-codex-hwp/scripts/hwpx-safe-edit/hwpxlib.py:355-403 | The loop over the provisional entries completes each one from its local header, or fails on the first that does not fit. |
| `ZipInspect.RFind` | packages/gpt-codex-hwp/scripts/hwpx-safe-edit/hwpxlib.py:983-988 | The last occurrence of a signature at or after a position. |
| `ZipFormat.GuardExtra` | packages/gpt-codex-hwp/scripts/hwpx-safe-edit/hwpxlib.py:1003-1014 | The extra-field loop accepts exactly sequences of whole records without a ZIP64 record. |
| `ZipFormat.ExtraByRecords` | packages/gpt-codex-hwp/scripts/hwpx-safe-edit/hwpxlib.py:1003-1014 | Of an extra field put together from records the guard refuses exactly one with a ZIP64 record. |
| `ZipFormat.ExtraIsRecords` | packages/gpt-codex-hwp/scripts/hwpx-safe-edit/hwpxlib.py:1003-1014 | Every extra field that the guard accepts is put together from records. |
| `ZipFormat.FeaturesByBits` | packages/gpt-codex-hwp/scripts/hwpx-safe-edit/hwpxlib.py:991-1000 | Of the sixteen flag bits exactly 0, 3, 6 and 13 are refused; the methods are 0 and 8, the disk is 0. |
| `ZipFormat.NameOkByParts` | packages/gpt-codex-hwp/scripts/hwpx-safe-edit/hwpxlib.py:1017-1021 | Cut at its slashes, a name is accepted exactly when no part is "..", the first part is neither empty nor begins with a drive letter, and no part holds a NUL or a backslash. |
| `ZipFormat.CentralRoundTrip` | packages/gpt-codex-hwp/scripts/hwpx-safe-edit/hwpxlib.py:552-576 | A printed central record is read back as the entry, whatever follows it (section 4.3.12 of the PKWARE APPNOTE). |
| `ZipFormat.CentralReadPrints` | packages/gpt-codex-hwp/scripts/hwpx-safe-edit/hwpxlib.py:266-341 | A central record that was read is exactly the bytes that printing its entry produces. |
| `ZipFormat.LocalRoundTrip` | packages/gpt-codex-hwp/scripts/hwpx-safe-edit/hwpxlib.py:461-478 | A printed local header agrees with its entry in every field the inspector compares (section 4.3.7). |
| `ZipFormat.LocalMatchPrints` | packages/gpt-codex-hwp/scripts/hwpx-safe-edit/hwpxlib.py:358-394 | A local header that passes the comparison is the printed one. |
| `ZipFormat.EocdRoundTrip` | packages/gpt-codex-hwp/scripts/hwpx-safe-edit/hwpxlib.py:579-592 | A printed EOCD record is read back field by field (section 4.3.16). |
| `ZipFormat.EocdReadPrints` | packages/gpt-codex-hwp/scripts/hwpx-safe-edit/hwpxlib.py:225-249 | An EOCD record that passes the checks is the printed one. |
| `ZipLayout.DirectoryRoundTrip` | packages/gpt-codex-hwp/scripts/hwpx-safe-edit/hwpxlib.py:547-576 | A printed directory is read back entry by entry. |
| `ZipLayout.DirectoryReadPrints` | packages/gpt-codex-hwp/scripts/hwpx-safe-edit/hwpxlib.py:265-343 | Reading a directory yields entries that print to exactly the bytes read. |
| `ZipSorting.SortPermutes` | packages/gpt-codex-hwp/scripts/hwpx-safe-edit/hwpxlib.py:345-348 | The local order holds the same entries. |
| `ZipSorting.SortAscends` | packages/gpt-codex-hwp/scripts/hwpx-safe-edit/hwpxlib.py:345-348 | The local order ascends by offset. |
| `ZipSorting.SortUnique` | packages/gpt-codex-hwp/scripts/hwpx-safe-edit/hwpxlib.py:345-353 | It is the only such order when no two offsets are equal. |
| `ZipRepack.RepackArchivePreserveBytes` | packages/gpt-codex-hwp/scripts/hwpx-safe-edit/hwpxlib.py:429-593 | The three writing loops produce the bytes or the error of the abstract repack, whose outcome and contents the theorems above state in terms of names, lengths and data. |
| `ZipRepack.WriteDirectory` | packages/gpt-codex-hwp/scripts/hwpx-safe-edit/hwpxlib.py:550-576 | The directory written is the printed directory of the emitted entries in central order. |
| `ZipRepack.WriteLocalRecords` | packages/gpt-codex-hwp/scripts/hwpx-safe-edit/hwpxlib.py:446-490 | The first loop copies or re-emits every record of the local order and records what it emitted. |
| `ZipRepack.WriteAddedRecords` | packages/gpt-codex-hwp/scripts/hwpx-safe-edit/hwpxlib.py:492-544 | The second loop appends every addition and records what it emitted. |
| `ZipRepack.AllEmitted` | packages/gpt-codex-hwp/scripts/hwpx-safe-edit/hwpxlib.py:547-551 | Every name of the central order has been emitted, so the lookup cannot fail. |
| `ZipRepack.AllItemsNamed` | packages/gpt-codex-hwp/scripts/hwpx-safe-edit/hwpxlib.py:448-544 | The records written are those of the local order, then the additions. |
| `ZipRoundTrip.CopyRecords` | packages/gpt-codex-hwp/scripts/hwpx-safe-edit/hwpxlib.py:453-456 | Copying every record verbatim writes the bytes in front of the central directory at unchanged offsets. |
| `ZipRoundTrip.EmptyTail` | packages/gpt-codex-hwp/scripts/hwpx-safe-edit/hwpxlib.py:546-593 | Without entries a repack is an EOCD record, which no inspected archive starts with. |
| `ZipRoundTrip.LaidOutIsArchive` | packages/gpt-codex-hwp/scripts/hwpx-safe-edit/hwpxlib.py:212-410 | An output laid out as the edited archive is accepted exactly when it keeps the inspector's limits and hides no later EOCD signature. |
| `ZipRoundTrip.RecordsWritten` | packages/gpt-codex-hwp/scripts/hwpx-safe-edit/hwpxlib.py:448-544 | Every written record is the original of its entry, the entry with new data, or an addition. |
| `ZipTheorems.OriginalKept` | packages/gpt-codex-hwp/scripts/hwpx-safe-edit/hwpxlib.py:453-490 | An original entry keeps its record, or carries exactly its new data, in the edited archive. |
| `ZipTheorems.AdditionKept` | packages/gpt-codex-hwp/scripts/hwpx-safe-edit/hwpxlib.py:492-544 | An addition stands for exactly its data in the edited archive. |
| `HeavyGate.EveryReachableGate` | packages/gpt-codex-hwp/src/workers/document-execution-policy.ts:279-364 | In every reachable state active is the number of unreleased grants and at most 1, a non-empty queue means an active grant, and the queue holds distinct unsettled calls in arrival order. |
| `HeavyGate.SettledOnce` | packages/gpt-codex-hwp/src/workers/document-execution-policy.ts:291-349 | An acquire that has settled stays as it settled, whatever happens later. |
| `HeavyGate.FirstComeFirstServed` | packages/gpt-codex-hwp/src/workers/document-execution-policy.ts:333-349 | Of two waiting calls the later one is granted only after the earlier one has settled. |
| `HeavyGate.ReleasedForGood` | packages/gpt-codex-hwp/src/workers/document-execution-policy.ts:333-338 | Releasing the same grant again has no effect, whatever happened in between. |
| `HeavyGate.WhySettled` | packages/gpt-codex-hwp/src/workers/document-execution-policy.ts:302-349 | A waiting call is cancelled exactly by its abort, timed out exactly by its deadline, and granted exactly by the release of the held slot when it is first in line. |
| `HeavyGate.HowArrived` | packages/gpt-codex-hwp/src/workers/document-execution-policy.ts:291-331 | A new call is cancelled exactly when it is aborted already, granted exactly when the slot is free, and queued otherwise. |
| `HeavyGate.HeavyChildGate.Acquire` | packages/gpt-codex-hwp/src/workers/document-execution-policy.ts:291-331 | The method takes the free slot, queues, or rejects an aborted call, as the abstract gate does. |
| `HeavyGate.HeavyChildGate.Cancel` | packages/gpt-codex-hwp/src/workers/document-execution-policy.ts:309-329 | The abort listener and the deadline timer withdraw a waiter once and do nothing after it settled. |
| `HeavyGate.HeavyChildGate.OnAbort` | packages/gpt-codex-hwp/src/workers/document-execution-policy.ts:309-318 | The abort listener rejects a waiting call as cancelled and does nothing after it settled. |
| `HeavyGate.HeavyChildGate.OnDeadline` | packages/gpt-codex-hwp/src/workers/document-execution-policy.ts:320-329 | The deadline timer rejects a waiting call as timed out and does nothing after it settled. |
| `HeavyGate.HeavyChildGate.Release` | packages/gpt-codex-hwp/src/workers/document-execution-policy.ts:333-349 | A release closure frees the slot and passes it to the first live waiter; a second call changes nothing. |
| `HeavyGate.HeavyChildGate.GrantNext` | packages/gpt-codex-hwp/src/workers/document-execution-policy.ts:339-347 | The loop drops settled waiters and grants the first live one. |
| `StartGate.StartAtMostOnce` | packages/gpt-codex-hwp/src/workers/document-child-client.ts:610-677 | Whatever the pipe reports, START is written at most once, and never after the gate was closed. |
| `StartGate.StartGateOwner.WriteStartFrame` | packages/gpt-codex-hwp/src/workers/document-child-client.ts:642-665 | START is written exactly when it was not written, the gate is open and no failure was seen. |
| `StartGate.StartGateOwner.CloseStartGate` | packages/gpt-codex-hwp/src/workers/document-child-client.ts:667-677 | Closing marks the gate closed, fails a pending START and keeps the first failure. |
| `StartGate.StartGateOwner.Settle` | packages/gpt-codex-hwp/src/workers/document-child-client.ts:646-657 | Only the first report about a pending START counts. |
| `ChildLifecycle.OneTreeAtATime` | packages/gpt-codex-hwp/src/workers/document-child-client.ts:300-1063 | In every interleaving of calls at most one has a living tree, it holds the slot, and a call that spawned and gave up the slot had proof of absence, or saw a clean root close with START never written. |
| `ChildLifecycle.StartOnceSupervised` | packages/gpt-codex-hwp/src/workers/document-child-client.ts:507-560 | START is written at most once in a call, and only after supervision was ready. |
| `ChildLifecycle.StartsWhenReady` | packages/gpt-codex-hwp/src/workers/document-child-client.ts:507-530 | Every event that writes START is the one that makes supervision ready, with the gate open and before the deadline. |
| `ChildLifecycle.SlotGivenUp` | packages/gpt-codex-hwp/src/workers/document-child-client.ts:704-929 | Every event that gives up the slot finishes the call, leaves no living tree, and carries the evidence for the absence of a tree that was spawned. |
| `ChildLifecycle.RunKept` | packages/gpt-codex-hwp/src/workers/document-child-client.ts:405-1063 | Every event keeps the invariant of a call in every phase. |
| `ChildLifecycle.FinalPhases` | packages/gpt-codex-hwp/src/workers/document-child-client.ts:704-777 | A slot given up is not taken back, and one retained for good is not given up. |
| `ChildLifecycle.RetainedForGood` | packages/gpt-codex-hwp/src/workers/document-child-client.ts:870-881 | After a retention for good no call is ever granted the slot again. |
| `ChildLifecycle.MissingControlPipe` | packages/gpt-codex-hwp/src/workers/document-child-client.ts:968-973 | A child without a control pipe is neither terminated nor released: its tree lives and no later call gets the slot. |
| `ChildRuns.OrdinaryRun` | packages/gpt-codex-hwp/src/workers/document-child-client.ts:507-702 | From any reachable state in which a call has the slot: the run of spawn, readiness, START, settlement, receipt of absence and clean-up finishes the call, writes one START and gives the slot to the first call in line, or frees it. |
| `ChildRuns.UnclosedHelperBlocks` | packages/gpt-codex-hwp/src/workers/document-child-client.ts:465-478 | A supervisor that fails with an unclosed helper keeps the slot: whatever happens later, no other call is granted. |
| `ChildRuns.GoneRootReleases` | packages/gpt-codex-hwp/src/workers/document-child-client.ts:479-491 | A supervisor that fails because the root is gone: after a clean close, in time or late, and a clean-up the slot is passed on and START was never written; a close with an error or a failed clean-up keeps it for good. |
| `ChildRuns.KilledRootReleases` | packages/gpt-codex-hwp/src/workers/document-child-client.ts:405-491 | After any other failure of the supervisor, or without a start gate, the root is killed by its handle, and then close and clean-up pass the slot on; a kill that throws keeps it for good. |
| `ChildRuns.LateSupervisor` | packages/gpt-codex-hwp/src/workers/document-child-client.ts:704-777 | A supervisor that answers after the start-up was given up: ready, it is asked for proof up to twenty times; a root already gone needs a clean close; any other answer keeps the slot for good. |
| `ChildRuns.ExpiredBeforeStart` | packages/gpt-codex-hwp/src/workers/document-child-client.ts:512-525 | A deadline before START keeps it from being written; proof of absence and clean-up pass the slot on. |
| `ChildRuns.ExpiredAtStart` | packages/gpt-codex-hwp/src/workers/document-child-client.ts:527-543 | The same for a deadline that passes while START is written, with or without a control pipe. |
| `ChildRuns.TerminatedAtStart` | packages/gpt-codex-hwp/src/workers/document-child-client.ts:527-543 | And for a start-up that is terminated from outside while START is written. |
| `ChildRuns.FailedStartReleases` | packages/gpt-codex-hwp/src/workers/document-child-client.ts:544-574 | A START that cannot be written: the slot is passed on after proof of absence, a clean close and a clean-up. |
| `ChildRuns.BrokenPipeReleases` | packages/gpt-codex-hwp/src/workers/document-child-client.ts:544-574 | A pipe that broke before readiness: START is never written, and the slot is passed on in the same way. |
| `ChildRuns.UnprovedStartup` | packages/gpt-codex-hwp/src/workers/document-child-client.ts:883-929 | However the start-up comes to be terminated, a termination without proof is repeated up to twenty times: the first proof and a clean-up pass the slot on, twenty failures keep it for good. |
| `ChildRuns.UnprovedExit` | packages/gpt-codex-hwp/src/workers/document-child-client.ts:1374-1403 | A settled call without proof of absence asks up to twenty times more; the first proof and a clean-up pass the slot on, twenty failures keep it for good. |
| `ChildRuns.GivenUpReleases` | packages/gpt-codex-hwp/src/workers/document-child-client.ts:300-404 | A call that gives up before it spawns anything passes the slot on. |
| `Registration.AckWritten` | packages/gpt-codex-hwp/src/workers/document-process-registration.ts:266-301 | An acknowledgement is written only for the registration in progress after its root was retained; it says accepted exactly while the coordinator is open, and then the frame's parent is the case. |
| `RegistrationRuns.ProperRegistration` | packages/gpt-codex-hwp/src/workers/document-process-registration.ts:248-310 | A waiting coordinator that reads a proper line retains the root and answers: accepted while it is open and the case is the parent, rejected while it is closing; nothing else changes, and it waits again. |
| `RegistrationRuns.ForeignParent` | packages/gpt-codex-hwp/src/workers/document-process-registration.ts:269-274 | While the coordinator is open, a frame with another parent fails the channel, and nothing is registered or answered. |
| `RegistrationRuns.ImproperLine` | packages/gpt-codex-hwp/src/workers/document-process-registration.ts:248-262 | A line that does not parse, a nonce or pid seen before, or a seventeenth frame fails the channel at once, and nothing is reserved. |
| `RegistrationRuns.OverlongOrOvertaking` | packages/gpt-codex-hwp/src/workers/document-process-registration.ts:312-346 | More bytes than a frame or the channel may have, or bytes behind a frame in progress, fail the channel. |
| `RegistrationRuns.FailedRegistration` | packages/gpt-codex-hwp/src/workers/document-process-registration.ts:284-309 | A registration that is rejected, expires, is poisoned in the meantime or cannot be answered fails with its reason, and a retained root is handed to clean-up. |
| `RegistrationRuns.LateRoot` | packages/gpt-codex-hwp/src/workers/document-process-registration.ts:276-290 | A root that is retained only after its registration expired is handed to clean-up, and nobody is answered. |
| `RegistrationRuns.WhatFails` | packages/gpt-codex-hwp/src/workers/document-process-registration.ts:347-370 | Of the events other than data, exactly the deadline, a late request for termination, an error of the registration channel, its close without an end, an error of the open acknowledgement channel and an error of the living case fail a waiting coordinator, each with its reason. |
| `RegistrationRuns.EndsWithinLine` | packages/gpt-codex-hwp/src/workers/document-process-registration.ts:347-351 | A channel that ends within a line fails; one that ends between lines does not. |
| `RegistrationRuns.LineInParts` | packages/gpt-codex-hwp/src/workers/document-process-registration.ts:324-345 | A line may arrive in two chunks. |
| `RegistrationRuns.SealRefused` | packages/gpt-codex-hwp/src/workers/document-process-registration.ts:433-456 | A drained coordinator seals when the acknowledgement channel ends and closes, and fails when it does not end or breaks before it closes. |
| `RegistrationRuns.SealWaits` | packages/gpt-codex-hwp/src/workers/document-process-registration.ts:416-449 | Sealing has no effect before start and closing, and waits for the end of the input, the exit of the case, the jobs queued before it and the close of the acknowledgement channel. |
| `RegistrationRuns.AllRegisterAndSeal` | packages/gpt-codex-hwp/src/workers/document-process-registration.ts:397-484 | For every list of at most 16 distinct proper frames within the budget: all are retained and accepted in order, the coordinator seals, and it passes on that the groups are gone. |
| `Registration.SealedMeans` | packages/gpt-codex-hwp/src/workers/document-process-registration.ts:416-457 | In every run sealed means: input ended, case exited, and at most 16 registrations with distinct nonces and pids, each retained and answered exactly once. |
| `Registration.FailedForGood` | packages/gpt-codex-hwp/src/workers/document-process-registration.ts:358-370 | Failed is absorbing, keeps its first reason, and nothing is reserved or acknowledged any more. |
| `Registration.SealedFailsExactly` | packages/gpt-codex-hwp/src/workers/document-process-registration.ts:172-179 | After any run that ends sealed, and any later events, the coordinator has failed if and only if one of those events is an error of the registration channel or a request for termination past the deadline; otherwise it is still sealed. |
| `Registration.SealedThenFailed` | packages/gpt-codex-hwp/src/workers/document-process-registration.ts:372-484 | A run from the start that seals, and then fails, for either cause. |
| `Registration.GoneMeansSealed` | packages/gpt-codex-hwp/src/workers/document-process-registration.ts:458-484 | A gone receipt is reported only by an unpoisoned sealed coordinator asked in time, and without the supervisor's word only when nothing was registered. |
| `Registration.StepGood` | packages/gpt-codex-hwp/src/workers/document-process-registration.ts:120-487 | Every event keeps the invariant of the coordinator. |
| `Registration.FindByte` | packages/gpt-codex-hwp/src/workers/document-process-registration.ts:326-328 | The first newline at or after an offset. |
| `Coordinator.ProcessRegistrationCoordinator.OnData` | packages/gpt-codex-hwp/src/workers/document-process-registration.ts:312-346 | The data listener cuts the stream into lines as the specification does and fails on overlong lines, volume and overtaking. |
| `Coordinator.ProcessRegistrationCoordinator.ReserveAndQueue` | packages/gpt-codex-hwp/src/workers/document-process-registration.ts:248-266 | A complete line is reserved, or poisons the coordinator when it is malformed, repeats a nonce or pid, exceeds 16 or overlaps another. |
| `Coordinator.ProcessRegistrationCoordinator.TerminateRegisteredGroups` | packages/gpt-codex-hwp/src/workers/document-process-registration.ts:458-484 | Past the deadline the call fails the coordinator first; the receipt is the supervisor's, downgraded after a poisoning, and gone only from an unchanged sealed coordinator. |
| `Coordinator.KnownBySets` | packages/gpt-codex-hwp/src/workers/document-process-registration.ts:257-261 | Looking a frame up in the two sets is looking it up among all reserved frames. |
| `MarkdownDocument.EscapeIsStable` | packages/gpt-codex-hwp/src/shared/markdown-underscore.ts:27-54 | The output has the same blocks with the same offsets as the input, is its own escape, has as many lines, and gives back the input when the inserted backslashes are deleted. |
| `MarkdownMeaning.FencedKept` | packages/gpt-codex-hwp/src/shared/markdown-underscore.ts:168-177 | The lines from an opening fence through the first marker that closes it, or to the end, are unchanged, and the rest is escaped as a document of its own. |
| `MarkdownMeaning.MathKept` | packages/gpt-codex-hwp/src/shared/markdown-underscore.ts:153-166 | Closed display math, on one line or over lines that neither a blank line nor a fence interrupts, is unchanged up to its first unescaped delimiter; the rest of that line is escaped as text. |
| `MarkdownMeaning.TableKept` | packages/gpt-codex-hwp/src/shared/markdown-underscore.ts:178-195 | Lines from a table tag to the balance of the tags whose outermost table has a closed row with a closed cell are unchanged. |
| `MarkdownMeaning.TableEscaped` | packages/gpt-codex-hwp/src/shared/markdown-underscore.ts:36-44 | The lines of any other table block are the lines of the escape of their joined text. |
| `MarkdownMeaning.OrdinaryEscaped` | packages/gpt-codex-hwp/src/shared/markdown-underscore.ts:31-36 | A line with which no fence, closed math or table begins is escaped by itself. |
| `MarkdownMeaning.OneOfFour` | packages/gpt-codex-hwp/src/shared/markdown-underscore.ts:151-198 | Every non-empty document begins with exactly one of these four. |
| `MarkdownRendering.RendersIs` | packages/gpt-codex-hwp/src/shared/markdown-underscore.ts:72-103 | The fold over the tags decides: the depth never falls below zero and ends at zero, and directly inside the outermost table a row is closed that contains a closed cell. |
| `MarkdownExamples.RenderedKept` | packages/gpt-codex-hwp/src/shared/markdown-underscore.ts:193-195 | A one-cell table is kept whatever the text of its cell. |
| `MarkdownExamples.UnrenderedEscaped` | packages/gpt-codex-hwp/src/shared/markdown-underscore.ts:193-195 | A table without a row is escaped like a line. |
| `MarkdownExamples.RenderedExample` | packages/gpt-codex-hwp/src/shared/markdown-underscore.ts:193-195 | The rendered table with the cell a_b is kept. |
| `MarkdownExamples.UnrenderedExample` | packages/gpt-codex-hwp/src/shared/markdown-underscore.ts:193-195 | The same word in a table without a row gets its backslash. |
| `MarkdownExamples.OneUnderscore` | packages/gpt-codex-hwp/src/shared/markdown-underscore.ts:211-221 | In a line without inline code, colon or parenthesis a single underscore is escaped exactly between two letters or digits. |
| `MarkdownDocument.ProtectedVerbatim` | packages/gpt-codex-hwp/src/shared/markdown-underscore.ts:37-51 | The protected blocks and heads that the segmenter finds are copied verbatim, line by line. |
| `MarkdownDocument.EscapeIntrawordUnderscores` | packages/gpt-codex-hwp/src/shared/markdown-underscore.ts:27-54 | The loop that replaces blocks and lines in place computes the specified document. |
| `MarkdownDocument.LinesStable` | packages/gpt-codex-hwp/src/shared/markdown-underscore.ts:27-54 | The escaped lines have the same blocks and are their own escape. |
| `MarkdownDocument.LinesEscaped` | packages/gpt-codex-hwp/src/shared/markdown-underscore.ts:27-54 | Line by line only backslashes in front of underscores are inserted. |
| `MarkdownTables.TagsAre` | packages/gpt-codex-hwp/src/shared/markdown-underscore.ts:65-72 | The tags read by the scanner are the matches of the backtracking regular expression, from every position of every text. |
| `MarkdownTables.TagIs` | packages/gpt-codex-hwp/src/shared/markdown-underscore.ts:65-149 | At every position the regular expression matches exactly the tag the scanner reads. |
| `MarkdownTables.HtmlTableTags` | packages/gpt-codex-hwp/src/shared/markdown-underscore.ts:112-149 | The generator with its suffix tables yields those tags. |
| `MarkdownTables.TagEndTable` | packages/gpt-codex-hwp/src/shared/markdown-underscore.ts:112-130 | The tables filled backwards hold the end of a tag from every position, quotes skipped. |
| `MarkdownTables.HtmlTableRenders` | packages/gpt-codex-hwp/src/shared/markdown-underscore.ts:72-103 | The loop over the tags decides like the specification. |
| `MarkdownTables.SameTags` | packages/gpt-codex-hwp/src/shared/markdown-underscore.ts:112-149 | Inserted backslashes change no tag. |
| `MarkdownTables.SameRendering` | packages/gpt-codex-hwp/src/shared/markdown-underscore.ts:72-103 | Whether a block renders as a table is not changed by the escape. |
| `MarkdownInline.RangesAre` | packages/gpt-codex-hwp/src/shared/markdown-underscore.ts:223-230 | The protected ranges are the leftmost non-overlapping matches of the regular expression, from every position of every line. |
| `MarkdownInline.InlineIs` | packages/gpt-codex-hwp/src/shared/markdown-underscore.ts:223-276 | At every position the scanner decides like the regular expression. |
| `MarkdownInline.ProtectedInlineRanges` | packages/gpt-codex-hwp/src/shared/markdown-underscore.ts:231-276 | The scanner with its three stop tables returns those ranges. |
| `MarkdownInline.MatchHttpScheme` | packages/gpt-codex-hwp/src/shared/markdown-underscore.ts:299-307 | The scheme matcher returns the index after the scheme, or -1. |
| `MarkdownEscape.EscapeLineIs` | packages/gpt-codex-hwp/src/shared/markdown-underscore.ts:211-221 | Escaping the pieces between the ranges is escaping the line run by run outside the ranges. |
| `MarkdownEscape.EscapeTextIs` | packages/gpt-codex-hwp/src/shared/markdown-underscore.ts:309-311 | Replacing the matches of the regular expression is escaping exactly the runs with a letter or digit on both sides. |
| `MarkdownEscape.IntrawordIs` | packages/gpt-codex-hwp/src/shared/markdown-underscore.ts:23 | The regular expression with its look-behind and look-ahead matches exactly such runs. |
| `MarkdownEscape.EscapeOneLine` | packages/gpt-codex-hwp/src/shared/markdown-underscore.ts:211-221 | The loop over the ranges computes the specified line. |
| `MarkdownStable.EscapeLineStable` | packages/gpt-codex-hwp/src/shared/markdown-underscore.ts:211-221 | The escape of a line is its own escape, differs by inserted backslashes only, and has the same ranges with the same text. |
| `MarkdownStable.EscapedInserted` | packages/gpt-codex-hwp/src/shared/markdown-underscore.ts:309-311 | Escaping, from any position on, only inserts backslashes in front of underscores. |
| `MarkdownInserted.SameInline` | packages/gpt-codex-hwp/src/shared/markdown-underscore.ts:231-276 | Insertions leave every decision of the inline scanner as it was. |
| `MarkdownLines.SameBlock` | packages/gpt-codex-hwp/src/shared/markdown-underscore.ts:151-198 | Inserted backslashes change no block; where the verbatim text is untouched, not even an offset. |
| `MarkdownLines.SameDelimiter` | packages/gpt-codex-hwp/src/shared/markdown-underscore.ts:200-209 | An inserted backslash neither escapes a math delimiter nor frees one. |
| `MarkdownBlocks.ProtectedBlock` | packages/gpt-codex-hwp/src/shared/markdown-underscore.ts:151-198 | The block segmenter returns the block of the abstract segmenter, whose meaning the theorems on fences, math, tables and ordinary lines state. |
| `MarkdownBlocks.FindMathDelimiter` | packages/gpt-codex-hwp/src/shared/markdown-underscore.ts:200-209 | The loop finds the first delimiter with an even number of backslashes before it. |
| `MarkdownBlocks.CloseTable` | packages/gpt-codex-hwp/src/shared/markdown-underscore.ts:180-196 | The scan finds the line that balances the table tags. |
| `Regex.GreedyClass` | packages/gpt-codex-hwp/src/shared/markdown-underscore.ts:223-230 | A greedy repetition of a class tries the longest stretch first and then gives characters back one by one. |
| `Regex.Delimited` | packages/gpt-codex-hwp/src/shared/markdown-underscore.ts:223-230 | A class repeated before something outside the class stops at its first stop only. |
| `BoundedFrame.ChunkInvariance` | packages/gpt-codex-hwp/src/workers/bounded-frame.ts:24-70 | The frames delivered, and whether a push fails, depend only on the bytes received and not on the chunking. |
| `BoundedFrame.RoundTrip` | packages/gpt-codex-hwp/src/workers/bounded-frame.ts:24-103 | Decoding a concatenation of encoded frames yields their payloads in order and nothing else. |
| `BoundedFrame.NothingLost` | packages/gpt-codex-hwp/src/workers/bounded-frame.ts:24-70 | The delivered frames encoded again, and the rest, are exactly the bytes received. |
| `BoundedFrame.WholeFrames` | packages/gpt-codex-hwp/src/workers/bounded-frame.ts:72-79 | Nothing is left over exactly for the encodings of whole frames. |
| `BoundedFrame.ParseAppend` | packages/gpt-codex-hwp/src/workers/bounded-frame.ts:24-70 | Parsing in two steps, the leftover in front of the second part, is parsing at once. |
| `BoundedFrame.EncodeBoundedFrame` | packages/gpt-codex-hwp/src/workers/bounded-frame.ts:95-102 | A frame is built exactly for payloads that are not empty, within the limit and below 2^32 bytes, and it parses back as that payload. |
| `BoundedFrame.BoundedFrameDecoder.Push` | packages/gpt-codex-hwp/src/workers/bounded-frame.ts:24-70 | A push delivers what the specification parses from the pending bytes and the chunk, keeps the leftover, and a failure is permanent. |
| `BoundedFrame.BoundedFrameDecoder.Finish` | packages/gpt-codex-hwp/src/workers/bounded-frame.ts:72-79 | Finish succeeds exactly when nothing is pending and fails the decoder otherwise. |
| `BoundedFrame.BoundedFrameDecoder.StartPayload` | packages/gpt-codex-hwp/src/workers/bounded-frame.ts:38-46 | A payload is allocated only for a length within the limit. |
| `Base64.AcceptsExactlyEncodings` | packages/gpt-codex-hwp/src/shared/svg-policy.ts:153-183 | The incremental check accepts exactly the encodings of non-empty byte strings (sections 3.5 and 4 of RFC 4648, zero pad bits). |
| `Base64.AcceptsCanonical` | packages/gpt-codex-hwp/src/shared/svg-policy.ts:153-175 | From a quantum boundary the check accepts exactly the canonical texts. |
| `Base64.EncodingCanonical` | packages/gpt-codex-hwp/src/shared/svg-policy.ts:153-183 | Every encoding of a non-empty byte string is canonical. |
| `Base64.DecodeInverse` | packages/gpt-codex-hwp/src/shared/svg-policy.ts:153-183 | Decoding a canonical text and encoding again gives back the text. |
| `Base64.CharOf` | packages/gpt-codex-hwp/src/shared/svg-policy.ts:177-183 | The alphabet and the sextet of a character undo each other. |
| `Base64.DataImage.PushBase64Character` | packages/gpt-codex-hwp/src/shared/svg-policy.ts:153-164 | One character advances the state as specified or fails. |
| `Base64.DataImage.AssertCompleteBase64` | packages/gpt-codex-hwp/src/shared/svg-policy.ts:166-175 | The final check as specified. |
| `SvgStructure.AcceptsExactlyTrees` | packages/gpt-codex-hwp/src/shared/svg-policy.ts:102-136 | The element stack accepts exactly the tag sequences of one tree rooted at svg with matching names and at most 1024 open elements. |
| `SvgPolicy.AcceptedIsTree` | packages/gpt-codex-hwp/src/shared/svg-policy.ts:19-144 | Whatever text is accepted has tags that, read by the closing, opening and self-closing expressions, are those of such a tree, space only outside it, and complete images only. |
| `SvgParts.AcceptedText` | packages/gpt-codex-hwp/src/shared/svg-policy.ts:28-144 | An accepted text is put together, character for character, from exactly the tags of one such tree with the images embedded in them and the characters between them, white space outside the root; which values are images the theorems on values state. |
| `SvgPolicy.AcceptedNesting` | packages/gpt-codex-hwp/src/shared/svg-policy.ts:102-136 | The elements of an accepted text are well nested by their names as written if and only if every name of an element left open consists of name characters and ends in a word character. |
| `SvgPolicy.NamesSlip` | packages/gpt-codex-hwp/src/shared/svg-policy.ts:102-136 | Two accepted texts whose element is opened and closed by different names, and a refused text in which the names are the same. |
| `SvgPolicy.PairAccepted` | packages/gpt-codex-hwp/src/shared/svg-policy.ts:102-136 | One element inside the root is accepted exactly when the two names that its expressions capture are equal. |
| `SvgValues.ImageTextAccepted` | packages/gpt-codex-hwp/src/shared/svg-policy.ts:49-100 | For every policy that inspects the tags and takes the attribute for a reference, every spelling of a safe prefix and every payload without the quote, of whatever length: an SVG with that one embedded image is accepted if and only if the payload encodes a non-empty byte string. |
| `SvgValues.ImageTag` | packages/gpt-codex-hwp/src/shared/svg-policy.ts:49-83 | A tag with an embedded image is completed as the tag with AAAA in place of the payload exactly when the payload encodes a non-empty byte string, and fails otherwise. |
| `SvgValues.ValueTag` | packages/gpt-codex-hwp/src/shared/svg-policy.ts:49-100 | A tag with any other quoted value, angle brackets and foreign references included, is completed as written. |
| `SvgValues.ContentAccepted` | packages/gpt-codex-hwp/src/shared/svg-policy.ts:28-47 | An element with any text in it and any text around it, none of it with an opening bracket, is accepted if and only if the text around it is white space. |
| `SvgValues.PlainValue` | packages/gpt-codex-hwp/src/shared/svg-policy.ts:84-92 | A quoted value that is no reference is taken into the tag character for character. |
| `SvgValues.ReferenceValue` | packages/gpt-codex-hwp/src/shared/svg-policy.ts:68-80 | So is a reference without a safe prefix. |
| `SvgPolicy.TagsPushed` | packages/gpt-codex-hwp/src/shared/svg-policy.ts:28-100 | A text of tags without quotes is accepted as far as the element structure accepts the tags one by one. |
| `SvgTags.ClosingIs` | packages/gpt-codex-hwp/src/shared/svg-policy.ts:107-116 | The closing expression matches exactly a slash, white space and one whole name up to the end, and captures that name. |
| `SvgTags.OpeningIs` | packages/gpt-codex-hwp/src/shared/svg-policy.ts:118-120 | The opening expression matches whatever starts with a name, and captures it up to its last word character. |
| `SvgTags.SelfClosingIs` | packages/gpt-codex-hwp/src/shared/svg-policy.ts:121 | A tag ends itself exactly when its trimmed body ends in a slash. |
| `SvgTags.OpensAs` | packages/gpt-codex-hwp/src/shared/svg-policy.ts:118-120 | For every name: characters of the name that are no word characters, and whatever follows the name, do not count. |
| `SvgTags.CloseNameWritten` | packages/gpt-codex-hwp/src/shared/svg-policy.ts:107-111 | The name of a closing tag that counts is the written one. |
| `SvgTags.OpenNameWritten` | packages/gpt-codex-hwp/src/shared/svg-policy.ts:118-120 | The name of an opening tag that counts is the written one if and only if that is whole. |
| `SvgTags.NestedAsWritten` | packages/gpt-codex-hwp/src/shared/svg-policy.ts:102-136 | Tags that the element stack accepts are well nested as written exactly when every element left open has a whole name. |
| `SvgTags.CapturedMatches` | packages/gpt-codex-hwp/src/shared/svg-policy.ts:107-118 | The group of an expression is captured exactly when the whole expression matches, at the end from which the match goes on. |
| `SvgPolicy.BufferBounded` | packages/gpt-codex-hwp/src/shared/svg-policy.ts:49-144 | At every point of every text the buffered tag stays within 65,536 units, however long an embedded image is. |
| `SvgPolicy.ChunkInvariance` | packages/gpt-codex-hwp/src/shared/svg-policy.ts:28-40 | Cutting the text between characters changes neither the state nor the verdict. |
| `SvgPolicy.IncrementalSvgPolicyValidator.Push` | packages/gpt-codex-hwp/src/shared/svg-policy.ts:28-40 | A chunk moves the validator as the specification says, or fails. |
| `SvgPolicy.IncrementalSvgPolicyValidator.InspectTagStructure` | packages/gpt-codex-hwp/src/shared/svg-policy.ts:102-136 | The method with its three expressions, its pop and its push changes the open elements as the reading of the tag demands, or fails. |
| `SvgPolicy.IncrementalSvgPolicyValidator.PushTagCharacter` | packages/gpt-codex-hwp/src/shared/svg-policy.ts:49-100 | A character inside a tag ends, starts or continues a value, a reference or an image, completes the tag, or fails. |
| `SvgPolicy.IncrementalSvgPolicyValidator.Finish` | packages/gpt-codex-hwp/src/shared/svg-policy.ts:42-47 | Finish accepts exactly finished states. |
| `SvgPolicy.AssertSafeSvgString` | packages/gpt-codex-hwp/src/shared/svg-policy.ts:146-151 | One push and a finish decide like the specification. |
| `Spools.RenderRoundTrip` | packages/gpt-codex-hwp/src/workers/document-compute-backend.ts:849-906 | An encoded valid render result is always decoded, to itself without a leading byte order mark in its text; so to itself if and only if there is none. |
| `Spools.MarkedRender` | packages/gpt-codex-hwp/src/workers/document-compute-backend.ts:849-906 | The smallest text with a mark in front is valid, and comes back without it. |
| `SpoolDelivery.RenderEncodes` | packages/gpt-codex-hwp/src/workers/document-compute-backend.ts:849-868 | The encoder succeeds exactly for a header of at most 8 MiB and a whole of at most 512 MiB, and writes prefix, header and SVG. |
| `SpoolDelivery.RenderDelivered` | packages/gpt-codex-hwp/src/workers/document-compute-backend.ts:849-906 | Every valid SVG within the limits is written, and delivered without its mark. |
| `SpoolDelivery.RenderAccepts` | packages/gpt-codex-hwp/src/workers/document-compute-backend.ts:870-906 | Of a prefix, a header and a body the decoder accepts exactly version 1 with the size of a non-empty body that decodes to a valid SVG within the limits. |
| `Spools.RenderCovers` | packages/gpt-codex-hwp/src/workers/document-compute-backend.ts:870-906 | The decoder accepts only bytes that prefix, header and declared SVG cover exactly. |
| `Spools.ValidateRenderSpool` | packages/gpt-codex-hwp/src/shared/document-render-output.ts:234-301 | Under every schedule of short reads the streaming validation accepts a spool if and only if the decoder accepts it and its header declares an SVG within the size limit; then it takes the same SVG bytes and metadata. |
| `Spools.OnlyMarkedTooLong` | packages/gpt-codex-hwp/src/shared/document-render-output.ts:269 | What the decoder accepts and the streaming validation does not is a text that exceeds the size limit only with its byte order mark. |
| `Spools.ValidateSvgPart` | packages/gpt-codex-hwp/src/shared/document-render-output.ts:277-295 | The chunked validation, however short the reads, accepts a part if and only if it lies in the file and decodes to a text the validator accepts. |
| `Spools.ReadExactRange` | packages/gpt-codex-hwp/src/shared/document-render-output.ts:303-317 | A range is read completely or not at all, however short the reads are. |
| `ParseSpools.ParseRoundTrip` | packages/gpt-codex-hwp/src/workers/document-compute-backend.ts:811-847 | An encoded valid parse result is decoded to itself without a leading byte order mark in its markdown, as far as that is valid; so to itself if and only if there is none. |
| `ParseSpools.MarkedParse` | packages/gpt-codex-hwp/src/workers/document-compute-backend.ts:811-847 | A result whose markdown starts with a mark comes back as another. |
| `SpoolDelivery.ParseEncodes` | packages/gpt-codex-hwp/src/workers/document-compute-backend.ts:811-847 | The encoder succeeds exactly when the header has at most 8 MiB and header, markdown and images together at most 512 MiB. |
| `SpoolDelivery.ParseDelivered` | packages/gpt-codex-hwp/src/workers/document-compute-backend.ts:811-981 | Every result whose parts fit, valid with and without its mark, is written and delivered without its mark. |
| `SpoolDelivery.ParseAccepts` | packages/gpt-codex-hwp/src/workers/document-compute-backend.ts:918-981 | A prefix, a header that declares the parts and the parts are accepted exactly when the parts are a valid result. |
| `ParseSpools.ParseCovers` | packages/gpt-codex-hwp/src/workers/document-compute-backend.ts:918-981 | The decoder accepts only bytes that prefix, header, markdown and images cover exactly. |
| `ParseSpools.EncodeParseSpool` | packages/gpt-codex-hwp/src/workers/document-compute-backend.ts:811-847 | Adding up sizes and copying the parts to their offsets writes prefix, header, markdown and images in order. |
| `ParseSpools.DecodeParseSpool` | packages/gpt-codex-hwp/src/workers/document-compute-backend.ts:918-981 | The decoder's moving offset cuts out the declared parts. |
| `ParseSpools.ImagesTaken` | packages/gpt-codex-hwp/src/workers/document-compute-backend.ts:918-981 | Packed images are cut out again, whatever stands in front of them. |
| `FileSystem.Patched` | packages/gpt-codex-hwp/src/shared/output.ts:675-694 | A positional write replaces exactly the bytes at its position. |
| `FileSystem.FileSystem.OpenExclusive` | packages/gpt-codex-hwp/src/shared/output.ts:576-582 | An exclusive open creates a new empty file or has no effect. |
| `ExclusiveOutput.WriteFilesExclusively` | packages/gpt-codex-hwp/src/shared/output.ts:189-286 | Under every schedule: nothing that existed is touched, no handle stays open, on success every file holds exactly its data, on failure each created file is empty, complete or counted; when nobody interferes and no step fails the call succeeds. |
| `ExclusiveOutput.WriteFileRangeAndFilesExclusively` | packages/gpt-codex-hwp/src/shared/output.ts:426-536 | The same for a descriptor range with companion files: success means the file holds exactly the requested range, a truncated range is reported only when it is one. |
| `ExclusiveOutput.WriteFileRangeExclusively` | packages/gpt-codex-hwp/src/shared/output.ts:353-424 | The same for one file. |
| `ExclusiveOutput.WrittenReadsBack` | packages/gpt-codex-hwp/src/shared/output.ts:189-286 | When no other process moves paths, every output path reads back its data after success, every old path reads as before, and no other path appears. |
| `ExclusiveOutput.PartialFilesAreCounted` | packages/gpt-codex-hwp/src/shared/output.ts:129-169 | After a failure no more files than counted as possibly partial hold anything but nothing or everything, and those hold a prefix of their data. |
| `ExclusiveOutput.ReleaseFailedReservations` | packages/gpt-codex-hwp/src/shared/output.ts:129-158 | Every reserved file is settled as counted, and every handle closed. |
| `ExclusiveOutput.RethrowAfterFailedWrite` | packages/gpt-codex-hwp/src/shared/output.ts:160-169 | A failure keeps its own error exactly when no write had started. |
| `ExclusiveOutput.CountsStarted` | packages/gpt-codex-hwp/src/shared/output.ts:160-169 | The three counts are zero exactly when nothing was ever started. |
| `ExclusiveOutput.ReserveAll` | packages/gpt-codex-hwp/src/shared/output.ts:224-264 | All outputs are created empty and in order, before any write, or the created ones are empty files. |
| `ExclusiveOutput.CopyRangeToHandle` | packages/gpt-codex-hwp/src/shared/output.ts:653-673 | However short the reads and writes are, the file holds a prefix of the range, all of it on success. |
| `ExclusiveOutput.WriteChunkFully` | packages/gpt-codex-hwp/src/shared/output.ts:675-694 | Short writes append the chunk in order until it is complete. |
| `ExclusiveOutput.WriteRemaining` | packages/gpt-codex-hwp/src/shared/output.ts:266-272 | Each file is written after its identity was checked again. |
| `ExclusiveOutput.CloseAll` | packages/gpt-codex-hwp/src/shared/output.ts:273-276 | A file counts as closed only after its close succeeded. |
| `ExclusiveOutput.AssertDistinctOutputPaths` | packages/gpt-codex-hwp/src/shared/output.ts:710-719 | The set of keys finds a repeated path exactly when there is one. |
| `FontMeaning.NoIssuesMean` | packages/gpt-codex-hwp/src/shared/hwpx-font-integrity.ts:234-421 | An inspection reports nothing if and only if the table is sound and every reference of every character property names a font of its group. |
| `FontMeaning.RepairableMeans` | packages/gpt-codex-hwp/src/shared/hwpx-font-integrity.ts:234-421 | All reported issues are repairable if and only if everything but the resolution of references is in order. |
| `FontMeaning.NumeralIsDecimal` | packages/gpt-codex-hwp/src/shared/hwpx-font-integrity.ts:87 | Every numeral that the inspection accepts is the decimal representation of a natural number. |
| `FontMeaning.DecimalIsNumeral` | packages/gpt-codex-hwp/src/shared/hwpx-font-integrity.ts:87 | And every such representation is accepted. |
| `FontRepair.RepairIsComplete` | packages/gpt-codex-hwp/src/shared/hwpx-font-integrity.ts:108-171 | If all issues are repairable, setting the dangling references to "0" leaves no issue. |
| `FontRepair.ReferenceAfter` | packages/gpt-codex-hwp/src/shared/hwpx-font-integrity.ts:148-171 | After the repair each reference is "0" if it dangled and else what it was. |
| `FontRepair.RefsDiffer` | packages/gpt-codex-hwp/src/shared/hwpx-font-integrity.ts:148-155 | The reference elements of different character properties are different nodes. |
| `FontNormalization.NormalizeGeneratedFontReferences` | packages/gpt-codex-hwp/src/shared/hwpx-font-integrity.ts:108-210 | The exact outcome: unsafe if and only if some issue is not repairable, unchanged if and only if there is none, and else normalized if and only if the body's references resolve; the number of changes is the number of issues, only dangling references change, and the error about a changed document never occurs. |
| `FontWitness.RepairedButRefused` | packages/gpt-codex-hwp/src/shared/hwpx-font-integrity.ts:108-210 | A header with one dangling reference as its only issue, and a body that refers to a property which is not defined. |
| `FontWitness.NormalizeHead` | packages/gpt-codex-hwp/src/shared/hwpx-font-integrity.ts:108-210 | The call on that document ends in an error after the repair. |
| `FontNormalization.SetReferences` | packages/gpt-codex-hwp/src/shared/hwpx-font-integrity.ts:146-171 | The loop finds every reported reference again and repairs exactly the dangling ones. |
| `FontNormalization.PlacesMatch` | packages/gpt-codex-hwp/src/shared/hwpx-font-integrity.ts:353-418 | The repairable issues list the dangling references one by one, each once, in order. |
| `FontNormalization.BodyMeans` | packages/gpt-codex-hwp/src/shared/hwpx-font-integrity.ts:423-458 | The body part of an inspection is empty exactly when every reference of the body names a defined property. |
| `FontNormalization.InspectHwpxFontReferences` | packages/gpt-codex-hwp/src/shared/hwpx-font-integrity.ts:98-106 | Header issues followed by body issues. |
| `FontNormalization.InspectCharacterShapeReferences` | packages/gpt-codex-hwp/src/shared/hwpx-font-integrity.ts:433-457 | The loop reports the unresolved references of the body in order. |
| `FontIntegrity.InspectDocument` | packages/gpt-codex-hwp/src/shared/hwpx-font-integrity.ts:234-421 | The inspection loops compute the specified list of issues. |
| `FontIntegrity.InspectTable` | packages/gpt-codex-hwp/src/shared/hwpx-font-integrity.ts:280-351 | The loop over the languages reports the table's issues and collects the font numbers of each group. |
| `FontIntegrity.DirectHeaderChildren` | packages/gpt-codex-hwp/src/shared/hwpx-font-integrity.ts:475-487 | Exactly the element children of that name in the header namespace, in order. |
| `Anchor.AnchorAgreement` | packages/gpt-codex-hwp/src/shared/hwpx-anchor.ts:57-86 | A resolved occurrence is selected by the other program, in the paragraph that holds that match; without a request it is the only match there is. |
| `Anchor.ResolvedIffSelected` | packages/gpt-codex-hwp/src/shared/hwpx-anchor.ts:57-86 | A requested occurrence is resolved if and only if the other program selects a paragraph for it, and not found if and only if that reports the same total. |
| `Anchor.ResolveHwpxAnchorOccurrence` | packages/gpt-codex-hwp/src/shared/hwpx-anchor.ts:36-87 | The nested loops return the requested occurrence if it exists, occurrence 0 if there is one match and no request, and else the right error. |
| `Anchor.SelectAnchorParagraph` | packages/gpt-codex-hwp/scripts/hwpx-safe-edit/insert_image.py:53-71 | The accumulating loop computes the specified selection. |
| `Anchor.SelectionIs` | packages/gpt-codex-hwp/scripts/hwpx-safe-edit/insert_image.py:53-71 | The selection is the paragraph of the occurrence with that number, or reports how many there are. |
| `Anchor.CountIsMatches` | packages/gpt-codex-hwp/scripts/hwpx-safe-edit/insert_image.py:62 | Counting while scanning characters counts the leftmost non-overlapping matches. |
| `Anchor.MatchesAreMost` | packages/gpt-codex-hwp/src/shared/hwpx-anchor.ts:69-79 | No choice of matches that do not overlap has more than the ones counted. |
| `Anchor.MatchesApart` | packages/gpt-codex-hwp/src/shared/hwpx-anchor.ts:69-79 | The matches counted do not overlap. |
| `Anchor.EligibleParagraphs` | packages/gpt-codex-hwp/src/shared/hwpx-anchor.ts:89-110 | One paragraph for every start that has one which is not excluded, the last one listed, in order of the starts. |
| `Anchor.EligibleIsUnique` | packages/gpt-codex-hwp/src/shared/hwpx-anchor.ts:105-109 | That determines the list. |

## Left out

- The wording and the subclasses of errors: an error is a value that says which check failed, or just that one did;
  inside the ZIP inspector all `UnsafeZipError`s are one.
- The file guards before inspection, entry-name rules for Windows, and the helpers around archives that only read and
  write files.
- The order in which the preservation audit lists differing entries, which is the order of their names.
- `ChildLifecycle.OneTreeAtATime`: says nothing about progress, since an absent control pipe and a retained slot block
  the gate for good; which runs pass the slot on is stated run by run in `ChildRuns`. A call is a value of a transition system, and its private spool files are only cleanups that
  succeed or fail.
- The contents of the control stream, result verification and resource limits of a child: they decide what a call
  returns, not when it gives up the slot.
- The supervisors for Windows and POSIX and the descendant's side of registration: a supervisor is an oracle.
- Timers and promises of the coordinator: expiry, retention and settlement are events that may come in any order.
- Parsing of registration frames: `Options.parse` is any function from lines to frames.
- `MarkdownDocument.EscapeIsStable`: positions count characters, not UTF-16 units, and a text is a sequence of Unicode
  scalar values, so lone surrogates do not occur; letters fold as in the source's own tables.
- Copying the preview text from a reference document.
- `BoundedFrame.EncodeBoundedFrame`: the payload is already JSON text in UTF-8; tagging binary members as base64 is
  not modelled.
- The attribute and element blacklists of SVG tags, the test whether a value is a reference, and the letter case of
  values: `Policy` has any functions in their place. Letter case of element names is folded for ASCII letters and the
  Kelvin sign, the only characters of names that have one.
- `Spools.ValidateRenderSpool`: JSON members of a wrong type or name are one error, and what makes a payload valid
  beyond its sizes is any predicate; aborts between reads are left out.
- `ParseSpools.ParseRoundTrip`: validity of metadata, warnings and image names is any predicate.
- The fill operation's spools and inputs.
- `ExclusiveOutput.WriteFilesExclusively`: failed reservations are released one after another rather than at the same
  time; creating parent directories, allowed roots and lexical source aliases are steps that succeed or fail; other
  processes may move and remove paths but do not write into files.
- The hook before each write, which exists for unit tests only.
- `FontNormalization.NormalizeGeneratedFontReferences`: serializing the header, rebuilding the archive and loading it
  again give back the same header and sections; a section that cannot be read is left out.
- `Anchor.ResolveHwpxAnchorOccurrence`: a request is an integer, so fractions and NaN, which the source rejects, do not
  occur; it works on the paragraph texts of the sections in order, and that both programs
  extract the same texts is not part of this model.
- The rest of image insertion: identities, sizes and XML of the new picture.
- Document-protocol shapes, manifests, receipts, install locks, path policies and tool handlers: mostly single-branch
  checks, or input and output.
