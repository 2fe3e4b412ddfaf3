/**
 Writing several new files at once, or none that anyone could mistake for a finished one: every output
 is created exclusively before the first byte is written, all writes go through the handles of the files
 just created, and after a failure the started files are emptied and counted.
 */
module ExclusiveOutput {
  import opened Basics
  import opened Bytes
  import opened FileSystem

  const BUFFER_BYTES: nat := 1024 * 1024
  const MAX_SAFE_INTEGER: int := 9007199254740991

  datatype OutputFile = OutputFile(path: string, data: Bytes)

  /** `sizeBytes` bytes at `offset` of an open descriptor whose file holds `source`. */
  datatype InputRange = InputRange(source: Bytes, offset: int, sizeBytes: int) {
    predicate Valid() {
      0 <= offset <= MAX_SAFE_INTEGER && 0 < sizeBytes <= MAX_SAFE_INTEGER
    }

    /** The part of the range that exists. */
    function Bytes(): (r: Bytes)
      requires Valid()
      ensures |r| <= sizeBytes && (|r| == sizeBytes <==> offset + sizeBytes <= |source|)
    {
      var start := if offset <= |source| then offset else |source|;
      var end := if offset + sizeBytes <= |source| then offset + sizeBytes else |source|;
      source[start..end]
    }
  }

  datatype Progress = Progress(started: bool, closed: bool)

  datatype Release = Release(emptied: nat, possiblyPartial: nat, complete: nat, neverWritten: nat)

  datatype Outcome =
    | Written(paths: seq<string>)
    | Failed(error: Error)
    | PlaceholderLeft(cause: Error, release: Release)

  /** What a failed call leaves of one file it created. An orphan failed its checks right after the creation. */
  datatype Left = Complete | Emptied | PossiblyPartial | NeverWritten | Orphan

  // ---------------------------------------------------------------- what the theorems say

  /** `made` are the files created since `d`: all new, all different, and nothing that existed was touched. */
  ghost predicate OnlyCreates(d: Disk, e: Disk, made: seq<Reservation>, shared: bool) {
    && Keeps(d, e, {})
    && e.created == d.created + made
    && (forall i | 0 <= i < |made| :: made[i].inode in e.files && made[i].inode !in d.files)
    && (forall i, j | 0 <= i < j < |made| :: made[i].inode != made[j].inode)
    && (!shared ==> PathsAdded(d, e, made))
  }

  /** The new paths are exactly those of `made`, each naming its file; the old ones are as they were. */
  ghost predicate PathsAdded(d: Disk, e: Disk, made: seq<Reservation>) {
    && (forall p | p in d.paths :: p in e.paths && e.paths[p] == d.paths[p])
    && (forall i | 0 <= i < |made| ::
          made[i].path !in d.paths && made[i].path in e.paths && e.paths[made[i].path] == made[i].inode)
    && (forall p | p in e.paths :: p in d.paths || exists i :: 0 <= i < |made| && made[i].path == p)
  }

  /** File by file, `made` follows the requested paths. */
  ghost predicate Follows(made: seq<Reservation>, paths: seq<string>) {
    |made| <= |paths| && forall i | 0 <= i < |made| :: made[i].path == paths[i]
  }

  ghost predicate Settled(left: Left, content: Bytes, data: Bytes) {
    match left
    case Complete => content == data
    case PossiblyPartial => content <= data
    case _ => content == []
  }

  ghost predicate Accounted(e: Disk, made: seq<Reservation>, ledger: seq<Left>, data: seq<Bytes>) {
    && |ledger| == |made| <= |data|
    && (forall i | 0 <= i < |made| ::
          made[i].inode in e.files && Settled(ledger[i], e.files[made[i].inode], data[i]))
    && (forall i | 0 <= i < |made| - 1 :: ledger[i] != Orphan)
  }

  ghost function Tally(ledger: seq<Left>): Release {
    var m := multiset(ledger);
    Release(m[Emptied], m[PossiblyPartial], m[Complete], m[NeverWritten])
  }

  /** What the caller may rely on after a call that created `made`. */
  ghost predicate Honest(e: Disk, made: seq<Reservation>, ledger: seq<Left>, paths: seq<string>, data: seq<Bytes>,
      outcome: Outcome)
    requires |paths| == |data|
  {
    && Follows(made, paths)
    && Accounted(e, made, ledger, data)
    && match outcome
       case Written(written) =>
         written == paths && |made| == |paths| && forall i | 0 <= i < |ledger| :: ledger[i] == Complete
       case Failed(_) =>
         forall i | 0 <= i < |ledger| :: ledger[i] == NeverWritten || ledger[i] == Orphan
       case PlaceholderLeft(_, release) =>
         && release == Tally(ledger)
         && exists i :: 0 <= i < |ledger| && ledger[i] != NeverWritten && ledger[i] != Orphan
  }

  // ---------------------------------------------------------------- the state of an attempt

  ghost function Inodes(rs: seq<Reservation>): set<nat> {
    set i | 0 <= i < |rs| :: rs[i].inode
  }

  lemma {:induction false} InodesOfMore(rs: seq<Reservation>, r: Reservation)
    ensures Inodes(rs + [r]) == Inodes(rs) + {r.inode}
  {
    var more := rs + [r];
    assert more[|rs|] == r;
    forall n | n in Inodes(rs) + {r.inode} ensures n in Inodes(more) {
      if n in Inodes(rs) {
        var i :| 0 <= i < |rs| && rs[i].inode == n;
        assert more[i].inode == n;
      }
    }
  }

  ghost predicate InStep(p: Progress, content: Bytes, data: Bytes) {
    && (!p.started ==> content == [] && !p.closed)
    && (p.closed ==> content == data)
    && content <= data
  }

  ghost predicate Tracked(e: Disk, rs: seq<Reservation>, ps: seq<Progress>, data: seq<Bytes>) {
    && |rs| == |ps| <= |data|
    && (forall i, j | 0 <= i < j < |rs| :: rs[i].inode != rs[j].inode)
    && (forall i | 0 <= i < |rs| ::
          rs[i].inode in e.files && InStep(ps[i], e.files[rs[i].inode], data[i]))
    && (forall i | 0 <= i < |rs| :: ps[i].closed ==> rs[i].inode !in e.open)
  }

  // ---------------------------------------------------------------- copying a range

  /** Writing `k` more bytes of `chunk` right behind its first `written` ones. */
  lemma {:induction false} WrittenSoFar(was: Bytes, chunk: Bytes, written: nat, k: nat)
    requires written + k <= |chunk|
    ensures Patched(was + chunk[..written], |was| + written, chunk[written..][..k]) == was + chunk[..written + k]
  {
    hide Patched;
    assert chunk[..written] + chunk[written..][..k] == chunk[..written + k];
    assert |was + chunk[..written]| == |was| + written;
    assert was + chunk[..written] + chunk[written..][..k] == was + (chunk[..written] + chunk[written..][..k]);
  }

  method WriteChunkFully(fs: FileSystem, inode: nat, buffer: array<Byte>, length: nat, position: nat)
    returns (failure: Option<Error>)
    requires fs.disk.Sound() && inode in fs.disk.files && inode in fs.disk.open
    requires length <= buffer.Length && |fs.disk.files[inode]| == position
    modifies fs
    ensures Moves(old(fs.disk), fs.disk, {inode}, fs.shared) && fs.disk.open == old(fs.disk.open)
    ensures exists k :: 0 <= k <= length && (failure.None? ==> k == length) &&
                        fs.disk.files[inode] == old(fs.disk.files[inode]) + old(buffer[..length])[..k]
    ensures failure.Some? ==> fs.disk.trouble && failure.value != Truncated
  {
    hide Patched;
    ghost var chunk := buffer[..length];
    ghost var was := fs.disk.files[inode];
    var written := 0;
    while written < length
      invariant 0 <= written <= length
      invariant Moves(old(fs.disk), fs.disk, {inode}, fs.shared) && fs.disk.open == old(fs.disk.open)
      invariant fs.disk.files[inode] == was + chunk[..written]
    {
      assert buffer[written..length] == chunk[written..];
      var result := fs.WriteAt(inode, buffer[written..length], position + written);
      ghost var k: nat :| k <= length - written && (result.Ok? ==> result.value == k) &&
        fs.disk.files[inode] == Patched(was + chunk[..written], position + written, chunk[written..][..k]);
      WrittenSoFar(was, chunk, written, k);
      if result.Err? {
        return Some(result.error);
      }
      if result.value == 0 {
        return Some(NoProgress);
      }
      written := written + result.value;
    }
    failure := None;
  }

  lemma {:induction false} CopiedSoFar(want: Bytes, chunk: Bytes, copied: nat, k: nat)
    requires k <= |chunk| && copied + |chunk| <= |want| && chunk == want[copied..copied + |chunk|]
    ensures want[..copied] + chunk[..k] == want[..copied + k]
  {
  }

  lemma {:induction false} SliceOfRange(input: InputRange, at: nat, count: nat)
    requires input.Valid() && at + count <= input.sizeBytes && input.offset + at + count <= |input.source|
    ensures at + count <= |input.Bytes()|
    ensures input.source[input.offset + at..input.offset + at + count] == input.Bytes()[at..at + count]
  {
  }

  /** Writes the `length` bytes that follow the `copied` first ones of `want`; a failure leaves less of them. */
  method WriteNext(fs: FileSystem, inode: nat, buffer: array<Byte>, length: nat, copied: nat, ghost want: Bytes)
    returns (failure: Option<Error>)
    requires fs.disk.Sound() && inode in fs.disk.files && inode in fs.disk.open
    requires length <= buffer.Length && copied + length <= |want| && buffer[..length] == want[copied..copied + length]
    requires fs.disk.files[inode] == want[..copied]
    modifies fs
    ensures Moves(old(fs.disk), fs.disk, {inode}, fs.shared) && fs.disk.open == old(fs.disk.open)
    ensures fs.disk.files[inode] <= want
    ensures failure.None? ==> fs.disk.files[inode] == want[..copied + length]
    ensures failure.Some? ==> fs.disk.trouble && failure.value != Truncated
  {
    ghost var chunk := buffer[..length];
    failure := WriteChunkFully(fs, inode, buffer, length, copied);
    ghost var k :| 0 <= k <= length &&
      fs.disk.files[inode] == want[..copied] + chunk[..k] && (failure.None? ==> k == length);
    CopiedSoFar(want, chunk, copied, k);
  }

  /** One read of the copy loop with the check before its bytes are written. */
  method ReadChunk(fs: FileSystem, reservation: Reservation, input: InputRange, buffer: array<Byte>, copied: nat)
    returns (count: Result<nat, Error>)
    requires fs.disk.Sound() && input.Valid() && copied < input.sizeBytes && buffer.Length > 0
    modifies fs, buffer
    ensures Moves(old(fs.disk), fs.disk, {}, fs.shared) && fs.disk.open == old(fs.disk.open)
    ensures count.Ok? ==> 0 < count.value <= buffer.Length && copied + count.value <= |input.Bytes()| &&
                          buffer[..count.value] == input.Bytes()[copied..copied + count.value]
    ensures count == Err(Truncated) ==> |input.Bytes()| < input.sizeBytes
    ensures count.Err? && !fs.disk.trouble ==>
              count == Err(Truncated) ||
              fs.shared || reservation.path !in fs.disk.paths || fs.disk.paths[reservation.path] != reservation.inode
  {
    var requested := if buffer.Length <= input.sizeBytes - copied then buffer.Length else input.sizeBytes - copied;
    count := fs.ReadAt(input.source, buffer, requested, input.offset + copied);
    if count.Err? {
      return;
    }
    if count.value == 0 {
      return Err(Truncated);
    }
    SliceOfRange(input, copied, count.value);
    hide InputRange.Bytes;
    var unsafe := fs.CheckIdentity(reservation);
    if unsafe.Some? {
      return Err(unsafe.value);
    }
  }

  method CopyRangeToHandle(fs: FileSystem, reservation: Reservation, input: InputRange) returns (failure: Option<Error>)
    requires fs.disk.Sound() && reservation.inode in fs.disk.files && reservation.inode in fs.disk.open
    requires input.Valid() && fs.disk.files[reservation.inode] == []
    modifies fs
    ensures Moves(old(fs.disk), fs.disk, {reservation.inode}, fs.shared) && fs.disk.open == old(fs.disk.open)
    ensures fs.disk.files[reservation.inode] <= input.Bytes()
    ensures failure.None? ==> fs.disk.files[reservation.inode] == input.Bytes() && |input.Bytes()| == input.sizeBytes
    ensures failure == Some(Truncated) ==> |input.Bytes()| < input.sizeBytes
    ensures failure.Some? && !fs.disk.trouble ==>
              failure == Some(Truncated) ||
              fs.shared || reservation.path !in fs.disk.paths || fs.disk.paths[reservation.path] != reservation.inode
  {
    hide InputRange.Bytes, Disk.Sound, Patched;
    ghost var want := input.Bytes();
    var inode := reservation.inode;
    var buffer := new Byte[BUFFER_BYTES];
    var copied := 0;
    while copied < input.sizeBytes
      invariant 0 <= copied <= input.sizeBytes && copied <= |want|
      invariant Moves(old(fs.disk), fs.disk, {inode}, fs.shared) && fs.disk.open == old(fs.disk.open)
      invariant fs.disk.files[inode] == want[..copied]
    {
      var count := ReadChunk(fs, reservation, input, buffer, copied);
      if count.Err? {
        return Some(count.error);
      }
      failure := WriteNext(fs, inode, buffer, count.value, copied, want);
      if failure.Some? {
        return;
      }
      copied := copied + count.value;
    }
    failure := None;
  }

  // ---------------------------------------------------------------- creating every output first

  lemma {:induction false} CreatesThenMoves(a: Disk, b: Disk, c: Disk, made: seq<Reservation>, mine: set<nat>,
      shared: bool)
    requires OnlyCreates(a, b, made, shared) && Moves(b, c, mine, shared) && mine <= Inodes(made)
    ensures OnlyCreates(a, c, made, shared)
  {
  }

  lemma {:induction false} CreatesThenCreates(a: Disk, b: Disk, c: Disk, first: seq<Reservation>,
      more: seq<Reservation>, shared: bool)
    requires OnlyCreates(a, b, first, shared) && OnlyCreates(b, c, more, shared)
    ensures OnlyCreates(a, c, first + more, shared)
  {
    hide PathsAdded;
    if !shared {
      PathsAddedTwice(a, b, c, first, more);
    }
  }

  lemma {:induction false} PathsAddedTwice(a: Disk, b: Disk, c: Disk, first: seq<Reservation>, more: seq<Reservation>)
    requires PathsAdded(a, b, first) && PathsAdded(b, c, more)
    ensures PathsAdded(a, c, first + more)
  {
    var made := first + more;
    forall p | p in c.paths && p !in a.paths ensures exists i :: 0 <= i < |made| && made[i].path == p {
      if p in b.paths {
        var i :| 0 <= i < |first| && first[i].path == p;
        assert made[i].path == p;
      } else {
        var i :| 0 <= i < |more| && more[i].path == p;
        assert made[|first| + i].path == p;
      }
    }
  }

  /** No output path exists yet, and no two are the same. */
  ghost predicate Vacant(d: Disk, paths: seq<string>) {
    && (forall i | 0 <= i < |paths| :: paths[i] !in d.paths)
    && (forall i, j | 0 <= i < j < |paths| :: paths[i] != paths[j])
  }

  /** The files of `made` exist and are empty. */
  ghost predicate Blank(d: Disk, made: seq<Reservation>) {
    forall i | 0 <= i < |made| :: made[i].inode in d.files && d.files[made[i].inode] == []
  }

  lemma {:induction false} NothingCreated(a: Disk, b: Disk, c: Disk, shared: bool)
    requires (a == b || Moves(a, b, {}, shared)) && Moves(b, c, {}, shared)
    ensures OnlyCreates(a, c, [], shared) && Blank(c, [])
  {
  }

  /** A creation between two groups of steps that touch no file. */
  lemma {:induction false} OneCreated(a: Disk, b: Disk, c: Disk, d: Disk, r: Reservation, shared: bool)
    requires Moves(a, b, {}, shared) && OnlyCreates(b, c, [r], shared) && Moves(c, d, {}, shared) && Blank(c, [r])
    ensures OnlyCreates(a, d, [r], shared) && Blank(d, [r])
  {
  }

  lemma {:induction false} NothingYet(a: Disk, shared: bool)
    requires a.Sound()
    ensures OnlyCreates(a, a, [], shared) && Blank(a, [])
  {
  }

  lemma {:induction false} ReservedMore(a: Disk, b: Disk, c: Disk, first: seq<Reservation>, more: seq<Reservation>,
      shared: bool)
    requires OnlyCreates(a, b, first, shared) && Blank(b, first)
    requires OnlyCreates(b, c, more, shared) && Blank(c, more)
    ensures OnlyCreates(a, c, first + more, shared) && Blank(c, first + more)
  {
    CreatesThenCreates(a, b, c, first, more, shared);
    hide PathsAdded;
  }

  lemma {:induction false} ReservedMoves(a: Disk, b: Disk, c: Disk, made: seq<Reservation>, shared: bool)
    requires OnlyCreates(a, b, made, shared) && Blank(b, made) && Moves(b, c, {}, shared)
    ensures OnlyCreates(a, c, made, shared) && Blank(c, made)
  {
    CreatesThenMoves(a, b, c, made, {}, shared);
  }

  /** When nobody else moves paths, an output path that is taken was there before, or was requested twice. */
  lemma {:induction false} TakenPath(a: Disk, b: Disk, made: seq<Reservation>, paths: seq<string>, shared: bool)
    requires OnlyCreates(a, b, made, shared) && Follows(made, paths) && |made| < |paths|
    ensures !shared && paths[|made|] in b.paths ==> !Vacant(a, paths)
  {
  }

  /** The checks before one exclusive creation. */
  method CheckFuturePath(fs: FileSystem) returns (error: Option<Error>)
    requires fs.disk.Sound()
    modifies fs
    ensures Moves(old(fs.disk), fs.disk, {}, fs.shared) && fs.disk.open == old(fs.disk.open)
    ensures fs.disk.trouble == (old(fs.disk.trouble) || error.Some?)
    ensures error.Some? ==> error.value.System?
  {
    error := fs.Consult();
    if error.Some? {
      return;
    }
    error := fs.Consult();
  }

  /** `open` with the flag for exclusive creation; an existing path is told apart from the other failures. */
  method OpenExclusiveOutput(fs: FileSystem, path: string, sources: set<nat>) returns (r: Result<Reservation, Error>)
    requires fs.disk.Sound()
    modifies fs
    ensures fs.disk.Sound() && (old(fs.disk.trouble) ==> fs.disk.trouble)
    ensures r.Err? ==> Moves(old(fs.disk), fs.disk, {}, fs.shared) && fs.disk.open == old(fs.disk.open)
    ensures r.Err? ==> r.error != Truncated
    ensures r.Err? && !fs.disk.trouble && !fs.shared ==> path in old(fs.disk.paths)
    ensures r.Ok? ==> OnlyCreates(old(fs.disk), fs.disk, [r.value], fs.shared) && Blank(fs.disk, [r.value])
    ensures r.Ok? ==> r.value.path == path && r.value.inode !in old(fs.disk.open)
    ensures r.Ok? ==> fs.disk.open == old(fs.disk.open) + {r.value.inode}
    ensures r.Ok? && !fs.shared ==> path in fs.disk.paths && fs.disk.paths[path] == r.value.inode
  {
    r := fs.OpenExclusive(path);
    if r.Err? && r.error == Exists {
      var error := fs.RejectExistingTarget(path, sources);
      r := Err(if error.Some? then error.value else Conflict(path));
    }
    if r.Ok? {
      assert [r.value][0].path == path;
    }
  }

  /** The checks, one creation, and the check that the path names the new file. */
  method ReserveOne(fs: FileSystem, path: string, sources: set<nat>)
    returns (r: Result<Reservation, Error>, ghost made: seq<Reservation>)
    requires fs.disk.Sound()
    modifies fs
    ensures fs.disk.Sound() && (old(fs.disk.trouble) ==> fs.disk.trouble)
    ensures OnlyCreates(old(fs.disk), fs.disk, made, fs.shared) && Blank(fs.disk, made)
    ensures |made| <= 1 && (r.Ok? ==> made == [r.value])
    ensures |made| == 1 ==> made[0].path == path
    ensures r.Ok? ==> fs.disk.open == old(fs.disk.open) + {r.value.inode}
    ensures r.Err? ==> fs.disk.open == old(fs.disk.open) && r.error != Truncated
    ensures r.Err? && !fs.disk.trouble && !fs.shared ==> path in old(fs.disk.paths)
  {
    hide OnlyCreates, Blank;
    made := [];
    ghost var start := fs.disk;
    var error := CheckFuturePath(fs);
    ghost var checked := fs.disk;
    if error.Some? {
      NothingCreated(start, start, checked, fs.shared);
      return Err(error.value), made;
    }
    r := OpenExclusiveOutput(fs, path, sources);
    ghost var created := fs.disk;
    if r.Err? {
      NothingCreated(start, checked, created, fs.shared);
      return;
    }
    made := [r.value];
    error := fs.CheckIdentity(r.value);
    if error.Some? {
      var ignored := fs.Close(r.value.inode);
      r := Err(error.value);
    }
    OneCreated(start, checked, created, fs.disk, made[0], fs.shared);
  }

  /** Creates all outputs, empty, in order; stops at the first that cannot be created or checked. */
  method ReserveAll(fs: FileSystem, paths: seq<string>, sources: set<nat>)
    returns (failure: Option<Error>, rs: seq<Reservation>, ps: seq<Progress>, ghost made: seq<Reservation>)
    requires fs.disk.Sound()
    modifies fs
    ensures fs.disk.Sound() && (old(fs.disk.trouble) ==> fs.disk.trouble)
    ensures OnlyCreates(old(fs.disk), fs.disk, made, fs.shared) && Follows(made, paths)
    ensures Blank(fs.disk, made)
    ensures rs <= made && |made| <= |rs| + 1
    ensures failure.None? ==> made == rs && |rs| == |paths| && forall r | r in rs :: r.inode in fs.disk.open
    ensures ps == seq(|rs|, _ => Progress(false, false))
    ensures old(fs.disk.open) <= fs.disk.open <= old(fs.disk.open) + Inodes(rs)
    ensures failure != Some(Truncated)
    ensures failure.Some? && !fs.disk.trouble && !fs.shared ==> !Vacant(old(fs.disk), paths)
  {
    hide OnlyCreates, Blank, Vacant;
    rs, ps, made := [], [], [];
    var index := 0;
    NothingYet(fs.disk, fs.shared);
    while index < |paths|
      invariant 0 <= index <= |paths|
      invariant fs.disk.Sound() && (old(fs.disk.trouble) ==> fs.disk.trouble)
      invariant OnlyCreates(old(fs.disk), fs.disk, made, fs.shared) && Blank(fs.disk, made) && Follows(made, paths)
      invariant made == rs && |rs| == index && ps == seq(index, _ => Progress(false, false))
      invariant fs.disk.open == old(fs.disk.open) + Inodes(rs)
    {
      ghost var before := fs.disk;
      TakenPath(old(fs.disk), before, made, paths, fs.shared);
      var r, more := ReserveOne(fs, paths[index], sources);
      ReservedMore(old(fs.disk), before, fs.disk, made, more, fs.shared);
      made := made + more;
      if r.Err? {
        return Some(r.error), rs, ps, made;
      }
      InodesOfMore(rs, r.value);
      rs := rs + [r.value];
      ps := ps + [Progress(false, false)];
      ghost var pushed := fs.disk;
      failure := fs.Consult();
      if failure.Some? {
        var ignored := fs.Close(r.value.inode);
      }
      ReservedMoves(old(fs.disk), pushed, fs.disk, made, fs.shared);
      if failure.Some? {
        return;
      }
      index := index + 1;
    }
    failure := None;
  }

  // ---------------------------------------------------------------- writing, closing and releasing

  /** Every path of `rs` still names the file that was created for it. */
  ghost predicate Named(d: Disk, rs: seq<Reservation>) {
    forall i | 0 <= i < |rs| :: rs[i].path in d.paths && d.paths[rs[i].path] == rs[i].inode
  }

  /** The first `count` files hold their data, none of them closed, and the others are untouched. */
  ghost predicate Ahead(d: Disk, rs: seq<Reservation>, ps: seq<Progress>, data: seq<Bytes>, count: nat) {
    && Tracked(d, rs, ps, data)
    && count <= |rs|
    && (forall i | 0 <= i < count :: ps[i] == Progress(true, false) && d.files[rs[i].inode] == data[i])
    && (forall i | count <= i < |rs| :: ps[i] == Progress(false, false))
  }

  /** One step on the file of reservation `k`. */
  lemma {:induction false} TrackedStep(d: Disk, e: Disk, rs: seq<Reservation>, ps: seq<Progress>, data: seq<Bytes>,
      k: nat, p: Progress, shared: bool)
    requires Tracked(d, rs, ps, data) && k < |rs|
    requires Moves(d, e, {rs[k].inode}, shared) && e.open <= d.open
    requires InStep(p, e.files[rs[k].inode], data[k]) && (p.closed ==> rs[k].inode !in e.open)
    ensures Tracked(e, rs, ps[k := p], data)
    ensures Moves(d, e, Inodes(rs), shared)
    ensures forall i | 0 <= i < |rs| && i != k :: e.files[rs[i].inode] == d.files[rs[i].inode]
  {
  }

  lemma {:induction false} TrackedStays(d: Disk, e: Disk, rs: seq<Reservation>, ps: seq<Progress>, data: seq<Bytes>,
      shared: bool)
    requires Tracked(d, rs, ps, data) && Moves(d, e, {}, shared) && e.open <= d.open
    ensures Tracked(e, rs, ps, data)
    ensures Moves(d, e, Inodes(rs), shared)
    ensures forall i | 0 <= i < |rs| :: e.files[rs[i].inode] == d.files[rs[i].inode]
  {
  }

  lemma {:induction false} MovesTwice(d: Disk, e: Disk, f: Disk, mine: set<nat>, shared: bool)
    requires Moves(d, e, mine, shared) && Moves(e, f, mine, shared)
    ensures Moves(d, f, mine, shared)
  {
  }

  /** Checks and writes one reserved file. */
  method WriteOne(fs: FileSystem, rs: seq<Reservation>, ps: seq<Progress>, data: seq<Bytes>, index: nat)
    returns (failure: Option<Error>, qs: seq<Progress>)
    requires fs.disk.Sound() && index < |rs| && Ahead(fs.disk, rs, ps, data, index)
    requires forall r | r in rs :: r.inode in fs.disk.open
    modifies fs
    ensures Moves(old(fs.disk), fs.disk, Inodes(rs), fs.shared) && fs.disk.open == old(fs.disk.open)
    ensures Tracked(fs.disk, rs, qs, data)
    ensures failure.None? ==> Ahead(fs.disk, rs, qs, data, index + 1)
    ensures failure != Some(Truncated)
    ensures failure.Some? && !fs.disk.trouble && !fs.shared ==> !Named(fs.disk, rs)
  {
    hide Tracked, Moves;
    qs := ps;
    ghost var start := fs.disk;
    failure := fs.CheckIdentity(rs[index]);
    ghost var checked := fs.disk;
    TrackedStays(start, checked, rs, ps, data, fs.shared);
    if failure.Some? {
      return;
    }
    qs := ps[index := Progress(true, false)];
    AheadMeans(start, rs, ps, data, index);
    failure := fs.WriteFile(rs[index].inode, data[index]);
    TrackedStep(checked, fs.disk, rs, ps, data, index, Progress(true, false), fs.shared);
    MovesTwice(start, checked, fs.disk, Inodes(rs), fs.shared);
  }

  lemma {:induction false} AheadMeans(d: Disk, rs: seq<Reservation>, ps: seq<Progress>, data: seq<Bytes>, count: nat)
    requires Ahead(d, rs, ps, data, count) && count < |rs|
    ensures |rs| == |ps| <= |data| && rs[count].inode in d.files && d.files[rs[count].inode] == []
  {
  }

  /** Writes the files from number `first` on, each after its identity was checked again. */
  method WriteRemaining(fs: FileSystem, rs: seq<Reservation>, ps: seq<Progress>, data: seq<Bytes>, first: nat)
    returns (failure: Option<Error>, qs: seq<Progress>)
    requires fs.disk.Sound() && Ahead(fs.disk, rs, ps, data, first)
    requires forall r | r in rs :: r.inode in fs.disk.open
    modifies fs
    ensures Moves(old(fs.disk), fs.disk, Inodes(rs), fs.shared) && fs.disk.open == old(fs.disk.open)
    ensures Tracked(fs.disk, rs, qs, data)
    ensures failure.None? ==> Ahead(fs.disk, rs, qs, data, |rs|)
    ensures failure != Some(Truncated)
    ensures failure.Some? && !fs.disk.trouble && !fs.shared ==> !Named(fs.disk, rs)
  {
    qs := ps;
    failure := None;
    var index := first;
    while index < |rs|
      invariant first <= index <= |rs| && failure.None?
      invariant Moves(old(fs.disk), fs.disk, Inodes(rs), fs.shared) && fs.disk.open == old(fs.disk.open)
      invariant Ahead(fs.disk, rs, qs, data, index)
    {
      hide Tracked, InStep, Named;
      failure, qs := WriteOne(fs, rs, qs, data, index);
      if failure.Some? {
        return;
      }
      index := index + 1;
    }
  }

  /** Closes the written files in order. A file counts as closed only once closing has succeeded. */
  method CloseAll(fs: FileSystem, rs: seq<Reservation>, ps: seq<Progress>, ghost data: seq<Bytes>)
    returns (failure: Option<Error>, qs: seq<Progress>)
    requires fs.disk.Sound() && Ahead(fs.disk, rs, ps, data, |rs|)
    modifies fs
    ensures Moves(old(fs.disk), fs.disk, Inodes(rs), fs.shared)
    ensures old(fs.disk.open) - Inodes(rs) <= fs.disk.open <= old(fs.disk.open)
    ensures Tracked(fs.disk, rs, qs, data)
    ensures failure.None? ==> forall i | 0 <= i < |rs| :: qs[i].closed
    ensures failure.Some? ==> fs.disk.trouble && failure.value != Truncated
  {
    qs := ps;
    failure := None;
    var index := 0;
    while index < |rs|
      invariant 0 <= index <= |rs| && failure.None?
      invariant Moves(old(fs.disk), fs.disk, Inodes(rs), fs.shared)
      invariant old(fs.disk.open) - Inodes(rs) <= fs.disk.open <= old(fs.disk.open)
      invariant Tracked(fs.disk, rs, qs, data)
      invariant forall i | 0 <= i < |rs| ::
                  fs.disk.files[rs[i].inode] == data[i] && qs[i].started && (i < index ==> qs[i].closed)
    {
      ghost var before := fs.disk;
      failure := fs.Close(rs[index].inode);
      TrackedStays(before, fs.disk, rs, qs, data, fs.shared);
      MovesTwice(old(fs.disk), before, fs.disk, Inodes(rs), fs.shared);
      if failure.Some? {
        return;
      }
      TrackedStep(before, fs.disk, rs, qs, data, index, Progress(true, true), fs.shared);
      qs := qs[index := Progress(true, true)];
      index := index + 1;
    }
  }

  lemma {:induction false} TallyMore(ledger: seq<Left>, left: Left)
    ensures Tally(ledger + [left]) ==
            match left
            case Complete => Tally(ledger).(complete := Tally(ledger).complete + 1)
            case Emptied => Tally(ledger).(emptied := Tally(ledger).emptied + 1)
            case PossiblyPartial => Tally(ledger).(possiblyPartial := Tally(ledger).possiblyPartial + 1)
            case NeverWritten => Tally(ledger).(neverWritten := Tally(ledger).neverWritten + 1)
            case Orphan => Tally(ledger)
  {
    assert multiset(ledger + [left]) == multiset(ledger) + multiset{left};
  }

  /** Empties and closes one file of a failed attempt, and says what is left of it. */
  method ReleaseOne(fs: FileSystem, r: Reservation, p: Progress, ghost data: Bytes) returns (left: Left)
    requires fs.disk.Sound() && r.inode in fs.disk.files && InStep(p, fs.disk.files[r.inode], data)
    requires p.closed ==> r.inode !in fs.disk.open
    modifies fs
    ensures Moves(old(fs.disk), fs.disk, {r.inode}, fs.shared) && fs.disk.open == old(fs.disk.open) - {r.inode}
    ensures Settled(left, fs.disk.files[r.inode], data)
    ensures left != Orphan && (left == NeverWritten <==> !p.started)
  {
    if p.closed {
      return Complete;
    }
    if p.started {
      var ok := fs.Truncate(r.inode);
      left := if ok then Emptied else PossiblyPartial;
    } else {
      left := NeverWritten;
    }
    var ignored := fs.Close(r.inode);
  }

  /** The files not yet released are as they were. */
  ghost predicate Waiting(d: Disk, e: Disk, rs: seq<Reservation>, index: nat) {
    forall i | index <= i < |rs| :: rs[i].inode in d.files && rs[i].inode in e.files
      && e.files[rs[i].inode] == d.files[rs[i].inode]
  }

  ghost predicate AllSettled(e: Disk, rs: seq<Reservation>, ledger: seq<Left>, data: seq<Bytes>) {
    && |ledger| <= |rs| && |ledger| <= |data|
    && (forall i | 0 <= i < |ledger| :: rs[i].inode in e.files && Settled(ledger[i], e.files[rs[i].inode], data[i]))
    && (forall i | 0 <= i < |ledger| :: ledger[i] != Orphan)
  }

  lemma {:induction false} ReleasedOne(a: Disk, d: Disk, e: Disk, rs: seq<Reservation>, ps: seq<Progress>,
      data: seq<Bytes>, ledger: seq<Left>, left: Left, shared: bool)
    requires |ledger| < |rs| && Tracked(a, rs, ps, data)
    requires Moves(a, d, Inodes(rs), shared) && Moves(d, e, {rs[|ledger|].inode}, shared)
    requires AllSettled(d, rs, ledger, data) && Waiting(a, d, rs, |ledger|)
    requires left != Orphan && Settled(left, e.files[rs[|ledger|].inode], data[|ledger|])
    ensures Moves(a, e, Inodes(rs), shared)
    ensures AllSettled(e, rs, ledger + [left], data) && Waiting(a, e, rs, |ledger| + 1)
  {
    hide Settled, InStep, Disk.Sound;
  }

  lemma {:induction false} ReadyToRelease(a: Disk, d: Disk, rs: seq<Reservation>, ps: seq<Progress>, data: seq<Bytes>,
      index: nat, shared: bool)
    requires Tracked(a, rs, ps, data) && index < |rs| && Waiting(a, d, rs, index)
    requires Moves(a, d, Inodes(rs), shared) && d.open <= a.open
    ensures d.Sound() && |rs| == |ps| <= |data| && rs[index].inode in d.files
    ensures InStep(ps[index], d.files[rs[index].inode], data[index])
            && (ps[index].closed ==> rs[index].inode !in d.open)
  {
  }

  lemma {:induction false} NothingReleased(a: Disk, rs: seq<Reservation>, ps: seq<Progress>, data: seq<Bytes>,
      shared: bool)
    requires a.Sound() && Tracked(a, rs, ps, data)
    ensures |rs| == |ps| <= |data|
    ensures Moves(a, a, Inodes(rs), shared) && AllSettled(a, rs, [], data) && Waiting(a, a, rs, 0)
    ensures Tally([]) == Release(0, 0, 0, 0)
    ensures Inodes(rs[..0]) == {}
  {
  }

  /** Empties what was started, closes everything, and counts what may remain at the output paths. */
  method ReleaseFailedReservations(fs: FileSystem, rs: seq<Reservation>, ps: seq<Progress>, ghost data: seq<Bytes>)
    returns (release: Release, ghost ledger: seq<Left>)
    requires fs.disk.Sound() && Tracked(fs.disk, rs, ps, data)
    modifies fs
    ensures Moves(old(fs.disk), fs.disk, Inodes(rs), fs.shared) && fs.disk.open == old(fs.disk.open) - Inodes(rs)
    ensures |ledger| == |rs| && AllSettled(fs.disk, rs, ledger, data) && release == Tally(ledger)
    ensures forall i | 0 <= i < |rs| :: ledger[i] == NeverWritten <==> !ps[i].started
  {
    hide *;
    NothingReleased(fs.disk, rs, ps, data, fs.shared);
    var emptied: nat, possiblyPartial: nat, complete: nat, neverWritten: nat := 0, 0, 0, 0;
    ledger := [];
    var index := 0;
    while index < |rs|
      invariant 0 <= index <= |rs| && |ledger| == index
      invariant Moves(old(fs.disk), fs.disk, Inodes(rs), fs.shared)
      invariant fs.disk.open == old(fs.disk.open) - Inodes(rs[..index])
      invariant AllSettled(fs.disk, rs, ledger, data) && Waiting(old(fs.disk), fs.disk, rs, index)
      invariant Release(emptied, possiblyPartial, complete, neverWritten) == Tally(ledger)
      invariant forall i | 0 <= i < index :: ledger[i] == NeverWritten <==> !ps[i].started
    {
      ghost var before := fs.disk;
      ReadyToRelease(old(fs.disk), before, rs, ps, data, index, fs.shared);
      var left := ReleaseOne(fs, rs[index], ps[index], data[index]);
      ReleasedOne(old(fs.disk), before, fs.disk, rs, ps, data, ledger, left, fs.shared);
      match left {
        case Complete => complete := complete + 1;
        case Emptied => emptied := emptied + 1;
        case PossiblyPartial => possiblyPartial := possiblyPartial + 1;
        case NeverWritten => neverWritten := neverWritten + 1;
        case Orphan =>
      }
      TallyMore(ledger, left);
      ledger := ledger + [left];
      InodesOfMore(rs[..index], rs[index]);
      assert rs[..index + 1] == rs[..index] + [rs[index]];
      index := index + 1;
    }
    assert rs[..index] == rs;
    release := Release(emptied, possiblyPartial, complete, neverWritten);
  }

  /** A failure before any write keeps its own error; any later one is reported with what it left behind. */
  method RethrowAfterFailedWrite(fs: FileSystem, error: Error, rs: seq<Reservation>, ps: seq<Progress>,
      ghost data: seq<Bytes>)
    returns (outcome: Outcome, ghost ledger: seq<Left>)
    requires fs.disk.Sound() && Tracked(fs.disk, rs, ps, data)
    modifies fs
    ensures Moves(old(fs.disk), fs.disk, Inodes(rs), fs.shared) && fs.disk.open == old(fs.disk.open) - Inodes(rs)
    ensures |ledger| == |rs| && AllSettled(fs.disk, rs, ledger, data)
    ensures outcome == if exists i :: 0 <= i < |ps| && ps[i].started then PlaceholderLeft(error, Tally(ledger))
            else Failed(error)
    ensures forall i | 0 <= i < |rs| :: ledger[i] == NeverWritten <==> !ps[i].started
  {
    var release;
    release, ledger := ReleaseFailedReservations(fs, rs, ps, data);
    CountsStarted(ledger);
    if release.emptied + release.possiblyPartial + release.complete == 0 {
      outcome := Failed(error);
    } else {
      outcome := PlaceholderLeft(error, release);
    }
  }

  lemma {:induction false} CountsStarted(ledger: seq<Left>)
    requires forall i | 0 <= i < |ledger| :: ledger[i] != Orphan
    ensures Tally(ledger).emptied + Tally(ledger).possiblyPartial + Tally(ledger).complete == 0 <==>
            forall i | 0 <= i < |ledger| :: ledger[i] == NeverWritten
  {
    var m := multiset(ledger);
    forall i | 0 <= i < |ledger| ensures m[ledger[i]] > 0 {
      assert ledger[i] in m;
    }
  }

  // ---------------------------------------------------------------- the writers

  function Paths(files: seq<OutputFile>): (r: seq<string>)
    ensures |r| == |files| && forall i | 0 <= i < |files| :: r[i] == files[i].path
  {
    seq(|files|, i requires 0 <= i < |files| => files[i].path)
  }

  function Datas(files: seq<OutputFile>): (r: seq<Bytes>)
    ensures |r| == |files| && forall i | 0 <= i < |files| :: r[i] == files[i].data
  {
    seq(|files|, i requires 0 <= i < |files| => files[i].data)
  }

  /** No two paths look the same to `comparable`, which folds case where the platform does. */
  ghost predicate DistinctKeys(paths: seq<string>, comparable: string -> string) {
    forall i, j | 0 <= i < j < |paths| :: comparable(paths[i]) != comparable(paths[j])
  }

  method AssertDistinctOutputPaths(paths: seq<string>, comparable: string -> string) returns (ok: bool)
    ensures ok <==> DistinctKeys(paths, comparable)
  {
    var seen: set<string> := {};
    var index := 0;
    while index < |paths|
      invariant 0 <= index <= |paths|
      invariant DistinctKeys(paths[..index], comparable)
      invariant forall key :: key in seen <==> exists i :: 0 <= i < index && comparable(paths[i]) == key
    {
      if comparable(paths[index]) in seen {
        return false;
      }
      seen := seen + {comparable(paths[index])};
      index := index + 1;
    }
    assert paths[..index] == paths;
    ok := true;
  }

  /** Everything before the first creation: authorization, aliases, existing targets, the directories. */
  method Prepare(fs: FileSystem, paths: seq<string>, sources: set<nat>, comparable: string -> string)
    returns (failure: Option<Error>)
    requires fs.disk.Sound()
    modifies fs
    ensures Moves(old(fs.disk), fs.disk, {}, fs.shared) && fs.disk.open == old(fs.disk.open)
    ensures failure != Some(Truncated)
    ensures failure.Some? && !fs.disk.trouble && !fs.shared ==>
              !DistinctKeys(paths, comparable) || !Vacant(old(fs.disk), paths)
    ensures failure.None? ==> DistinctKeys(paths, comparable)
  {
    failure := fs.Consult();
    if failure.Some? {
      return;
    }
    var ok := AssertDistinctOutputPaths(paths, comparable);
    if !ok {
      return Some(Alias);
    }
    var index := 0;
    while index < |paths|
      invariant 0 <= index <= |paths|
      invariant Moves(old(fs.disk), fs.disk, {}, fs.shared) && fs.disk.open == old(fs.disk.open)
    {
      failure := fs.RejectExistingTarget(paths[index], sources);
      if failure.Some? {
        return;
      }
      index := index + 1;
    }
    failure := fs.Consult();
    if failure.Some? {
      return;
    }
    failure := fs.Consult();
  }

  /** A failure before anything was created. */
  lemma {:induction false} NothingWritten(a: Disk, e: Disk, paths: seq<string>, data: seq<Bytes>, error: Error,
      shared: bool)
    requires Moves(a, e, {}, shared) && |paths| == |data|
    ensures OnlyCreates(a, e, [], shared) && Honest(e, [], [], paths, data, Failed(error))
  {
  }

  /** A failure after some files were created: what the release reports is the truth about every one. */
  lemma {:induction false} ReleasedHonestly(
    e: Disk, made: seq<Reservation>, rs: seq<Reservation>, ps: seq<Progress>, ledger: seq<Left>, paths: seq<string>,
    data: seq<Bytes>, error: Error, outcome: Outcome)
    requires |paths| == |data| && Follows(made, paths) && |ps| == |rs| == |ledger|
    requires rs <= made && |made| <= |rs| + 1
    requires AllSettled(e, rs, ledger, data)
    requires rs < made ==> Blank(e, [made[|rs|]])
    requires forall i | 0 <= i < |rs| :: ledger[i] == NeverWritten <==> !ps[i].started
    requires outcome == if exists i :: 0 <= i < |ps| && ps[i].started then PlaceholderLeft(error, Tally(ledger))
             else Failed(error)
    ensures Honest(e, made, ledger + if |made| > |rs| then [Orphan] else [], paths, data, outcome)
    ensures Tally(ledger + if |made| > |rs| then [Orphan] else []) == Tally(ledger)
  {
    if rs < made {
      assert [made[|rs|]][0] == made[|rs|];
    }
    var orphan := if |made| > |rs| then [Orphan] else [];
    var all := ledger + orphan;
    hide Tally;
    assert Tally(all) == Tally(ledger) by {
      if orphan == [Orphan] {
        TallyMore(ledger, Orphan);
      } else {
        assert all == ledger;
      }
    }
    forall i | 0 <= i < |made| ensures made[i].inode in e.files && Settled(all[i], e.files[made[i].inode], data[i]) {
      if i < |rs| {
        assert made[i] == rs[i] && all[i] == ledger[i];
      }
    }
    if i :| 0 <= i < |ps| && ps[i].started {
      assert all[i] == ledger[i];
    }
  }

  /** The files reserved so far, as the writing and the releasing part see them. */
  lemma {:induction false} ReservedTracked(
    a: Disk, e: Disk, made: seq<Reservation>, rs: seq<Reservation>, ps: seq<Progress>, data: seq<Bytes>, shared: bool)
    requires OnlyCreates(a, e, made, shared) && Blank(e, made) && rs <= made && |made| <= |data|
    requires ps == seq(|rs|, _ => Progress(false, false))
    ensures Ahead(e, rs, ps, data, 0)
  {
  }

  lemma {:induction false} OrphanStays(
    a: Disk, d: Disk, e: Disk, made: seq<Reservation>, rs: seq<Reservation>, shared: bool)
    requires OnlyCreates(a, d, made, shared) && Moves(d, e, Inodes(rs), shared) && rs < made && Blank(d, [made[|rs|]])
    ensures Blank(e, [made[|rs|]])
  {
    assert [made[|rs|]][0] == made[|rs|];
  }

  lemma {:induction false} OwnHandles(a: Disk, d: Disk, made: seq<Reservation>, rs: seq<Reservation>, shared: bool)
    requires a.Sound() && OnlyCreates(a, d, made, shared) && rs <= made
    ensures Inodes(rs) <= Inodes(made) && a.open !! Inodes(rs)
  {
    forall n | n in Inodes(rs) ensures n in Inodes(made) && n !in a.open {
      var i :| 0 <= i < |rs| && rs[i].inode == n;
      assert made[i].inode == n;
    }
  }

  lemma {:induction false} AllClosed(a: Disk, e: Disk, rs: seq<Reservation>, ps: seq<Progress>, data: seq<Bytes>,
      paths: seq<string>)
    requires Tracked(e, rs, ps, data) && Follows(rs, paths) && |rs| == |paths| == |data|
    requires forall i | 0 <= i < |rs| :: ps[i].closed
    requires a.open !! Inodes(rs) && a.open <= e.open <= a.open + Inodes(rs)
    ensures Honest(e, rs, seq(|rs|, _ => Complete), paths, data, Written(paths))
    ensures e.open == a.open
  {
    forall n | n in Inodes(rs) ensures n !in e.open {
      var i :| 0 <= i < |rs| && rs[i].inode == n;
      assert ps[i].closed;
    }
  }

  /** An attempt that began on the disk `start`, has created `made`, and keeps `rs` and `ps` about it. */
  ghost predicate Attempting(
    start: Disk, e: Disk, made: seq<Reservation>, rs: seq<Reservation>, ps: seq<Progress>, paths: seq<string>,
    data: seq<Bytes>, shared: bool)
  {
    && start.Sound() && e.Sound() && |paths| == |data|
    && OnlyCreates(start, e, made, shared) && Follows(made, paths)
    && rs <= made && |made| <= |rs| + 1 && |ps| == |rs| && Tracked(e, rs, ps, data)
    && (rs < made ==> Blank(e, [made[|rs|]]))
    && start.open <= e.open <= start.open + Inodes(rs)
  }

  lemma {:induction false} AttemptStarts(
    a: Disk, b: Disk, c: Disk, made: seq<Reservation>, rs: seq<Reservation>, ps: seq<Progress>, paths: seq<string>,
    data: seq<Bytes>, shared: bool)
    requires a.Sound() && c.Sound() && |paths| == |data|
    requires Moves(a, b, {}, shared) && b.open == a.open
    requires OnlyCreates(b, c, made, shared) && Blank(c, made) && Follows(made, paths)
    requires rs <= made && |made| <= |rs| + 1 && ps == seq(|rs|, _ => Progress(false, false))
    requires b.open <= c.open <= b.open + Inodes(rs)
    ensures Attempting(a, c, made, rs, ps, paths, data, shared)
    ensures Ahead(c, rs, ps, data, 0)
    ensures !shared ==> (Vacant(b, paths) <==> Vacant(a, paths))
  {
    hide OnlyCreates, Tracked, Inodes, Vacant, Ahead, Disk.Sound;
    ReservedTracked(b, c, made, rs, ps, data, shared);
    AheadTracked(c, rs, ps, data, 0);
    VacantBefore(a, b, paths, shared);
    NothingCreated(a, a, b, shared);
    CreatesThenCreates(a, b, c, [], made, shared);
    assert [] + made == made;
    if rs < made {
      assert [made[|rs|]][0] == made[|rs|];
    }
  }

  lemma {:induction false} AheadTracked(d: Disk, rs: seq<Reservation>, ps: seq<Progress>, data: seq<Bytes>, count: nat)
    requires Ahead(d, rs, ps, data, count)
    ensures Tracked(d, rs, ps, data)
  {
  }

  lemma {:induction false} VacantBefore(a: Disk, b: Disk, paths: seq<string>, shared: bool)
    requires Moves(a, b, {}, shared)
    ensures !shared ==> (Vacant(b, paths) <==> Vacant(a, paths))
  {
  }

  lemma {:induction false} AttemptGoesOn(
    start: Disk, d: Disk, e: Disk, made: seq<Reservation>, rs: seq<Reservation>, ps: seq<Progress>, qs: seq<Progress>,
    paths: seq<string>, data: seq<Bytes>, shared: bool)
    requires Attempting(start, d, made, rs, ps, paths, data, shared)
    requires Moves(d, e, Inodes(rs), shared) && Tracked(e, rs, qs, data)
    requires d.open - Inodes(rs) <= e.open <= d.open
    ensures Attempting(start, e, made, rs, qs, paths, data, shared)
    ensures e.Sound() && (!shared ==> Named(e, rs))
  {
    OwnHandles(start, d, made, rs, shared);
    CreatesThenMoves(start, d, e, made, Inodes(rs), shared);
    if rs < made {
      OrphanStays(start, d, e, made, rs, shared);
    }
    assert forall i | 0 <= i < |rs| :: rs[i] == made[i];
    hide Tracked, Inodes, Blank, Keeps;
  }

  /** How an attempt ends: all closed and reported, or released and reported. */
  method Conclude(
    fs: FileSystem, failure: Option<Error>, rs: seq<Reservation>, ps: seq<Progress>, paths: seq<string>,
    ghost made: seq<Reservation>, ghost data: seq<Bytes>, ghost start: Disk)
    returns (outcome: Outcome, ghost ledger: seq<Left>)
    requires Attempting(start, fs.disk, made, rs, ps, paths, data, fs.shared)
    requires failure.None? ==> made == rs && |rs| == |paths| && forall i | 0 <= i < |rs| :: ps[i].closed
    modifies fs
    ensures OnlyCreates(start, fs.disk, made, fs.shared) && fs.disk.open == start.open
    ensures Honest(fs.disk, made, ledger, paths, data, outcome)
    ensures outcome.Written? <==> failure.None?
    ensures failure.Some? ==>
              outcome == Failed(failure.value) || outcome == PlaceholderLeft(failure.value, Tally(ledger))
    ensures old(fs.disk.trouble) ==> fs.disk.trouble
  {
    hide OnlyCreates, Tracked, Blank, Inodes, Honest, AllSettled, Follows, Tally;
    OwnHandles(start, fs.disk, made, rs, fs.shared);
    if failure.None? {
      AllClosed(start, fs.disk, rs, ps, data, paths);
      return Written(paths), seq(|rs|, _ => Complete);
    }
    ghost var before := fs.disk;
    ghost var left;
    outcome, left := RethrowAfterFailedWrite(fs, failure.value, rs, ps, data);
    CreatesThenMoves(start, before, fs.disk, made, Inodes(rs), fs.shared);
    if rs < made {
      OrphanStays(start, before, fs.disk, made, rs, fs.shared);
    }
    ReleasedHonestly(fs.disk, made, rs, ps, left, paths, data, failure.value, outcome);
    ledger := left + if |made| > |rs| then [Orphan] else [];
  }

  lemma {:induction false} NothingToWrite(start: Disk, paths: seq<string>, data: seq<Bytes>,
      comparable: string -> string, shared: bool)
    requires paths == [] && data == [] && start.Sound()
    ensures OnlyCreates(start, start, [], shared) && Honest(start, [], [], paths, data, Written(paths))
    ensures DistinctKeys(paths, comparable)
  {
  }

  /**
   Creates all files exclusively, writes each, closes each. `made` is what it created, in order, and
   `ledger` what is left in each of those files.
   */
  method WriteFilesExclusively(fs: FileSystem, files: seq<OutputFile>, sources: set<nat>, comparable: string -> string)
    returns (outcome: Outcome, ghost made: seq<Reservation>, ghost ledger: seq<Left>)
    requires fs.disk.Sound()
    modifies fs
    ensures OnlyCreates(old(fs.disk), fs.disk, made, fs.shared) && fs.disk.open == old(fs.disk.open)
    ensures Honest(fs.disk, made, ledger, Paths(files), Datas(files), outcome)
    ensures (DistinctKeys(Paths(files), comparable) && Vacant(old(fs.disk), Paths(files))
             && !fs.shared && !fs.disk.trouble) ==> outcome.Written?
    ensures outcome.Written? ==> DistinctKeys(Paths(files), comparable)
  {
    var paths, data := Paths(files), Datas(files);
    hide *;
    ghost var start := fs.disk;
    if |files| == 0 {
      NothingToWrite(start, paths, data, comparable, fs.shared);
      return Written(paths), [], [];
    }
    var failure := Prepare(fs, paths, sources, comparable);
    if failure.Some? {
      NothingWritten(start, fs.disk, paths, data, failure.value, fs.shared);
      return Failed(failure.value), [], [];
    }
    ghost var prepared := fs.disk;
    var rs, ps;
    failure, rs, ps, made := ReserveAll(fs, paths, sources);
    ghost var reserved := fs.disk;
    AttemptStarts(start, prepared, reserved, made, rs, ps, paths, data, fs.shared);
    if failure.None? {
      ghost var blank := ps;
      failure, ps := WriteRemaining(fs, rs, ps, data, 0);
      ghost var written, full := fs.disk, ps;
      AttemptGoesOn(start, reserved, written, made, rs, blank, ps, paths, data, fs.shared);
      if failure.None? {
        failure, ps := CloseAll(fs, rs, ps, data);
        AttemptGoesOn(start, written, fs.disk, made, rs, full, ps, paths, data, fs.shared);
      }
    }
    outcome, ledger := Conclude(fs, failure, rs, ps, paths, made, data, start);
  }

  /** Copies the range into the first reserved file, as the first step of the writing. */
  method WriteRange(fs: FileSystem, rs: seq<Reservation>, ps: seq<Progress>, input: InputRange, ghost data: seq<Bytes>)
    returns (failure: Option<Error>, qs: seq<Progress>)
    requires fs.disk.Sound() && 0 < |rs| && Ahead(fs.disk, rs, ps, data, 0)
    requires input.Valid() && data[0] == input.Bytes()
    requires forall r | r in rs :: r.inode in fs.disk.open
    modifies fs
    ensures Moves(old(fs.disk), fs.disk, Inodes(rs), fs.shared) && fs.disk.open == old(fs.disk.open)
    ensures |qs| == |rs| && Tracked(fs.disk, rs, qs, data)
    ensures failure.None? ==> Ahead(fs.disk, rs, qs, data, 1) && |input.Bytes()| == input.sizeBytes
    ensures failure == Some(Truncated) ==> |input.Bytes()| < input.sizeBytes
    ensures failure.Some? && failure != Some(Truncated) && !fs.disk.trouble && !fs.shared ==> !Named(fs.disk, rs)
  {
    hide Tracked, Moves, InputRange.Bytes;
    AheadMeans(fs.disk, rs, ps, data, 0);
    AheadTracked(fs.disk, rs, ps, data, 0);
    qs := ps[0 := Progress(true, false)];
    ghost var start := fs.disk;
    failure := CopyRangeToHandle(fs, rs[0], input);
    TrackedStep(start, fs.disk, rs, ps, data, 0, Progress(true, false), fs.shared);
  }

  /**
   Copies a range of an open descriptor into one new file and writes the companion files, all or nothing
   in the same sense. A range that ends behind its file fails.
   */
  method WriteFileRangeAndFilesExclusively(
    fs: FileSystem, path: string, input: InputRange, companions: seq<OutputFile>, sources: set<nat>,
    comparable: string -> string)
    returns (outcome: Outcome, ghost made: seq<Reservation>, ghost ledger: seq<Left>)
    requires fs.disk.Sound()
    modifies fs
    ensures OnlyCreates(old(fs.disk), fs.disk, made, fs.shared) && fs.disk.open == old(fs.disk.open)
    ensures !input.Valid() ==> outcome == Failed(InvalidRange) && fs.disk == old(fs.disk)
    ensures input.Valid() ==>
              Honest(fs.disk, made, ledger, [path] + Paths(companions), [input.Bytes()] + Datas(companions), outcome)
    ensures outcome.Written? ==> |input.Bytes()| == input.sizeBytes
    ensures outcome == Failed(Truncated) || (outcome.PlaceholderLeft? && outcome.cause == Truncated) ==>
              |input.Bytes()| < input.sizeBytes
    ensures input.Valid() && |input.Bytes()| == input.sizeBytes && !fs.shared && !fs.disk.trouble &&
            DistinctKeys([path] + Paths(companions), comparable) && Vacant(old(fs.disk), [path] + Paths(companions)) ==>
              outcome.Written?
  {
    ghost var start := fs.disk;
    if !input.Valid() {
      NothingYet(start, fs.shared);
      return Failed(InvalidRange), [], [];
    }
    var paths, data := [path] + Paths(companions), [input.Bytes()] + Datas(companions);
    hide *;
    var failure := Prepare(fs, paths, sources, comparable);
    if failure.Some? {
      NothingWritten(start, fs.disk, paths, data, failure.value, fs.shared);
      return Failed(failure.value), [], [];
    }
    ghost var prepared := fs.disk;
    var rs, ps;
    failure, rs, ps, made := ReserveAll(fs, paths, sources);
    ghost var reserved := fs.disk;
    AttemptStarts(start, prepared, reserved, made, rs, ps, paths, data, fs.shared);
    if failure.None? {
      ghost var blank := ps;
      failure, ps := WriteRange(fs, rs, ps, input, data);
      ghost var copied, first := fs.disk, ps;
      AttemptGoesOn(start, reserved, copied, made, rs, blank, ps, paths, data, fs.shared);
      if failure.None? {
        failure, ps := WriteRemaining(fs, rs, ps, data, 1);
        ghost var written, full := fs.disk, ps;
        AttemptGoesOn(start, copied, written, made, rs, first, ps, paths, data, fs.shared);
        if failure.None? {
          failure, ps := CloseAll(fs, rs, ps, data);
          AttemptGoesOn(start, written, fs.disk, made, rs, full, ps, paths, data, fs.shared);
        }
      }
    }
    outcome, ledger := Conclude(fs, failure, rs, ps, paths, made, data, start);
  }

  lemma {:induction false} OnePath(path: string, comparable: string -> string, d: Disk)
    ensures DistinctKeys([path], comparable)
    ensures Vacant(d, [path]) <==> path !in d.paths
  {
    assert [path][0] == path;
  }

  /** The checks, the creation of the only output, and its `stat`; a file whose `stat` fails is closed and left. */
  method OpenOne(fs: FileSystem, path: string, sources: set<nat>)
    returns (failure: Option<Error>, r: Reservation, ghost made: seq<Reservation>)
    requires fs.disk.Sound()
    modifies fs
    ensures fs.disk.Sound() && (old(fs.disk.trouble) ==> fs.disk.trouble)
    ensures OnlyCreates(old(fs.disk), fs.disk, made, fs.shared) && Blank(fs.disk, made)
    ensures |made| <= 1 && (|made| == 1 ==> made[0].path == path) && (failure.None? ==> made == [r])
    ensures fs.disk.open == old(fs.disk.open) + if failure.None? then {r.inode} else {}
    ensures failure != Some(Truncated)
    ensures failure.Some? && !fs.disk.trouble && !fs.shared ==> path in old(fs.disk.paths)
  {
    hide OnlyCreates, Blank;
    made := [];
    r := Reservation(path, 0);
    ghost var start := fs.disk;
    failure := CheckFuturePath(fs);
    ghost var checked := fs.disk;
    if failure.Some? {
      NothingCreated(start, start, checked, fs.shared);
      return;
    }
    var result := OpenExclusiveOutput(fs, path, sources);
    ghost var created := fs.disk;
    if result.Err? {
      NothingCreated(start, checked, created, fs.shared);
      return Some(result.error), r, made;
    }
    r := result.value;
    made := [r];
    failure := fs.Consult();
    if failure.Some? {
      var ignored := fs.Close(r.inode);
    }
    OneCreated(start, checked, created, fs.disk, r, fs.shared);
  }

  lemma {:induction false} OneRow(path: string, made: seq<Reservation>, rs: seq<Reservation>, e: Disk)
    requires |made| <= 1 && (|made| == 1 ==> made[0].path == path) && (rs == [] || rs == made)
    ensures Follows(made, [path]) && rs <= made
    ensures Inodes(rs) == if rs == [] then {} else {rs[0].inode}
  {
  }

  lemma {:induction false} StepKeepsAttempt(
    start: Disk, d: Disk, e: Disk, made: seq<Reservation>, rs: seq<Reservation>, ps: seq<Progress>, paths: seq<string>,
    data: seq<Bytes>, shared: bool)
    requires Attempting(start, d, made, rs, ps, paths, data, shared) && Ahead(d, rs, ps, data, 0)
    requires Moves(d, e, {}, shared) && e.open == d.open
    ensures Attempting(start, e, made, rs, ps, paths, data, shared) && Ahead(e, rs, ps, data, 0)
    ensures e.Sound() && (!shared ==> Named(e, rs))
  {
    TrackedStays(d, e, rs, ps, data, shared);
    AttemptGoesOn(start, d, e, made, rs, ps, ps, paths, data, shared);
    hide OnlyCreates, Tracked, Inodes, Blank, Keeps, Follows;
  }

  /** The path still names the file, and the hook after opening agrees. */
  method CheckReserved(fs: FileSystem, r: Reservation) returns (failure: Option<Error>)
    requires fs.disk.Sound()
    modifies fs
    ensures Moves(old(fs.disk), fs.disk, {}, fs.shared) && fs.disk.open == old(fs.disk.open)
    ensures failure != Some(Truncated)
    ensures failure.Some? && !fs.disk.trouble && !fs.shared ==> !Named(fs.disk, [r])
  {
    failure := fs.CheckIdentity(r);
    if failure.Some? {
      assert [r][0] == r;
      return;
    }
    failure := fs.Consult();
  }

  /**
   Copies a range of an open descriptor into one new file. Here the file counts as reserved as soon as its
   identity is known, before its path is checked.
   */
  method WriteFileRangeExclusively(fs: FileSystem, path: string, input: InputRange, sources: set<nat>)
    returns (outcome: Outcome, ghost made: seq<Reservation>, ghost ledger: seq<Left>)
    requires fs.disk.Sound()
    modifies fs
    ensures OnlyCreates(old(fs.disk), fs.disk, made, fs.shared) && fs.disk.open == old(fs.disk.open)
    ensures !input.Valid() ==> outcome == Failed(InvalidRange) && fs.disk == old(fs.disk)
    ensures input.Valid() ==> Honest(fs.disk, made, ledger, [path], [input.Bytes()], outcome)
    ensures outcome.Written? ==> |input.Bytes()| == input.sizeBytes
    ensures outcome == Failed(Truncated) || (outcome.PlaceholderLeft? && outcome.cause == Truncated) ==>
              |input.Bytes()| < input.sizeBytes
    ensures input.Valid() && |input.Bytes()| == input.sizeBytes && !fs.shared && !fs.disk.trouble &&
            path !in old(fs.disk.paths) ==>
              outcome.Written?
  {
    ghost var start := fs.disk;
    if !input.Valid() {
      NothingYet(start, fs.shared);
      return Failed(InvalidRange), [], [];
    }
    var paths, data := [path], [input.Bytes()];
    var same: string -> string := p => p;
    OnePath(path, same, start);
    hide *;
    var failure := Prepare(fs, paths, sources, same);
    if failure.Some? {
      NothingWritten(start, fs.disk, paths, data, failure.value, fs.shared);
      return Failed(failure.value), [], [];
    }
    ghost var prepared := fs.disk;
    OnePath(path, same, prepared);
    var r;
    failure, r, made := OpenOne(fs, path, sources);
    ghost var created := fs.disk;
    var rs := if failure.None? then [r] else [];
    var ps := seq(|rs|, _ => Progress(false, false));
    OneRow(path, made, rs, created);
    AttemptStarts(start, prepared, created, made, rs, ps, paths, data, fs.shared);
    if failure.None? {
      failure := CheckReserved(fs, r);
      ghost var checked := fs.disk;
      StepKeepsAttempt(start, created, checked, made, rs, ps, paths, data, fs.shared);
      if failure.None? {
        failure, ps := WriteRange(fs, rs, ps, input, data);
        ghost var written, full := fs.disk, ps;
        AttemptGoesOn(start, checked, written, made, rs, seq(|rs|, _ => Progress(false, false)), ps, paths, data,
          fs.shared);
        if failure.None? {
          failure, ps := CloseAll(fs, rs, ps, data);
          AttemptGoesOn(start, written, fs.disk, made, rs, full, ps, paths, data, fs.shared);
        }
      }
    }
    outcome, ledger := Conclude(fs, failure, rs, ps, paths, made, data, start);
  }

  // ---------------------------------------------------------------- what the callers get from it

  /** Reading a path. */
  ghost function Read(d: Disk, path: string): Bytes
    requires d.Sound() && path in d.paths
  {
    d.files[d.paths[path]]
  }

  /**
   When no other process moves paths, each output path of a successful call reads as exactly its data; in
   any call, every path that existed reads as it did, and no path appears but those of the created files.
   */
  lemma {:induction false} WrittenReadsBack(
    d: Disk, e: Disk, made: seq<Reservation>, ledger: seq<Left>, paths: seq<string>, data: seq<Bytes>, outcome: Outcome)
    requires d.Sound() && e.Sound() && |paths| == |data|
    requires OnlyCreates(d, e, made, false) && Honest(e, made, ledger, paths, data, outcome)
    ensures forall p | p in d.paths :: p in e.paths && Read(e, p) == Read(d, p)
    ensures forall p | p in e.paths && p !in d.paths :: p in paths
    ensures outcome.Written? ==> forall i | 0 <= i < |paths| :: paths[i] in e.paths && Read(e, paths[i]) == data[i]
  {
    forall p | p in e.paths && p !in d.paths ensures p in paths {
      var i :| 0 <= i < |made| && made[i].path == p;
      assert paths[i] == p;
    }
    if outcome.Written? {
      forall i | 0 <= i < |paths| ensures paths[i] in e.paths && Read(e, paths[i]) == data[i] {
        assert made[i].path == paths[i] && ledger[i] == Complete;
      }
    }
  }

  ghost function Doubtful(e: Disk, made: seq<Reservation>, data: seq<Bytes>): set<nat>
    requires |made| <= |data| && forall i | 0 <= i < |made| :: made[i].inode in e.files
  {
    set i: nat | i < |made| && e.files[made[i].inode] != [] && e.files[made[i].inode] != data[i]
  }

  /** After a failure at most `possiblyPartial` files hold anything but nothing or everything; they hold a prefix. */
  lemma {:induction false} PartialFilesAreCounted(
    e: Disk, made: seq<Reservation>, ledger: seq<Left>, paths: seq<string>, data: seq<Bytes>, outcome: Outcome)
    requires |paths| == |data| && Honest(e, made, ledger, paths, data, outcome)
    ensures |Doubtful(e, made, data)| <= match outcome
                                         case PlaceholderLeft(_, release) => release.possiblyPartial
                                         case _ => 0
    ensures forall i | 0 <= i < |made| :: e.files[made[i].inode] <= data[i]
  {
    hide Tally;
    CountAtMost(Doubtful(e, made, data), ledger, PossiblyPartial);
    if outcome.PlaceholderLeft? {
      TallyCounts(ledger);
    } else {
      assert Doubtful(e, made, data) == {};
    }
  }

  lemma {:induction false} TallyCounts(ledger: seq<Left>)
    ensures Tally(ledger).possiblyPartial == multiset(ledger)[PossiblyPartial]
  {
  }

  lemma {:induction false} CountAtMost(indices: set<nat>, ledger: seq<Left>, left: Left)
    requires forall i | i in indices :: i < |ledger| && ledger[i] == left
    ensures |indices| <= multiset(ledger)[left]
  {
    if ledger == [] {
      assert indices == {};
    } else {
      var k := |ledger| - 1;
      CountAtMost(indices - {k}, ledger[..k], left);
      assert ledger == ledger[..k] + [ledger[k]];
      assert multiset(ledger) == multiset(ledger[..k]) + multiset{ledger[k]};
      if k in indices {
        assert indices == indices - {k} + {k};
      } else {
        assert indices == indices - {k};
      }
    }
  }
}
