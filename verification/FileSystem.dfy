/**
 The file system that the exclusive writers use. Files are numbered by inode; paths name inodes. Between
 any two system calls other processes may rename, replace, remove and create paths. Which calls fail, how
 far a short read or write gets, and what the others do is one arbitrary function of the time each, so a
 claim about every `FileSystem` is a claim about every schedule.
 */
module FileSystem {
  import opened Basics
  import opened Bytes

  datatype Error =
    | Conflict(path: string)
    | Alias
    | Changed
    | Truncated
    | NoProgress
    | InvalidRange
    | Exists
    | System(code: nat)

  datatype Reservation = Reservation(path: string, inode: nat)

  datatype Fate = Fate(fails: bool, code: nat, count: nat)

  /** `created` lists what this process created; `trouble` tells whether one of its steps went wrong. */
  datatype Disk = Disk(
    paths: map<string, nat>, files: map<nat, Bytes>, next: nat, open: set<nat>, created: seq<Reservation>,
    trouble: bool)
  {
    predicate Sound() {
      && (forall p | p in paths :: paths[p] in files)
      && (forall n | n in files :: n < next)
      && (forall n | n in open :: n in files)
    }
  }

  /** What other processes may do: they never touch the contents of a file that exists, but may do anything else. */
  predicate Disturbs(d: Disk, e: Disk, shared: bool) {
    && e.Sound()
    && (forall n | n in d.files :: n in e.files && e.files[n] == d.files[n])
    && e.open == d.open && e.created == d.created && e.trouble == d.trouble
    && (!shared ==> e.paths == d.paths)
  }

  /** From `d` to `e` no file of `d` was lost, and none outside `mine` changed. */
  ghost predicate Keeps(d: Disk, e: Disk, mine: set<nat>) {
    && (forall n | n in d.files :: n in e.files)
    && (forall n | n in d.files && n !in mine :: e.files[n] == d.files[n])
  }

  /** One step of this process that works on the files `mine` and creates nothing. */
  ghost predicate Moves(d: Disk, e: Disk, mine: set<nat>, shared: bool) {
    && e.Sound()
    && Keeps(d, e, mine)
    && e.created == d.created
    && (!shared ==> e.paths == d.paths)
    && (d.trouble ==> e.trouble)
  }

  /** `content` with `data` written at `position`; a gap before it reads as zeros. */
  function Patched(content: Bytes, position: nat, data: Bytes): (r: Bytes)
    ensures |data| > 0 ==> |r| >= position + |data| && r[position..position + |data|] == data
    ensures position == |content| ==> r == content + data
  {
    if data == [] then content
    else
      var filled := if position <= |content| then content else content + seq(position - |content|, _ => 0);
      var end := position + |data|;
      filled[..position] + data + (if end <= |filled| then filled[end..] else [])
  }

  class FileSystem {
    var disk: Disk
    var clock: nat
    const fate: nat -> Fate
    const others: (nat, Disk) -> Disk
    const shared: bool

    constructor (disk: Disk, fate: nat -> Fate, others: (nat, Disk) -> Disk, shared: bool)
      ensures this.disk == disk && this.fate == fate && this.others == others && this.shared == shared
    {
      this.disk := disk;
      this.clock := 0;
      this.fate := fate;
      this.others := others;
      this.shared := shared;
    }

    /** Time passes: the others act, and the fate of the next call of ours is drawn. */
    method Step() returns (f: Fate)
      requires disk.Sound()
      modifies this
      ensures Moves(old(disk), disk, {}, shared) && disk.open == old(disk.open)
      ensures disk.trouble == (old(disk.trouble) || f.fails)
    {
      f := fate(clock);
      var after := others(clock, disk);
      clock := clock + 1;
      if Disturbs(disk, after, shared) {
        disk := after;
      }
      if f.fails {
        disk := disk.(trouble := true);
      }
    }

    /** A hook, a directory check or an authorization: it succeeds or fails, and has no effect on files. */
    method Consult() returns (error: Option<Error>)
      requires disk.Sound()
      modifies this
      ensures Moves(old(disk), disk, {}, shared) && disk.open == old(disk.open)
      ensures disk.trouble == (old(disk.trouble) || error.Some?)
      ensures error.Some? ==> error.value.System?
    {
      var f := Step();
      error := if f.fails then Some(System(f.code)) else None;
    }

    /** `lstat` and `stat` of an output path: it must not exist, and must not be one of the source files. */
    method RejectExistingTarget(path: string, sources: set<nat>) returns (error: Option<Error>)
      requires disk.Sound()
      modifies this
      ensures Moves(old(disk), disk, {}, shared) && disk.open == old(disk.open)
      ensures error.None? ==> path !in disk.paths && disk.trouble == old(disk.trouble)
      ensures error.Some? ==> error.value != Truncated
      ensures error.Some? && !disk.trouble ==>
                path in disk.paths && error.value == (if disk.paths[path] in sources then Alias else Conflict(path))
    {
      error := Consult();
      if error.Some? { return; }
      if path !in disk.paths { return; }
      error := Some(if disk.paths[path] in sources then Alias else Conflict(path));
    }

    /** The directory of a reserved output is still the planned one, and its path still names our file. */
    method CheckIdentity(reservation: Reservation) returns (error: Option<Error>)
      requires disk.Sound()
      modifies this
      ensures Moves(old(disk), disk, {}, shared) && disk.open == old(disk.open)
      ensures error.None? ==> disk.trouble == old(disk.trouble) &&
                              reservation.path in disk.paths && disk.paths[reservation.path] == reservation.inode
      ensures error.Some? ==> error.value.System? || error.value == Changed
      ensures error.Some? && !disk.trouble ==>
                !(reservation.path in disk.paths && disk.paths[reservation.path] == reservation.inode)
    {
      error := Consult();
      if error.Some? { return; }
      error := Consult();
      if error.Some? { return; }
      if !(reservation.path in disk.paths && disk.paths[reservation.path] == reservation.inode) {
        error := Some(Changed);
      }
    }

    /** `open(path, "wx")`: creates a file nobody has seen before, or fails without an effect. */
    method OpenExclusive(path: string) returns (r: Result<Reservation, Error>)
      requires disk.Sound()
      modifies this
      ensures disk.Sound() && Keeps(old(disk), disk, {})
      ensures old(disk.trouble) ==> disk.trouble
      ensures r.Err? ==> Moves(old(disk), disk, {}, shared) && disk.open == old(disk.open)
      ensures r.Err? ==> r.error.System? || r.error == Exists
      ensures r.Err? && !disk.trouble ==> path in disk.paths && r.error == Exists
      ensures r.Ok? ==> r.value.path == path && disk.created == old(disk.created) + [r.value]
      ensures r.Ok? ==>
                r.value.inode !in old(disk.files) && r.value.inode in disk.files && disk.files[r.value.inode] == []
      ensures r.Ok? ==> disk.open == old(disk.open) + {r.value.inode} && r.value.inode !in old(disk.open)
      ensures r.Ok? && !shared ==> path !in old(disk.paths) && disk.paths == old(disk.paths)[path := r.value.inode]
    {
      var f := Step();
      if path in disk.paths {
        return Err(Exists);
      }
      if f.fails {
        return Err(System(f.code));
      }
      var made := Reservation(path, disk.next);
      disk := disk.(paths := disk.paths[path := made.inode], files := disk.files[made.inode := []],
      next := disk.next + 1, open := disk.open + {made.inode}, created := disk.created + [made]);
      r := Ok(made);
    }

    /** One positional write. It may be short, and when it fails some of the data may have arrived. */
    method WriteAt(inode: nat, data: Bytes, position: nat) returns (r: Result<nat, Error>)
      requires disk.Sound() && inode in disk.files && inode in disk.open
      modifies this
      ensures Moves(old(disk), disk, {inode}, shared) && disk.open == old(disk.open)
      ensures exists k :: 0 <= k <= |data| && (r.Ok? ==> r.value == k) &&
                          disk.files[inode] == Patched(old(disk.files[inode]), position, data[..k])
      ensures r.Err? ==> disk.trouble && r.error.System?
      ensures r.Ok? && r.value == 0 < |data| ==> disk.trouble
    {
      var f := Step();
      var k := if f.count <= |data| then f.count else |data|;
      disk := disk.(files := disk.files[inode := Patched(disk.files[inode], position, data[..k])],
      trouble := disk.trouble || k == 0 < |data|);
      r := if f.fails then Err(System(f.code)) else Ok(k);
    }

    /** `FileHandle.writeFile` on a new file: everything, or a failure after some of it. */
    method WriteFile(inode: nat, data: Bytes) returns (error: Option<Error>)
      requires disk.Sound() && inode in disk.files && inode in disk.open && disk.files[inode] == []
      modifies this
      ensures Moves(old(disk), disk, {inode}, shared) && disk.open == old(disk.open)
      ensures disk.files[inode] <= data
      ensures error.None? ==> disk.files[inode] == data
      ensures error.Some? ==> disk.trouble && error.value.System?
    {
      var f := Step();
      if f.fails {
        disk := disk.(files := disk.files[inode := data[..if f.count <= |data| then f.count else |data|]]);
        return Some(System(f.code));
      }
      disk := disk.(files := disk.files[inode := data]);
      error := None;
    }

    /** `FileHandle.truncate(0)`. A handle that was closed cannot truncate any more. */
    method Truncate(inode: nat) returns (ok: bool)
      requires disk.Sound() && inode in disk.files
      modifies this
      ensures Moves(old(disk), disk, {inode}, shared) && disk.open == old(disk.open)
      ensures disk.files[inode] == if ok then [] else old(disk.files[inode])
    {
      var f := Step();
      ok := inode in disk.open && !f.fails;
      if ok {
        disk := disk.(files := disk.files[inode := []]);
      }
    }

    /** `FileHandle.close()`. The handle is gone even when closing reports an error. */
    method Close(inode: nat) returns (error: Option<Error>)
      requires disk.Sound()
      modifies this
      ensures Moves(old(disk), disk, {}, shared) && disk.open == old(disk.open) - {inode}
      ensures error.Some? ==> disk.trouble && error.value.System?
    {
      error := Consult();
      disk := disk.(open := disk.open - {inode});
    }

    /** One positional read of a descriptor on `source`: short at will, empty only at the end of the file. */
    method ReadAt(source: Bytes, buffer: array<Byte>, length: nat, position: nat) returns (r: Result<nat, Error>)
      requires disk.Sound() && 0 < length <= buffer.Length
      modifies this, buffer
      ensures Moves(old(disk), disk, {}, shared) && disk.open == old(disk.open)
      ensures r.Ok? ==> r.value <= length && (r.value == 0 <==> |source| <= position)
      ensures r.Ok? && r.value > 0 ==> position + r.value <= |source| &&
                                       buffer[..r.value] == source[position..position + r.value]
      ensures r.Err? ==> disk.trouble && r.error.System?
    {
      var f := Step();
      if f.fails {
        return Err(System(f.code));
      }
      if |source| <= position {
        return Ok(0);
      }
      var most := if length <= |source| - position then length else |source| - position;
      var count := if f.count == 0 then 1 else if f.count <= most then f.count else most;
      forall i | 0 <= i < count {
        buffer[i] := source[position + i];
      }
      r := Ok(count);
    }
  }
}
