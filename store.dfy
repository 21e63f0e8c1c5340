/** The storage directory as the server's handlers see it through `open`,
    `stat`, `write`, `rename`, `unlink` and `fcntl` (or their Win32
    counterparts): a flat map from entry name to entry, a log of advisory lock
    events, the outcomes the next lock requests will have, and the free space
    left for writes, which truncating, unlinking or replacing a file gives
    back. */
module Store {
  import opened Text
  import PathGuard

  /** A directory entry: a regular file with its bytes, or a sub-directory. */
  datatype Node = Regular(data: seq<char>) | Directory

  datatype LockMode = Shared | Exclusive

  /** `lock_fd(fd, F_RDLCK/F_WRLCK)` that succeeded, and `unlock_fd(fd)`. */
  datatype LockEvent = Acquired(name: string, mode: LockMode) | Released(name: string)

  /** Every lock taken in `events` is released later in `events`. */
  predicate LeavesNoLock(events: seq<LockEvent>) {
    forall i :: 0 <= i < |events| && events[i].Acquired? ==>
      exists j :: i < j < |events| && events[j] == Released(events[i].name)
  }

  /** Two stretches that each release what they lock, run one after the
      other, release everything too. */
  lemma LeavesNoLockAppend(a: seq<LockEvent>, b: seq<LockEvent>)
    requires LeavesNoLock(a) && LeavesNoLock(b)
    ensures LeavesNoLock(a + b)
  {
    var ab := a + b;
    forall i | 0 <= i < |ab| && ab[i].Acquired?
      ensures exists j :: i < j < |ab| && ab[j] == Released(ab[i].name)
    {
      if i < |a| {
        assert a[i] == ab[i];
        var j :| i < j < |a| && a[j] == Released(a[i].name);
        assert ab[j] == a[j];
      } else {
        assert b[i - |a|] == ab[i];
        var j :| i - |a| < j < |b| && b[j] == Released(b[i - |a|].name);
        assert ab[j + |a|] == b[j];
      }
    }
  }

  /** An entry name the handlers can create: one that `path_join` accepts
      and that is not the storage directory itself. */
  predicate PlainName(name: string) {
    name != "" && name != "." && name != ".." && !PathGuard.Rejected(name)
  }

  /** Everything the handlers touch in the storage directory. */
  datatype Disk = Disk(
    files: map<string, Node>,
    locks: seq<LockEvent>,
    lockScript: seq<bool>,
    free: nat)

  /** What the store holds is always a set of plain names. */
  predicate Valid(d: Disk) {
    forall n :: n in d.files ==> PlainName(n)
  }

  /** What `dir/name` refers to: "." and the empty name are the storage
      directory itself. */
  function Resolve(files: map<string, Node>, name: string): (r: Option<Node>)
    ensures name in files && PlainName(name) ==> r == Some(files[name])
    ensures name !in files && PlainName(name) ==> r == None
  {
    if name == "" || name == "." then Some(Directory)
    else if name in files then Some(files[name])
    else None
  }

  /** One lock request: granted unless the script says it fails; an
      exhausted script grants every request. */
  function LockStep(script: seq<bool>): (bool, seq<bool>) {
    if script == [] then (true, []) else (!script[0], script[1..])
  }

  /** What `write(fd, buf, n)` returns with `free` bytes of space left: all of
      it, as much as fits, or -1 (ENOSPC) when nothing fits. */
  function Written(free: nat, n: nat): (w: int)
    ensures n == 0 ==> w == 0
    ensures n > 0 ==> (w == -1 <==> free == 0)
    ensures w >= 0 ==> w <= n && w <= free && (w == n || w == free)
  {
    if n == 0 then 0
    else if free == 0 then -1
    else if n <= free then n
    else free
  }

  /** The space the regular file `name` takes up: what the file system gives
      back when that file is truncated, unlinked or replaced. */
  function Held(files: map<string, Node>, name: string): nat {
    if name in files && files[name].Regular? then |files[name].data| else 0
  }

  /** The space a write to `name` can use once `O_TRUNC` has emptied it. */
  function Room(d: Disk, name: string): nat {
    d.free + Held(d.files, name)
  }

  /** The space a move of `from` onto `to` gives back: the replaced target's,
      unless the two are the same entry. */
  function Replaced(files: map<string, Node>, from: string, to: string): nat {
    if from == to then 0 else Held(files, to)
  }

  /** The number of bytes a `write` result stands for. */
  function Stored(w: int): nat {
    if w < 0 then 0 else w
  }

  /** The storage directory. */
  class FileStore {
    var files: map<string, Node>
    var locks: seq<LockEvent>
    var lockScript: seq<bool>
    var free: nat

    function State(): Disk
      reads this
    {
      Disk(files, locks, lockScript, free)
    }

    constructor (d: Disk)
      ensures State() == d
    {
      files := d.files;
      locks := d.locks;
      lockScript := d.lockScript;
      free := d.free;
    }

    /** `lock_fd(fd, mode)` on the open file `name`. */
    method Lock(name: string, mode: LockMode) returns (ok: bool)
      modifies this
      ensures (ok, lockScript) == LockStep(old(lockScript))
      ensures locks == old(locks) + (if ok then [Acquired(name, mode)] else [])
      ensures files == old(files) && free == old(free)
    {
      var step := LockStep(lockScript);
      ok := step.0;
      lockScript := step.1;
      if ok {
        locks := locks + [Acquired(name, mode)];
      }
    }

    /** `unlock_fd(fd)` on the open file `name`. */
    method Unlock(name: string)
      modifies this
      ensures locks == old(locks) + [Released(name)]
      ensures files == old(files) && lockScript == old(lockScript) && free == old(free)
    {
      locks := locks + [Released(name)];
    }

    /** `open(path, O_WRONLY|O_CREAT|O_TRUNC)` (or `CreateFile` with
        CREATE_ALWAYS) on a name that is not a directory: the old content's
        space is free again. */
    method CreateEmpty(name: string)
      modifies this
      ensures files == old(files)[name := Regular([])]
      ensures free == old(free) + Held(old(files), name)
      ensures locks == old(locks) && lockScript == old(lockScript)
    {
      free := free + Held(files, name);
      files := files[name := Regular([])];
    }

    /** `write(fd, bytes, |bytes|)` at the end of the regular file `name`. */
    method Append(name: string, bytes: seq<char>) returns (w: int)
      requires name in files && files[name].Regular?
      modifies this
      ensures w == Written(old(free), |bytes|)
      ensures files == old(files)[name := Regular(old(files[name].data) + bytes[..Stored(w)])]
      ensures free == old(free) - Stored(w)
      ensures locks == old(locks) && lockScript == old(lockScript)
    {
      w := Written(free, |bytes|);
      files := files[name := Regular(files[name].data + bytes[..Stored(w)])];
      free := free - Stored(w);
    }

    /** Removes the entry `name` (`unlink`); a regular file's space is free
        again. */
    method Remove(name: string)
      modifies this
      ensures files == old(files) - {name}
      ensures free == old(free) + Held(old(files), name)
      ensures locks == old(locks) && lockScript == old(lockScript)
    {
      free := free + Held(files, name);
      files := files - {name};
    }

    /** Moves the entry `from` to `to` (`rename`), replacing what `to` held,
        whose space is then free again; a move onto itself changes nothing. */
    method Move(from: string, to: string)
      requires from in files
      modifies this
      ensures files == (old(files) - {from})[to := old(files[from])]
      ensures free == old(free) + Replaced(old(files), from, to)
      ensures locks == old(locks) && lockScript == old(lockScript)
    {
      free := free + Replaced(files, from, to);
      files := (files - {from})[to := files[from]];
    }
  }
}
