/** server.c: the per-connection engine of the POSIX server. Each handler is
    specified by a function from the storage directory and the rest of the
    stream to an `Outcome`, and implemented by a method over a `Conn` and a
    `FileStore` that is proved to produce exactly that outcome. */
module Server {
  import opened Text
  import opened Scan
  import opened Stream
  import opened PosixIo
  import opened PathGuard
  import opened Store
  import opened Protocol

  /** MAX_PATH as server.c defines it: the path buffers and `a1`, `a2`. */
  const MAX_PATH: nat := 1024
  /** MAX_LINE: the command line buffer. */
  const MAX_LINE: nat := 4096
  /** The upload chunk, `1 << 16`. */
  const BUF: nat := 65536

  /** What a handler leaves behind: the bytes it sent, the storage
      directory, and the rest of the stream. */
  datatype Outcome = Outcome(reply: seq<char>, disk: Disk, inbox: seq<RecvEvent>)

  /** How `readdir` enumerates the storage directory ("." and ".."
      included), or `None` when `opendir` fails. */
  type DirReader = map<string, Node> -> Option<seq<string>>

  /** `path_join` with '/' into a MAX_PATH buffer. */
  function JoinPath(dir: string, name: string): Option<string> {
    PathJoin(dir, name, '/', MAX_PATH)
  }

  predicate IsDots(name: string) {
    name == "." || name == ".."
  }

  // ---------------------------------------------------------------- LIST

  /** The counting pass of `handle_list`: every entry but "." and "..". */
  function CountEntries(names: seq<string>): nat {
    if names == [] then 0
    else CountEntries(names[..|names| - 1]) + (if IsDots(names[|names| - 1]) then 0 else 1)
  }

  /** What the listing pass reports for one entry: the name and size of a
      regular file whose path can be built. */
  function ListedEntry(files: map<string, Node>, dir: string, name: string): seq<(string, int)> {
    if !IsDots(name) && JoinPath(dir, name).Some? &&
       Resolve(files, name).Some? && Resolve(files, name).value.Regular?
    then [(name, |Resolve(files, name).value.data|)]
    else []
  }

  /** The listing pass of `handle_list`. */
  function Listed(files: map<string, Node>, dir: string, names: seq<string>): seq<(string, int)> {
    if names == [] then []
    else Listed(files, dir, names[..|names| - 1]) + ListedEntry(files, dir, names[|names| - 1])
  }

  /** `handle_list`'s reply for what `readdir` yields. */
  function ListReply(files: map<string, Node>, dir: string, listing: Option<seq<string>>): string {
    match listing
    case None => "ERR cannot open storage\n"
    case Some(names) => Header(CountEntries(names)) + FileLines(Listed(files, dir, names)) + "END\n"
  }

  /** The header counts at least as many entries as there are FILE lines. */
  lemma {:induction false} ListCountBound(files: map<string, Node>, dir: string, names: seq<string>)
    ensures |Listed(files, dir, names)| <= CountEntries(names)
  {
    if names != [] {
      ListCountBound(files, dir, names[..|names| - 1]);
    }
  }

  /** Every FILE line names a regular file of the listing, with its size. */
  lemma {:induction false} ListedAreFiles(files: map<string, Node>, dir: string, names: seq<string>)
    ensures forall e :: e in Listed(files, dir, names) ==>
      e.0 in names && e.0 in files && files[e.0].Regular? && e.1 == |files[e.0].data|
  {
    if names != [] {
      var init := names[..|names| - 1];
      ListedAreFiles(files, dir, init);
      forall e | e in Listed(files, dir, names)
        ensures e.0 in names && e.0 in files && files[e.0].Regular? && e.1 == |files[e.0].data|
      {
        if e in Listed(files, dir, init) {
          assert e.0 in init;
        } else {
          assert e.0 == names[|names| - 1];
        }
      }
    }
  }

  /** When every entry but "." and ".." is a regular file with a short
      enough name, the count and the FILE lines agree. */
  lemma {:induction false} ListCountExact(files: map<string, Node>, dir: string, names: seq<string>)
    requires forall i :: 0 <= i < |names| && !IsDots(names[i]) ==>
      PlainName(names[i]) && names[i] in files && files[names[i]].Regular? && JoinPath(dir, names[i]).Some?
    ensures |Listed(files, dir, names)| == CountEntries(names)
  {
    if names != [] {
      var init := names[..|names| - 1];
      ListCountExact(files, dir, init);
    }
  }

  /** A sub-directory is counted in the header but gets no FILE line. */
  lemma ListCountCanExceedFiles()
    ensures var names := [".", "..", "sub"];
      var files := map["sub" := Directory];
      CountEntries(names) == 1 && Listed(files, "storage", names) == []
  {
    var names := [".", "..", "sub"];
    var files := map["sub" := Directory];
    assert names[..2] == [".", ".."];
    assert [".", ".."][..1] == ["."];
    assert ["."][..0] == [];
    assert CountEntries(["."]) == 0;
    assert CountEntries([".", ".."]) == 0;
    assert !IsDots("sub");
    assert Resolve(files, "sub") == Some(Directory);
    assert ListedEntry(files, "storage", "sub") == [];
    assert Listed(files, "storage", ["."]) == [];
    assert Listed(files, "storage", [".", ".."]) == [];
  }

  // -------------------------------------------------------------- UPLOAD

  datatype Status = Saved | RecvFailed | WriteFailed

  /** How the transfer loop of `handle_upload` ends: its status, the file's
      bytes, the rest of the stream and the free space left. */
  datatype Transfer = Transfer(status: Status, data: seq<char>, rest: seq<RecvEvent>, free: nat)

  /** The transfer loop from the point where `data` is in the file and
      `remaining` bytes are still due. */
  function UploadLoop(inbox: seq<RecvEvent>, remaining: nat, data: seq<char>, free: nat): Transfer
    decreases remaining
  {
    if remaining == 0 then Transfer(Saved, data, inbox, free)
    else
      var chunk := if remaining > BUF then BUF else remaining;
      var f := RecvAllFrom(inbox, chunk, []);
      if f.result <= 0 then Transfer(RecvFailed, data, f.rest, free)
      else
        RecvAllCounts(inbox, chunk, []);
        var w := Written(free, f.result);
        if w != f.result then Transfer(WriteFailed, data + f.bytes[..Stored(w)], f.rest, free - Stored(w))
        else UploadLoop(f.rest, remaining - f.result, data + f.bytes, free - w)
  }

  /** One turn of the transfer loop: a failed or empty `recv_all` ends it,
      a short `write` ends it with what was written, and a whole chunk
      written moves it on. */
  lemma UploadLoopStep(inbox: seq<RecvEvent>, remaining: nat, data: seq<char>, free: nat,
                       chunk: nat, f: Fill)
    requires 0 < remaining && chunk == (if remaining > BUF then BUF else remaining)
    requires f == RecvAllFrom(inbox, chunk, [])
    ensures var t := UploadLoop(inbox, remaining, data, free);
      f.result <= 0 ==> t == Transfer(RecvFailed, data, f.rest, free)
    ensures f.result > 0 ==> f.result <= remaining && |f.bytes| == f.result
    ensures f.result > 0 ==> f.bytes + Pending(f.rest) == Pending(inbox)
    ensures f.result > 0 ==>
      var t := UploadLoop(inbox, remaining, data, free); var w := Written(free, f.result);
      (w != f.result ==> t == Transfer(WriteFailed, data + f.bytes[..Stored(w)], f.rest, free - Stored(w))) &&
      (w == f.result ==> t == UploadLoop(f.rest, remaining - f.result, data + f.bytes, free - f.result))
  {
    RecvAllOutcome(inbox, chunk, []);
    assert [] + Pending(inbox) == Pending(inbox);
  }

  /** What a transfer loop can have done from `data` with `remaining`
      bytes due and `free` bytes of room: appended at most `remaining`
      bytes, each paid for out of the room. */
  predicate Grown(data: seq<char>, remaining: nat, free: nat, t: Transfer) {
    data <= t.data && |t.data| <= |data| + remaining && t.free + |t.data| == free + |data|
  }

  /** A whole chunk written, then the rest of the loop. */
  lemma GrownAfter(data: seq<char>, bytes: seq<char>, n: nat, remaining: nat, free: nat, t: Transfer)
    requires |bytes| == n <= remaining && n <= free
    requires Grown(data + bytes, remaining - n, free - n, t)
    ensures Grown(data, remaining, free, t)
  {
    PrefixTrans(data, data + bytes, t.data);
  }

  /** The loop ending with the first `n` bytes of a chunk written. */
  lemma GrownShort(data: seq<char>, bytes: seq<char>, n: nat, remaining: nat, free: nat, t: Transfer)
    requires n <= |bytes| <= remaining && n <= free
    requires t.data == data + bytes[..n] && t.free == free - n
    ensures Grown(data, remaining, free, t)
  {
  }

  /** A chunk followed by what the rest of the loop saved is the next
      `remaining` bytes of the stream after `data`. */
  lemma SavedAfterChunk(data: seq<char>, bytes: seq<char>, rest: seq<char>, p: seq<char>,
                        remaining: nat, saved: seq<char>)
    requires p == bytes + rest && |bytes| <= remaining <= |bytes| + |rest|
    requires saved == (data + bytes) + rest[..remaining - |bytes|]
    ensures saved == data + p[..remaining] && p[remaining..] == rest[remaining - |bytes|..]
  {
    CutAfter(bytes, rest, remaining);
    ConcatAssoc(data, bytes, rest[..remaining - |bytes|]);
  }

  function UploadStatus(s: Status): string {
    match s
    case Saved => "OK SAVED\n"
    case RecvFailed => "ERR recv data failed\n"
    case WriteFailed => "ERR write failed\n"
  }

  /** `handle_upload(cfd, dir, name, size)`. */
  function UploadSpec(d: Disk, inbox: seq<RecvEvent>, dir: string, name: string, size: int): Outcome {
    if size < 0 then Outcome("ERR invalid size\n", d, inbox)
    else if JoinPath(dir, name).None? then Outcome("ERR bad filename\n", d, inbox)
    else if Resolve(d.files, name) == Some(Directory) then Outcome("ERR cannot open file for write\n", d, inbox)
    else
      var room := Room(d, name);
      var lock := LockStep(d.lockScript);
      if !lock.0 then
        Outcome("ERR cannot lock file\n", d.(files := d.files[name := Regular([])], lockScript := lock.1, free := room), inbox)
      else UploadTransfer(d.(lockScript := lock.1), name, UploadLoop(inbox, size, [], room))
  }

  /** `handle_upload` once the exclusive lock is held: `OK`, the transfer
      loop that ended as `t`, the unlock and the status line. */
  function UploadTransfer(d: Disk, name: string, t: Transfer): Outcome {
    Outcome("OK\n" + UploadStatus(t.status),
      d.(files := d.files[name := Regular(t.data)], locks := d.locks + [Acquired(name, Exclusive), Released(name)],
         free := t.free),
      t.rest)
  }

  /** The transfer loop only appends to the file, never writes more than is
      due, pays for what it writes out of the free space, and never adds to
      the stream. */
  lemma {:induction false} UploadLoopBounds(inbox: seq<RecvEvent>, remaining: nat, data: seq<char>, free: nat)
    ensures var t := UploadLoop(inbox, remaining, data, free);
      data <= t.data && |t.data| <= |data| + remaining &&
      t.free + |t.data| == free + |data| && Size(t.rest) <= Size(inbox)
    decreases remaining
  {
    var t := UploadLoop(inbox, remaining, data, free);
    if remaining > 0 {
      var chunk := if remaining > BUF then BUF else remaining;
      var f := RecvAllFrom(inbox, chunk, []);
      RecvAllShrinks(inbox, chunk, []);
      UploadLoopStep(inbox, remaining, data, free, chunk, f);
      if f.result > 0 {
        var w := Written(free, f.result);
        if w == f.result {
          var more := data + f.bytes;
          var next := UploadLoop(f.rest, remaining - f.result, more, free - w);
          assert t == next;
          UploadLoopBounds(f.rest, remaining - f.result, more, free - w);
          PrefixTrans(data, more, next.data);
        } else {
          var n := Stored(w);
          assert t.data == data + f.bytes[..n] && t.free == free - n;
        }
      }
    }
  }

  /** The transfer saves exactly when the next `remaining` bytes arrive
      before any hard error and fit in the free space; the file then ends
      with exactly those bytes and the stream resumes right after them. */
  lemma UploadLoopSaves(inbox: seq<RecvEvent>, remaining: nat, data: seq<char>, free: nat)
    ensures var t := UploadLoop(inbox, remaining, data, free);
      t.status == Saved <==> remaining <= |Pending(inbox)| && remaining <= free
    ensures var t := UploadLoop(inbox, remaining, data, free);
      t.status == Saved ==>
        t.data == data + Pending(inbox)[..remaining] && Pending(t.rest) == Pending(inbox)[remaining..]
  {
    UploadLoopSavedOnly(inbox, remaining, data, free);
    if remaining <= |Pending(inbox)| && remaining <= free {
      UploadLoopSavedWhen(inbox, remaining, data, free);
    }
  }

  /** What a transfer loop that saves has done from `data` with `remaining`
      bytes due, `free` bytes of room and `p` the bytes still to arrive: it
      had room for the next `remaining` bytes of `p`, appended exactly them,
      and left `after` unread. */
  predicate SavedFrom(data: seq<char>, p: seq<char>, remaining: nat, free: nat, t: Transfer, after: seq<char>) {
    t.status == Saved ==>
      remaining <= |p| && remaining <= free && t.data == data + p[..remaining] && after == p[remaining..]
  }

  /** A whole chunk written, then the rest of the loop. */
  lemma SavedFromAfter(data: seq<char>, bytes: seq<char>, n: nat, rest: seq<char>, p: seq<char>,
                       remaining: nat, free: nat, t: Transfer, after: seq<char>)
    requires |bytes| == n <= remaining && n <= free && p == bytes + rest
    requires SavedFrom(data + bytes, rest, remaining - n, free - n, t, after)
    ensures SavedFrom(data, p, remaining, free, t, after)
  {
    if t.status == Saved {
      SavedAfterChunk(data, bytes, rest, p, remaining, t.data);
    }
  }

  /** A transfer that saves has received the next `remaining` bytes and had
      room for them. */
  lemma {:induction false} UploadLoopSavedOnly(inbox: seq<RecvEvent>, remaining: nat, data: seq<char>, free: nat)
    ensures var t := UploadLoop(inbox, remaining, data, free);
      SavedFrom(data, Pending(inbox), remaining, free, t, Pending(t.rest))
    decreases remaining
  {
    var t := UploadLoop(inbox, remaining, data, free);
    if remaining > 0 && t.status == Saved {
      var chunk := if remaining > BUF then BUF else remaining;
      var f := RecvAllFrom(inbox, chunk, []);
      UploadLoopStep(inbox, remaining, data, free, chunk, f);
      var n := f.result;
      assert Written(free, n) == n;
      var next := UploadLoop(f.rest, remaining - n, data + f.bytes, free - n);
      assert t == next;
      UploadLoopSavedOnly(f.rest, remaining - n, data + f.bytes, free - n);
      SavedFromAfter(data, f.bytes, n, Pending(f.rest), Pending(inbox), remaining, free, next, Pending(next.rest));
    } else if remaining == 0 {
      assert Pending(inbox)[..0] == [] && Pending(inbox)[0..] == Pending(inbox);
    }
  }

  /** When the next `remaining` bytes arrive and fit, the transfer saves. */
  lemma {:induction false} UploadLoopSavedWhen(inbox: seq<RecvEvent>, remaining: nat, data: seq<char>, free: nat)
    requires remaining <= |Pending(inbox)| && remaining <= free
    ensures UploadLoop(inbox, remaining, data, free).status == Saved
    decreases remaining
  {
    if remaining > 0 {
      var chunk := if remaining > BUF then BUF else remaining;
      var f := RecvAllFrom(inbox, chunk, []);
      UploadLoopStep(inbox, remaining, data, free, chunk, f);
      RecvAllOutcome(inbox, chunk, []);
      RecvAllFull(inbox, chunk, []);
      assert f.bytes + Pending(f.rest) == Pending(inbox);
      UploadLoopSavedWhen(f.rest, remaining - chunk, data + f.bytes, free - chunk);
    }
  }

  /** Both checks come before any file is opened: a negative size or a
      refused name reads nothing and changes nothing. */
  lemma UploadChecksFirst(d: Disk, inbox: seq<RecvEvent>, dir: string, name: string, size: int)
    requires size < 0 || JoinPath(dir, name).None?
    ensures var o := UploadSpec(d, inbox, dir, name, size);
      o.disk == d && o.inbox == inbox &&
      o.reply == (if size < 0 then "ERR invalid size\n" else "ERR bad filename\n")
  {
  }

  /** `OK` goes out before any payload byte is read, the exclusive lock is
      released whenever it was taken, and the stream never grows. */
  lemma UploadProtocol(d: Disk, inbox: seq<RecvEvent>, dir: string, name: string, size: int)
    ensures var o := UploadSpec(d, inbox, dir, name, size);
      (o.inbox != inbox ==> StartsWith(o.reply, "OK\n")) &&
      (o.disk.locks == d.locks || o.disk.locks == d.locks + [Acquired(name, Exclusive), Released(name)]) &&
      Size(o.inbox) <= Size(inbox)
  {
    if size >= 0 {
      UploadLoopBounds(inbox, size, [], Room(d, name));
    }
  }

  /** The upload is saved exactly when the checks pass, the lock is granted,
      and `size` bytes arrive and fit; the file then holds exactly the next
      `size` bytes of the stream, which resumes right after them. */
  lemma UploadSaves(d: Disk, inbox: seq<RecvEvent>, dir: string, name: string, size: int)
    ensures var o := UploadSpec(d, inbox, dir, name, size);
      o.reply == "OK\nOK SAVED\n" <==>
        0 <= size && JoinPath(dir, name).Some? && Resolve(d.files, name) != Some(Directory) &&
        LockStep(d.lockScript).0 && size <= |Pending(inbox)| && size <= Room(d, name)
    ensures var o := UploadSpec(d, inbox, dir, name, size);
      o.reply == "OK\nOK SAVED\n" ==>
        o.disk.files == d.files[name := Regular(Pending(inbox)[..size])] &&
        Pending(o.inbox) == Pending(inbox)[size..] && o.disk.free == Room(d, name) - size
  {
    var o := UploadSpec(d, inbox, dir, name, size);
    if size < 0 {
      assert o.reply == "ERR invalid size\n";
    } else if JoinPath(dir, name).None? {
      assert o.reply == "ERR bad filename\n";
    } else if Resolve(d.files, name) == Some(Directory) {
      assert o.reply == "ERR cannot open file for write\n";
    } else if !LockStep(d.lockScript).0 {
      assert o.reply == "ERR cannot lock file\n";
    } else {
      var t := UploadLoop(inbox, size, [], Room(d, name));
      UploadStatusDistinct(t);
      UploadLoopSaves(inbox, size, [], Room(d, name));
      UploadLoopBounds(inbox, size, [], Room(d, name));
      assert o.reply == "OK\n" + UploadStatus(t.status);
      if t.status == Saved {
        assert [] + Pending(inbox)[..size] == Pending(inbox)[..size];
      }
    }
  }

  /** The status line tells the three ends of the transfer apart. */
  lemma UploadStatusDistinct(t: Transfer)
    ensures "OK\n" + UploadStatus(t.status) == "OK\nOK SAVED\n" <==> t.status == Saved
  {
    if t.status != Saved {
      assert |UploadStatus(t.status)| != 9;
    }
  }

  // ------------------------------------------------------------ DOWNLOAD

  /** `handle_download(cfd, dir, name)`. */
  function DownloadSpec(d: Disk, inbox: seq<RecvEvent>, dir: string, name: string): Outcome {
    if JoinPath(dir, name).None? then Outcome("ERR bad filename\n", d, inbox)
    else match Resolve(d.files, name)
      case None => Outcome("ERR not found\n", d, inbox)
      case Some(node) =>
        var lock := LockStep(d.lockScript);
        if !lock.0 then Outcome("ERR cannot lock file\n", d.(lockScript := lock.1), inbox)
        else
          var d1 := d.(locks := d.locks + [Acquired(name, Shared), Released(name)], lockScript := lock.1);
          match node
          case Directory => Outcome("ERR not a file\n", d1, inbox)
          case Regular(data) => Outcome(Header(|data|) + data, d1, inbox)
  }

  /** A download reads nothing and changes no file. It sends a header, and
      then exactly the file's bytes, precisely when the name is accepted, is
      a regular file and the shared lock is granted; otherwise it sends one
      error line and no header. The lock is released whenever taken. */
  lemma DownloadSendsFile(d: Disk, inbox: seq<RecvEvent>, dir: string, name: string)
    ensures var o := DownloadSpec(d, inbox, dir, name);
      o.inbox == inbox && o.disk.files == d.files && o.disk.free == d.free &&
      (o.disk.locks == d.locks || o.disk.locks == d.locks + [Acquired(name, Shared), Released(name)])
    ensures var o := DownloadSpec(d, inbox, dir, name);
      StartsWith(o.reply, "OK ") <==>
        JoinPath(dir, name).Some? && Resolve(d.files, name).Some? &&
        Resolve(d.files, name).value.Regular? && LockStep(d.lockScript).0
    ensures var o := DownloadSpec(d, inbox, dir, name);
      StartsWith(o.reply, "OK ") ==>
        var data := Resolve(d.files, name).value.data; o.reply == Header(|data|) + data
    ensures var o := DownloadSpec(d, inbox, dir, name);
      !StartsWith(o.reply, "OK ") ==>
        o.reply in {"ERR bad filename\n", "ERR not found\n", "ERR cannot lock file\n", "ERR not a file\n"}
  {
    var o := DownloadSpec(d, inbox, dir, name);
    if JoinPath(dir, name).Some? && Resolve(d.files, name).Some? &&
       Resolve(d.files, name).value.Regular? && LockStep(d.lockScript).0 {
      var data := Resolve(d.files, name).value.data;
      assert o.reply == Header(|data|) + data;
      assert o.reply[..3] == "OK ";
    } else {
      assert o.reply[0] == 'E';
      assert "OK "[0] == 'O';
    }
  }

  // -------------------------------------------------------------- RENAME

  /** `handle_rename(cfd, dir, from, to)`. */
  function RenameSpec(d: Disk, inbox: seq<RecvEvent>, dir: string, from: string, to: string): Outcome {
    if JoinPath(dir, from).None? || JoinPath(dir, to).None? then Outcome("ERR bad filename\n", d, inbox)
    else match Resolve(d.files, from)
      case Some(Regular(data)) =>
        var lock := LockStep(d.lockScript);
        if !lock.0 then Outcome("ERR cannot lock\n", d.(lockScript := lock.1), inbox)
        else
          var d1 := d.(locks := d.locks + [Acquired(from, Exclusive), Released(from)], lockScript := lock.1);
          if Resolve(d.files, to) == Some(Directory) then Outcome("ERR rename failed\n", d1, inbox)
          else Outcome("OK RENAMED\n",
            d1.(files := (d.files - {from})[to := Regular(data)], free := d.free + Replaced(d.files, from, to)), inbox)
      case _ => Outcome("ERR not found\n", d, inbox)
  }

  /** Both names are checked before anything else. A rename succeeds exactly
      when the source is a regular file, the lock is granted and the target
      is not a directory; the content then moves to the new name, the old
      name disappears (unless it is the same), no other entry changes, and
      the space of a file it replaces is free again. */
  lemma RenameMovesContent(d: Disk, inbox: seq<RecvEvent>, dir: string, from: string, to: string)
    ensures var o := RenameSpec(d, inbox, dir, from, to);
      (JoinPath(dir, from).None? || JoinPath(dir, to).None?) ==> o == Outcome("ERR bad filename\n", d, inbox)
    ensures var o := RenameSpec(d, inbox, dir, from, to);
      o.reply == "OK RENAMED\n" <==>
        JoinPath(dir, from).Some? && JoinPath(dir, to).Some? &&
        Resolve(d.files, from).Some? && Resolve(d.files, from).value.Regular? &&
        LockStep(d.lockScript).0 && Resolve(d.files, to) != Some(Directory)
    ensures var o := RenameSpec(d, inbox, dir, from, to);
      o.reply == "OK RENAMED\n" ==>
        Resolve(o.disk.files, to) == Resolve(d.files, from) &&
        (from != to ==> from !in o.disk.files) &&
        forall n :: n != from && n != to ==> Resolve(o.disk.files, n) == Resolve(d.files, n)
    ensures var o := RenameSpec(d, inbox, dir, from, to);
      o.reply == "OK RENAMED\n" ==>
        o.disk.free == d.free + (if from != to && to in d.files then |d.files[to].data| else 0)
    ensures var o := RenameSpec(d, inbox, dir, from, to);
      o.reply != "OK RENAMED\n" ==> o.disk.files == d.files && o.disk.free == d.free
    ensures var o := RenameSpec(d, inbox, dir, from, to);
      o.inbox == inbox &&
      (o.disk.locks == d.locks || o.disk.locks == d.locks + [Acquired(from, Exclusive), Released(from)])
  {
  }

  // -------------------------------------------------------------- DELETE

  /** `handle_delete(cfd, dir, name)`: the lock is best effort, `unlink`
      runs whatever it said, and the descriptor, if any, is unlocked. */
  function DeleteSpec(d: Disk, inbox: seq<RecvEvent>, dir: string, name: string): Outcome {
    if JoinPath(dir, name).None? then Outcome("ERR bad filename\n", d, inbox)
    else match Resolve(d.files, name)
      case Some(Regular(_)) =>
        var lock := LockStep(d.lockScript);
        Outcome("OK DELETED\n",
          d.(files := d.files - {name}, lockScript := lock.1, free := d.free + Held(d.files, name),
             locks := d.locks + (if lock.0 then [Acquired(name, Exclusive)] else []) + [Released(name)]),
          inbox)
      case _ => Outcome("ERR delete failed\n", d, inbox)
  }

  /** A delete succeeds exactly when the name is accepted and is a regular
      file, whether or not the lock was granted; the entry is then gone, its
      space is free again, and no other entry changes. A missing file or a directory is a failed
      delete that changes nothing. */
  lemma DeleteIgnoresLock(d: Disk, inbox: seq<RecvEvent>, dir: string, name: string)
    ensures var o := DeleteSpec(d, inbox, dir, name);
      o.reply == "OK DELETED\n" <==>
        JoinPath(dir, name).Some? && Resolve(d.files, name).Some? && Resolve(d.files, name).value.Regular?
    ensures var o := DeleteSpec(d, inbox, dir, name);
      o.reply == "OK DELETED\n" ==>
        name in d.files && o.disk.files == d.files - {name} && o.disk.free == d.free + |d.files[name].data|
    ensures var o := DeleteSpec(d, inbox, dir, name);
      o.reply != "OK DELETED\n" ==> o.disk == d
    ensures var o := DeleteSpec(d, inbox, dir, name);
      o.inbox == inbox && d.locks <= o.disk.locks && LeavesNoLock(o.disk.locks[|d.locks|..])
  {
    var o := DeleteSpec(d, inbox, dir, name);
    var events := o.disk.locks[|d.locks|..];
    if o.reply == "OK DELETED\n" {
      if LockStep(d.lockScript).0 {
        assert events == [Acquired(name, Exclusive), Released(name)];
        assert events[1] == Released(events[0].name);
      } else {
        assert events == [Released(name)];
      }
    }
  }

  // ------------------------------------------------------------ DISPATCH

  /** The handler the dispatcher picks for a command, or its own reply. */
  function Step(d: Disk, inbox: seq<RecvEvent>, dir: string, read: DirReader, cmd: Command): Outcome {
    match cmd
    case List => Outcome(ListReply(d.files, dir, read(d.files)), d, inbox)
    case Upload(name, size) => UploadSpec(d, inbox, dir, name, size)
    case Download(name) => DownloadSpec(d, inbox, dir, name)
    case Rename(from, to) => RenameSpec(d, inbox, dir, from, to)
    case Delete(name) => DeleteSpec(d, inbox, dir, name)
    case Quit => Outcome("OK BYE\n", d, inbox)
    case Unknown => Outcome("ERR unknown command\n", d, inbox)
  }

  /** No command adds to the stream. */
  lemma StepShrinks(d: Disk, inbox: seq<RecvEvent>, dir: string, read: DirReader, cmd: Command)
    ensures Size(Step(d, inbox, dir, read, cmd).inbox) <= Size(inbox)
  {
    if cmd.Upload? {
      UploadProtocol(d, inbox, dir, cmd.name, cmd.size);
    }
  }

  /** A lock taken and then released. */
  lemma PairLeavesNoLock(name: string, mode: LockMode)
    ensures LeavesNoLock([Acquired(name, mode), Released(name)])
  {
    var e := [Acquired(name, mode), Released(name)];
    assert e[1] == Released(e[0].name);
  }

  /** Every command keeps the store to plain names, only appends to the lock
      log, and releases every lock it takes before the next line is read. */
  lemma StepInvariant(d: Disk, inbox: seq<RecvEvent>, dir: string, read: DirReader, cmd: Command)
    requires Valid(d)
    ensures var o := Step(d, inbox, dir, read, cmd);
      Valid(o.disk) && d.locks <= o.disk.locks && LeavesNoLock(o.disk.locks[|d.locks|..])
  {
    var o := Step(d, inbox, dir, read, cmd);
    assert [] == o.disk.locks[|d.locks|..] ==> LeavesNoLock(o.disk.locks[|d.locks|..]);
    match cmd
    case Upload(name, size) =>
      UploadProtocol(d, inbox, dir, name, size);
      PairLeavesNoLock(name, Exclusive);
      assert (d.locks + [Acquired(name, Exclusive), Released(name)])[|d.locks|..] == [Acquired(name, Exclusive), Released(name)];
    case Download(name) =>
      DownloadSendsFile(d, inbox, dir, name);
      PairLeavesNoLock(name, Shared);
      assert (d.locks + [Acquired(name, Shared), Released(name)])[|d.locks|..] == [Acquired(name, Shared), Released(name)];
    case Rename(from, to) =>
      RenameMovesContent(d, inbox, dir, from, to);
      PairLeavesNoLock(from, Exclusive);
      assert (d.locks + [Acquired(from, Exclusive), Released(from)])[|d.locks|..] == [Acquired(from, Exclusive), Released(from)];
    case Delete(name) =>
      DeleteIgnoresLock(d, inbox, dir, name);
    case _ =>
  }

  // ------------------------------------------------------------- SESSION

  /** `client_thread` after the greeting: read a line, chomp it, skip it if
      empty, dispatch it; stop when `recv_line` returns 0 or -1 or after
      QUIT. */
  function Session(d: Disk, inbox: seq<RecvEvent>, dir: string, read: DirReader): Outcome
    decreases Size(inbox)
  {
    var f := RecvLineFrom(inbox, MAX_LINE, []);
    if f.result <= 0 then Outcome([], d, f.rest)
    else
      RecvLineShrinks(inbox, MAX_LINE, []);
      var line := LineSeen(f.bytes);
      if line == [] then Session(d, f.rest, dir, read)
      else
        var cmd := Parse(line);
        var o := Step(d, f.rest, dir, read, cmd);
        if cmd == Quit then o
        else
          StepShrinks(d, f.rest, dir, read, cmd);
          var next := Session(o.disk, o.inbox, dir, read);
          Outcome(o.reply + next.reply, next.disk, next.inbox)
  }

  /** However the session goes, the store keeps to plain names and no lock
      is held at its end: every lock taken is released in the same
      command. */
  lemma {:induction false} SessionReleasesLocks(d: Disk, inbox: seq<RecvEvent>, dir: string, read: DirReader)
    requires Valid(d)
    ensures var o := Session(d, inbox, dir, read);
      Valid(o.disk) && d.locks <= o.disk.locks && LeavesNoLock(o.disk.locks[|d.locks|..])
    decreases Size(inbox)
  {
    var f := RecvLineFrom(inbox, MAX_LINE, []);
    var o := Session(d, inbox, dir, read);
    SessionQuietLine(d, inbox, dir, read);
    SessionUnfold(d, inbox, dir, read);
    if f.result <= 0 {
      assert o.disk.locks[|d.locks|..] == [];
    } else if LineSeen(f.bytes) == [] {
      SessionReleasesLocks(d, f.rest, dir, read);
    } else {
      var cmd := Parse(LineSeen(f.bytes));
      var s := Step(d, f.rest, dir, read, cmd);
      StepInvariant(d, f.rest, dir, read, cmd);
      if cmd != Quit {
        SessionReleasesLocks(s.disk, s.inbox, dir, read);
        var next := Session(s.disk, s.inbox, dir, read);
        LocksReleasedTrans(d.locks, s.disk.locks, next.disk.locks);
      }
    }
  }

  /** Two stretches of a lock log that each release what they lock. */
  lemma LocksReleasedTrans(a: seq<LockEvent>, b: seq<LockEvent>, c: seq<LockEvent>)
    requires a <= b && LeavesNoLock(b[|a|..]) && b <= c && LeavesNoLock(c[|b|..])
    ensures a <= c && LeavesNoLock(c[|a|..])
  {
    PrefixTrans(a, b, c);
    LeavesNoLockAppend(b[|a|..], c[|b|..]);
    assert c[|a|..] == b[|a|..] + c[|b|..];
  }

  /** One line's fate: a blank line gets no reply, an unknown command gets
      `ERR unknown command` and the session goes on, and QUIT gets `OK BYE`
      and ends it with nothing more read. */
  lemma SessionFirstLine(d: Disk, inbox: seq<RecvEvent>, dir: string, read: DirReader)
    ensures var f := RecvLineFrom(inbox, MAX_LINE, []);
      f.result > 0 && LineSeen(f.bytes) == [] ==>
        Session(d, inbox, dir, read) == Session(d, f.rest, dir, read)
    ensures var f := RecvLineFrom(inbox, MAX_LINE, []);
      f.result > 0 && LineSeen(f.bytes) != [] && Parse(LineSeen(f.bytes)) == Unknown ==>
        var next := Session(d, f.rest, dir, read);
        Session(d, inbox, dir, read) == Outcome("ERR unknown command\n" + next.reply, next.disk, next.inbox)
    ensures var f := RecvLineFrom(inbox, MAX_LINE, []);
      f.result > 0 && LineSeen(f.bytes) != [] && Parse(LineSeen(f.bytes)) == Quit ==>
        Session(d, inbox, dir, read) == Outcome("OK BYE\n", d, f.rest)
    ensures var f := RecvLineFrom(inbox, MAX_LINE, []);
      f.result <= 0 ==> Session(d, inbox, dir, read) == Outcome([], d, f.rest)
  {
    SessionQuietLine(d, inbox, dir, read);
    SessionFixedReply(d, inbox, dir, read);
  }

  /** A blank line is skipped; a failed `recv_line` ends the session. */
  lemma SessionQuietLine(d: Disk, inbox: seq<RecvEvent>, dir: string, read: DirReader)
    ensures var f := RecvLineFrom(inbox, MAX_LINE, []);
      f.result > 0 && LineSeen(f.bytes) == [] ==>
        Session(d, inbox, dir, read) == Session(d, f.rest, dir, read)
    ensures var f := RecvLineFrom(inbox, MAX_LINE, []);
      f.result <= 0 ==> Session(d, inbox, dir, read) == Outcome([], d, f.rest)
  {
  }

  /** The two commands whose reply is fixed. */
  lemma SessionFixedReply(d: Disk, inbox: seq<RecvEvent>, dir: string, read: DirReader)
    ensures var f := RecvLineFrom(inbox, MAX_LINE, []);
      f.result > 0 && LineSeen(f.bytes) != [] && Parse(LineSeen(f.bytes)) == Unknown ==>
        var next := Session(d, f.rest, dir, read);
        Session(d, inbox, dir, read) == Outcome("ERR unknown command\n" + next.reply, next.disk, next.inbox)
    ensures var f := RecvLineFrom(inbox, MAX_LINE, []);
      f.result > 0 && LineSeen(f.bytes) != [] && Parse(LineSeen(f.bytes)) == Quit ==>
        Session(d, inbox, dir, read) == Outcome("OK BYE\n", d, f.rest)
  {
    SessionUnfold(d, inbox, dir, read);
  }

  /** One turn of the session for a line that holds a command. */
  lemma SessionUnfold(d: Disk, inbox: seq<RecvEvent>, dir: string, read: DirReader)
    ensures var f := RecvLineFrom(inbox, MAX_LINE, []);
      f.result > 0 ==> Size(f.rest) < Size(inbox)
    ensures var f := RecvLineFrom(inbox, MAX_LINE, []);
      f.result > 0 && LineSeen(f.bytes) != [] ==>
        var cmd := Parse(LineSeen(f.bytes));
        var s := Step(d, f.rest, dir, read, cmd);
        var o := Session(d, inbox, dir, read);
        Size(s.inbox) < Size(inbox) &&
        (cmd == Quit ==> o == s) &&
        (cmd != Quit ==>
          var next := Session(s.disk, s.inbox, dir, read);
          o == Outcome(s.reply + next.reply, next.disk, next.inbox))
  {
    var f := RecvLineFrom(inbox, MAX_LINE, []);
    RecvLineShrinks(inbox, MAX_LINE, []);
    if f.result > 0 && LineSeen(f.bytes) != [] {
      StepShrinks(d, f.rest, dir, read, Parse(LineSeen(f.bytes)));
    }
  }

  // ------------------------------------------------------------- METHODS

  /** `handle_list`: a counting pass, the header, a listing pass, `END`. */
  method HandleList(c: Conn, fs: FileStore, dir: string, listing: Option<seq<string>>)
    modifies c
    ensures c.outbox == old(c.outbox) + ListReply(fs.files, dir, listing)
    ensures c.inbox == old(c.inbox)
  {
    if listing.None? {
      c.Send("ERR cannot open storage\n");
      return;
    }
    var names := listing.value;
    var count := CountNames(names);
    ghost var lines := FileLines(Listed(fs.files, dir, names));
    c.Send(Header(count));
    ListFiles(c, fs.files, dir, names);
    c.Send("END\n");
    ConcatAssoc(old(c.outbox), Header(count), lines);
    ConcatAssoc(old(c.outbox), Header(count) + lines, "END\n");
  }

  /** The first pass of `handle_list`. */
  method CountNames(names: seq<string>) returns (count: nat)
    ensures count == CountEntries(names)
  {
    count := 0;
    var i := 0;
    while i < |names|
      invariant i <= |names|
      invariant count == CountEntries(names[..i])
    {
      assert names[..i + 1][..i] == names[..i];
      if !IsDots(names[i]) {
        count := count + 1;
      }
      i := i + 1;
    }
    assert names[..|names|] == names;
  }

  /** The second pass of `handle_list`: one `FILE` line per regular file. */
  method ListFiles(c: Conn, files: map<string, Node>, dir: string, names: seq<string>)
    modifies c
    ensures c.outbox == old(c.outbox) + FileLines(Listed(files, dir, names))
    ensures c.inbox == old(c.inbox)
  {
    var i := 0;
    while i < |names|
      invariant i <= |names|
      invariant c.outbox == old(c.outbox) + FileLines(Listed(files, dir, names[..i]))
      invariant c.inbox == old(c.inbox)
    {
      ListedLines(files, dir, names, i);
      ConcatAssoc(old(c.outbox), FileLines(Listed(files, dir, names[..i])),
                  FileLines(ListedEntry(files, dir, names[i])));
      ListOne(c, files, dir, names[i]);
      i := i + 1;
    }
    assert names[..|names|] == names;
  }

  /** The FILE lines of one more name. */
  lemma ListedLines(files: map<string, Node>, dir: string, names: seq<string>, i: nat)
    requires i < |names|
    ensures FileLines(Listed(files, dir, names[..i + 1])) ==
      FileLines(Listed(files, dir, names[..i])) + FileLines(ListedEntry(files, dir, names[i]))
  {
    var done := Listed(files, dir, names[..i]);
    var entry := ListedEntry(files, dir, names[i]);
    assert names[..i + 1][..i] == names[..i];
    assert Listed(files, dir, names[..i + 1]) == done + entry;
    FileLinesAppend(done, entry);
  }

  /** One entry of `handle_list`'s second pass: skip "." and "..", build
      the path, `stat` it, and report it if it is a regular file. */
  method ListOne(c: Conn, files: map<string, Node>, dir: string, name: string)
    modifies c
    ensures c.outbox == old(c.outbox) + FileLines(ListedEntry(files, dir, name))
    ensures c.inbox == old(c.inbox)
  {
    if IsDots(name) {
      return;
    }
    var path := JoinPath(dir, name);
    if path.None? {
      return;
    }
    var st := Resolve(files, name);
    if st.Some? && st.value.Regular? {
      assert ListedEntry(files, dir, name) == [(name, |st.value.data|)];
      assert FileLines([(name, |st.value.data|)]) == FileLines([]) + FileLine(name, |st.value.data|);
      c.Send(FileLine(name, |st.value.data|));
    }
  }

  /** `handle_upload`: checks, create-and-truncate, exclusive lock, `OK`,
      then the transfer loop on `remaining`. */
  method HandleUpload(c: Conn, fs: FileStore, dir: string, name: string, size: int)
    modifies c, fs
    ensures var o := UploadSpec(old(fs.State()), old(c.inbox), dir, name, size);
      c.outbox == old(c.outbox) + o.reply && c.inbox == o.inbox && fs.State() == o.disk
  {
    if size < 0 {
      c.Send("ERR invalid size\n");
      return;
    }
    var path := JoinPath(dir, name);
    if path.None? {
      c.Send("ERR bad filename\n");
      return;
    }
    if Resolve(fs.files, name) == Some(Directory) {
      c.Send("ERR cannot open file for write\n");
      return;
    }
    ghost var d0, inbox0 := fs.State(), c.inbox;
    fs.CreateEmpty(name);
    assert fs.free == Room(d0, name);
    var locked := fs.Lock(name, Exclusive);
    if !locked {
      c.Send("ERR cannot lock file\n");
      return;
    }
    ghost var t := UploadLoop(inbox0, size, [], fs.free);
    assert UploadSpec(d0, inbox0, dir, name, size) == UploadTransfer(d0.(lockScript := fs.lockScript), name, t);
    c.Send("OK\n");
    var status := ReceiveFile(c, fs, name, size);
    fs.Unlock(name);
    c.Send(UploadStatus(status));
    ConcatAssoc(old(c.outbox), "OK\n", UploadStatus(status));
    ConcatAssoc(old(fs.locks), [Acquired(name, Exclusive)], [Released(name)]);
  }

  /** The transfer loop of `handle_upload`: `recv_all` chunks of at most
      `BUF` bytes and `write` each to the file until `remaining` reaches 0;
      the bytes in the file are always `size - remaining`. */
  method ReceiveFile(c: Conn, fs: FileStore, name: string, size: nat) returns (status: Status)
    requires name in fs.files && fs.files[name] == Regular([])
    modifies c, fs
    ensures var t := UploadLoop(old(c.inbox), size, [], old(fs.free));
      status == t.status && c.inbox == t.rest && c.outbox == old(c.outbox) &&
      fs.files == old(fs.files)[name := Regular(t.data)] && fs.free == t.free &&
      fs.locks == old(fs.locks) && fs.lockScript == old(fs.lockScript)
  {
    var buf := new char[BUF];
    var remaining: nat := size;
    ghost var t0 := UploadLoop(c.inbox, size, [], fs.free);
    ghost var data: seq<char> := [];
    while remaining > 0
      invariant name in fs.files && fs.files[name] == Regular(data)
      invariant fs.files == old(fs.files)[name := Regular(data)]
      invariant |data| == size - remaining
      invariant UploadLoop(c.inbox, remaining, data, fs.free) == t0
      invariant fs.locks == old(fs.locks) && fs.lockScript == old(fs.lockScript)
      invariant c.outbox == old(c.outbox)
      decreases remaining
    {
      var left, done;
      left, done, status := StoreChunk(c, fs, name, buf, remaining, t0);
      if done {
        return;
      }
      remaining, data := left, fs.files[name].data;
    }
    status := Saved;
  }

  /** One turn of the transfer loop: `recv_all` a chunk of at most `BUF`
      bytes into `buf` and `write` it to the end of the file. Either the
      loop ends here with `status`, or `n` more bytes are in the file and
      the loop goes on with the rest of the stream. */
  method StoreChunk(c: Conn, fs: FileStore, name: string, buf: array<char>, remaining: nat,
                    ghost t: Transfer)
    returns (left: nat, done: bool, status: Status)
    requires 0 < remaining && BUF <= buf.Length
    requires name in fs.files && fs.files[name].Regular?
    requires t == UploadLoop(c.inbox, remaining, fs.files[name].data, fs.free)
    modifies c, fs, buf
    ensures name in fs.files && fs.files[name].Regular?
    ensures fs.files == old(fs.files)[name := fs.files[name]]
    ensures if done then t == Transfer(status, fs.files[name].data, c.inbox, fs.free)
      else (left < remaining && |fs.files[name].data| == |old(fs.files[name].data)| + (remaining - left) &&
        t == UploadLoop(c.inbox, left, fs.files[name].data, fs.free))
    ensures fs.locks == old(fs.locks) && fs.lockScript == old(fs.lockScript)
    ensures c.outbox == old(c.outbox)
  {
    var chunk := if remaining > BUF then BUF else remaining;
    ghost var f := RecvAllFrom(c.inbox, chunk, []);
    ghost var data, free := fs.files[name].data, fs.free;
    UploadLoopStep(c.inbox, remaining, data, free, chunk, f);
    var got := RecvAll(c, buf, chunk);
    if got <= 0 {
      return 0, true, RecvFailed;
    }
    assert buf[..got] == f.bytes;
    var w := fs.Append(name, buf[..got]);
    if w != got {
      return 0, true, WriteFailed;
    }
    assert buf[..got][..Stored(w)] == f.bytes;
    assert fs.files[name].data == data + f.bytes && fs.free == free - got && c.inbox == f.rest;
    return remaining - got, false, Saved;
  }

  /** `handle_download`: check, open, shared lock, regular-file test, the
      header, then the file's bytes chunk by chunk. */
  method HandleDownload(c: Conn, fs: FileStore, dir: string, name: string)
    modifies c, fs
    ensures var o := DownloadSpec(old(fs.State()), old(c.inbox), dir, name);
      c.outbox == old(c.outbox) + o.reply && c.inbox == o.inbox && fs.State() == o.disk
  {
    var path := JoinPath(dir, name);
    if path.None? {
      c.Send("ERR bad filename\n");
      return;
    }
    var node := Resolve(fs.files, name);
    if node.None? {
      c.Send("ERR not found\n");
      return;
    }
    var locked := fs.Lock(name, Shared);
    if !locked {
      c.Send("ERR cannot lock file\n");
      return;
    }
    if node.value.Directory? {
      fs.Unlock(name);
      c.Send("ERR not a file\n");
      return;
    }
    var data := node.value.data;
    c.Send(Header(|data|));
    SendBody(c, data);
    fs.Unlock(name);
    assert fs.locks == old(fs.locks) + [Acquired(name, Shared), Released(name)];
  }

  /** The body of a download: `sendfile` (or its read/send fallback) from
      `offset` on until the whole file has gone, at most `BUF` bytes a turn. */
  method SendBody(c: Conn, data: seq<char>)
    modifies c
    ensures c.outbox == old(c.outbox) + data && c.inbox == old(c.inbox)
  {
    var offset := 0;
    while offset < |data|
      invariant offset <= |data|
      invariant c.outbox == old(c.outbox) + data[..offset] && c.inbox == old(c.inbox)
      decreases |data| - offset
    {
      var n := if |data| - offset > BUF then BUF else |data| - offset;
      assert data[..offset + n] == data[..offset] + data[offset..offset + n];
      c.Send(data[offset..offset + n]);
      offset := offset + n;
    }
    assert data[..|data|] == data;
  }

  /** `handle_rename`: both checks, open the source, exclusive lock,
      `rename`, unlock. */
  method HandleRename(c: Conn, fs: FileStore, dir: string, from: string, to: string)
    modifies c, fs
    ensures var o := RenameSpec(old(fs.State()), old(c.inbox), dir, from, to);
      c.outbox == old(c.outbox) + o.reply && c.inbox == o.inbox && fs.State() == o.disk
  {
    var fromPath := JoinPath(dir, from);
    var toPath := JoinPath(dir, to);
    if fromPath.None? || toPath.None? {
      c.Send("ERR bad filename\n");
      return;
    }
    var node := Resolve(fs.files, from);
    if node.None? || node.value.Directory? {
      c.Send("ERR not found\n");
      return;
    }
    var locked := fs.Lock(from, Exclusive);
    if !locked {
      c.Send("ERR cannot lock\n");
      return;
    }
    var renamed := Resolve(fs.files, to) != Some(Directory);
    if renamed {
      fs.Move(from, to);
    }
    fs.Unlock(from);
    if !renamed {
      c.Send("ERR rename failed\n");
      return;
    }
    c.Send("OK RENAMED\n");
  }

  /** `handle_delete`: check, best-effort open and lock, `unlink`, unlock. */
  method HandleDelete(c: Conn, fs: FileStore, dir: string, name: string)
    modifies c, fs
    ensures var o := DeleteSpec(old(fs.State()), old(c.inbox), dir, name);
      c.outbox == old(c.outbox) + o.reply && c.inbox == o.inbox && fs.State() == o.disk
  {
    var path := JoinPath(dir, name);
    if path.None? {
      c.Send("ERR bad filename\n");
      return;
    }
    var node := Resolve(fs.files, name);
    var hasFd := node.Some? && node.value.Regular?;
    if hasFd {
      var locked := fs.Lock(name, Exclusive);
    }
    var unlinked := node.Some? && node.value.Regular?;
    if unlinked {
      fs.Remove(name);
    }
    if hasFd {
      fs.Unlock(name);
    }
    if !unlinked {
      c.Send("ERR delete failed\n");
      return;
    }
    c.Send("OK DELETED\n");
  }

  /** The `if`/`else if` chain of `client_thread` for one parsed line; says
      whether the session goes on. */
  method Dispatch(c: Conn, fs: FileStore, dir: string, read: DirReader, cmd: Command) returns (more: bool)
    modifies c, fs
    ensures var o := Step(old(fs.State()), old(c.inbox), dir, read, cmd);
      c.outbox == old(c.outbox) + o.reply && c.inbox == o.inbox && fs.State() == o.disk
    ensures more <==> cmd != Quit
  {
    more := true;
    match cmd
    case List => HandleList(c, fs, dir, read(fs.files));
    case Upload(name, size) => HandleUpload(c, fs, dir, name, size);
    case Download(name) => HandleDownload(c, fs, dir, name);
    case Rename(from, to) => HandleRename(c, fs, dir, from, to);
    case Delete(name) => HandleDelete(c, fs, dir, name);
    case Quit =>
      c.Send("OK BYE\n");
      more := false;
    case Unknown => c.Send("ERR unknown command\n");
  }

  /** `recv_line` into `line` and `chomp` it: the line as the dispatcher
      reads it is `line[..len]`, and it is blank exactly when `line[0]` is
      NUL. */
  method ReadLine(c: Conn, line: array<char>) returns (n: int, len: nat)
    requires line.Length == MAX_LINE
    modifies c, line
    ensures var f := RecvLineFrom(old(c.inbox), MAX_LINE, []);
      n == f.result && c.inbox == f.rest && c.outbox == old(c.outbox) &&
      (n > 0 ==> len < line.Length && line[..len] == LineSeen(f.bytes) && (line[0] == NUL <==> len == 0))
  {
    ghost var f := RecvLineFrom(c.inbox, MAX_LINE, []);
    n := RecvLine(c, line, MAX_LINE);
    if n <= 0 {
      return n, 0;
    }
    CStrOfTerminated(line[..], f.bytes);
    len := ChompInPlace(line);
    assert len > 0 ==> line[0] != NUL by {
      if len > 0 {
        assert line[0] == line[..len][0];
        assert line[..len] <= CStr(f.bytes);
      }
    }
  }

  /** One turn of `client_thread`'s loop: receive a line, chomp it, and
      dispatch it unless it is empty. Says whether the loop goes on; when it
      does, the stream has shrunk and the session from the new state
      completes the session from the old one. */
  method ServeLine(c: Conn, fs: FileStore, dir: string, read: DirReader, line: array<char>) returns (more: bool)
    requires line.Length == MAX_LINE
    modifies c, fs, line
    ensures var o := Session(old(fs.State()), old(c.inbox), dir, read);
      more ==> (Size(c.inbox) < Size(old(c.inbox)) &&
        var rest := Session(fs.State(), c.inbox, dir, read);
        c.outbox + rest.reply == old(c.outbox) + o.reply && rest.disk == o.disk && rest.inbox == o.inbox)
    ensures var o := Session(old(fs.State()), old(c.inbox), dir, read);
      !more ==> c.outbox == old(c.outbox) + o.reply && fs.State() == o.disk && c.inbox == o.inbox
  {
    ghost var d, inbox, out := fs.State(), c.inbox, c.outbox;
    SessionUnfold(d, inbox, dir, read);
    SessionFirstLine(d, inbox, dir, read);
    var n, len := ReadLine(c, line);
    if n <= 0 {
      return false;
    }
    if line[0] == NUL {
      return true;
    }
    var cmd := Parse(line[..len]);
    more := Dispatch(c, fs, dir, read, cmd);
    if more {
      ConcatAssoc(out, Step(d, RecvLineFrom(inbox, MAX_LINE, []).rest, dir, read, cmd).reply,
        Session(fs.State(), c.inbox, dir, read).reply);
    }
  }

  /** `client_thread`: the greeting, then one line at a time until
      `recv_line` returns 0 or -1 or the client quits. */
  method Serve(c: Conn, fs: FileStore, dir: string, read: DirReader)
    modifies c, fs
    ensures var o := Session(old(fs.State()), old(c.inbox), dir, read);
      c.outbox == old(c.outbox) + "OK WELCOME\n" + o.reply && c.inbox == o.inbox && fs.State() == o.disk
  {
    c.Send("OK WELCOME\n");
    var line := new char[MAX_LINE];
    ghost var d0 := fs.State();
    ghost var inbox0 := c.inbox;
    ghost var out0 := c.outbox;
    var more := true;
    while more
      invariant more ==> var o := Session(fs.State(), c.inbox, dir, read);
        var o0 := Session(d0, inbox0, dir, read);
        c.outbox + o.reply == out0 + o0.reply && o.disk == o0.disk && o.inbox == o0.inbox
      invariant !more ==> var o0 := Session(d0, inbox0, dir, read);
        c.outbox == out0 + o0.reply && fs.State() == o0.disk && c.inbox == o0.inbox
      decreases more, Size(c.inbox)
    {
      more := ServeLine(c, fs, dir, read, line);
    }
  }
}
