/** server_windows.c: the per-connection engine of the Win32 server. The
    protocol and the dispatcher are those of the POSIX server; what differs is
    underneath: the framed I/O of `WinIo`, '\' as separator into a 260-byte
    MAX_PATH buffer, a directory listing taken by `FindFirstFile` twice, no
    file locking at all, `MoveFile` (which never replaces an existing entry)
    and `DeleteFile`. Each handler is again a function to an `Outcome` and a
    method proved to produce exactly that outcome. */
module WinServer {
  import opened Text
  import opened Scan
  import opened Stream
  import opened WinIo
  import opened PathGuard
  import opened Store
  import opened Protocol
  import Server

  /** MAX_PATH of <windows.h>: the path buffers and `a1`, `a2`. */
  const WIN_MAX_PATH: nat := 260

  /** `path_join` with '\' into a MAX_PATH buffer. */
  function JoinPath(dir: string, name: string): Option<string> {
    PathJoin(dir, name, '\\', WIN_MAX_PATH)
  }

  // ---------------------------------------------------------------- LIST

  /** One WIN32_FIND_DATA: `cFileName`, FILE_ATTRIBUTE_DIRECTORY, and the
      size assembled from `nFileSizeHigh:nFileSizeLow`. */
  datatype FindData = FindData(name: string, isDir: bool, size: nat)

  /** What `FindFirstFile`/`FindNextFile` enumerate for `dir\*` ("." and
      ".." included); an empty enumeration is a `FindFirstFile` that
      returns INVALID_HANDLE_VALUE. */
  type Finder = map<string, Node> -> seq<FindData>

  /** An entry that both passes of `handle_list` act on: not "." or ".."
      and not a directory. */
  predicate Counted(e: FindData) {
    !Server.IsDots(e.name) && !e.isDir
  }

  /** The counting pass. */
  function CountFiles(entries: seq<FindData>): nat {
    if entries == [] then 0
    else CountFiles(entries[..|entries| - 1]) + (if Counted(entries[|entries| - 1]) then 1 else 0)
  }

  /** What the listing pass reports for one entry. */
  function ListedEntry(e: FindData): seq<(string, int)> {
    if Counted(e) then [(e.name, e.size as int)] else []
  }

  /** The listing pass: a FILE line for every counted entry. */
  function ListedFiles(entries: seq<FindData>): seq<(string, int)> {
    if entries == [] then []
    else ListedFiles(entries[..|entries| - 1]) + ListedEntry(entries[|entries| - 1])
  }

  /** What the listing pass walks: the second `FindFirstFile`'s
      enumeration, or, when that call fails, the entry the first pass left
      in `find_data`, once (its result is not checked). */
  function SecondPass(first: seq<FindData>, second: seq<FindData>): seq<FindData>
    requires first != []
  {
    if second == [] then [first[|first| - 1]] else second
  }

  /** `handle_list`'s reply, given what the two `FindFirstFile` calls
      enumerate. */
  function ListReply(first: seq<FindData>, second: seq<FindData>): string {
    if first == [] then "ERR cannot open storage\n"
    else Header(CountFiles(first)) + FileLines(ListedFiles(SecondPass(first, second))) + "END\n"
  }

  /** Both passes skip the same entries, so over one enumeration the count
      is the number of FILE lines. */
  lemma {:induction false} ListCountMatches(entries: seq<FindData>)
    ensures |ListedFiles(entries)| == CountFiles(entries)
  {
    if entries != [] {
      ListCountMatches(entries[..|entries| - 1]);
    }
  }

  /** When the two passes see the same directory, the header announces
      exactly as many FILE lines as follow it. */
  lemma ListHeaderIsExact(entries: seq<FindData>)
    requires entries != []
    ensures ListReply(entries, entries) ==
      Header(|ListedFiles(entries)|) + FileLines(ListedFiles(entries)) + "END\n"
  {
    ListCountMatches(entries);
  }

  /** If the second `FindFirstFile` fails, the listing pass reports the
      stale last entry of the first pass: two files are announced, one is
      listed. */
  lemma ListStaleSecondPass()
    ensures var first := [FindData(".", true, 0), FindData("a", false, 1), FindData("b", false, 2)];
      CountFiles(first) == 2 && ListedFiles(SecondPass(first, [])) == [("b", 2)]
  {
    var first := [FindData(".", true, 0), FindData("a", false, 1), FindData("b", false, 2)];
    assert first[..2] == [FindData(".", true, 0), FindData("a", false, 1)];
    assert first[..2][..1] == [FindData(".", true, 0)];
    assert [FindData(".", true, 0)][..0] == [];
    assert CountFiles([FindData(".", true, 0)]) == 0;
    assert [FindData("b", false, 2)][..0] == [];
  }

  /** The enumeration reports the directory truthfully: every entry but "."
      and ".." is in the store, flagged as a directory exactly when it is
      one, with a regular file's size. */
  predicate Describes(files: map<string, Node>, entries: seq<FindData>) {
    forall i :: 0 <= i < |entries| && !Server.IsDots(entries[i].name) ==>
      entries[i].name in files && (entries[i].isDir <==> files[entries[i].name].Directory?) &&
      (!entries[i].isDir ==> entries[i].size == |files[entries[i].name].data|)
  }

  /** Over a truthful enumeration, every FILE line names a regular file of
      the store with its size. */
  lemma {:induction false} ListedAreFiles(files: map<string, Node>, entries: seq<FindData>)
    requires Describes(files, entries)
    ensures forall e :: e in ListedFiles(entries) ==>
      e.0 in files && files[e.0].Regular? && e.1 == |files[e.0].data|
  {
    if entries != [] {
      var init := entries[..|entries| - 1];
      assert Describes(files, init) by {
        forall i | 0 <= i < |init| ensures init[i] == entries[i] { }
      }
      ListedAreFiles(files, init);
    }
  }

  /** Over a truthful enumeration that names every entry of a store of
      plain names, every regular file gets its FILE line. */
  lemma {:induction false} ListsEveryFile(files: map<string, Node>, entries: seq<FindData>, name: string)
    requires Describes(files, entries) && name in files && PlainName(name) && files[name].Regular?
    requires exists i :: 0 <= i < |entries| && entries[i].name == name
    ensures (name, |files[name].data|) in ListedFiles(entries)
  {
    var last := entries[|entries| - 1];
    var init := entries[..|entries| - 1];
    if last.name == name {
      assert Counted(last);
    } else {
      var i :| 0 <= i < |entries| && entries[i].name == name;
      assert init[i] == entries[i];
      assert Describes(files, init) by {
        forall j | 0 <= j < |init| ensures init[j] == entries[j] { }
      }
      ListsEveryFile(files, init, name);
    }
  }

  // -------------------------------------------------------------- UPLOAD

  /** The transfer loop from the point where `data` is in the file and
      `remaining` bytes are still due: `recv_all` yields the whole chunk or
      SOCKET_ERROR, and a failed or short `WriteFile` ends the loop. */
  function UploadLoop(inbox: seq<RecvEvent>, remaining: nat, data: seq<char>, free: nat): Server.Transfer
    decreases remaining
  {
    if remaining == 0 then Server.Transfer(Server.Saved, data, inbox, free)
    else
      var chunk := if remaining > Server.BUF then Server.BUF else remaining;
      var f := WinRecvAllFrom(inbox, chunk, []);
      if f.result == SOCKET_ERROR then Server.Transfer(Server.RecvFailed, data, f.rest, free)
      else
        WinRecvAllCounts(inbox, chunk, []);
        var w := Written(free, chunk);
        if w != chunk then Server.Transfer(Server.WriteFailed, data + f.bytes[..Stored(w)], f.rest, free - Stored(w))
        else UploadLoop(f.rest, remaining - chunk, data + f.bytes, free - chunk)
  }

  /** One turn of the transfer loop. */
  lemma UploadLoopStep(inbox: seq<RecvEvent>, remaining: nat, data: seq<char>, free: nat,
                       chunk: nat, f: Fill)
    requires 0 < remaining && chunk == (if remaining > Server.BUF then Server.BUF else remaining)
    requires f == WinRecvAllFrom(inbox, chunk, [])
    ensures f.result == SOCKET_ERROR || (f.result == chunk && |f.bytes| == chunk)
    ensures f.result != SOCKET_ERROR ==> f.bytes + Pending(f.rest) == Pending(inbox)
    ensures Written(free, chunk) == chunk ==> chunk <= free
    ensures var t := UploadLoop(inbox, remaining, data, free);
      f.result == SOCKET_ERROR ==> t == Server.Transfer(Server.RecvFailed, data, f.rest, free)
    ensures f.result != SOCKET_ERROR ==>
      var t := UploadLoop(inbox, remaining, data, free); var w := Written(free, chunk);
      (w != chunk ==> t == Server.Transfer(Server.WriteFailed, data + f.bytes[..Stored(w)], f.rest, free - Stored(w))) &&
      (w == chunk ==> t == UploadLoop(f.rest, remaining - chunk, data + f.bytes, free - chunk))
  {
    WinRecvAllOutcome(inbox, chunk, []);
    assert [] + Pending(inbox) == Pending(inbox);
    UploadLoopUnfold(inbox, remaining, data, free, chunk, f);
  }

  /** The transfer loop's definition, one turn unfolded. */
  lemma UploadLoopUnfold(inbox: seq<RecvEvent>, remaining: nat, data: seq<char>, free: nat,
                         chunk: nat, f: Fill)
    requires 0 < remaining && chunk == (if remaining > Server.BUF then Server.BUF else remaining)
    requires f == WinRecvAllFrom(inbox, chunk, [])
    ensures f.result == SOCKET_ERROR || (f.result == chunk && |f.bytes| == chunk)
    ensures var t := UploadLoop(inbox, remaining, data, free);
      f.result == SOCKET_ERROR ==> t == Server.Transfer(Server.RecvFailed, data, f.rest, free)
    ensures f.result != SOCKET_ERROR ==>
      var t := UploadLoop(inbox, remaining, data, free); var w := Written(free, chunk);
      (w != chunk ==> t == Server.Transfer(Server.WriteFailed, data + f.bytes[..Stored(w)], f.rest, free - Stored(w))) &&
      (w == chunk ==> t == UploadLoop(f.rest, remaining - chunk, data + f.bytes, free - chunk))
  {
    WinRecvAllCounts(inbox, chunk, []);
  }

  /** `handle_upload(sock, dir, name, size)`: no lock is taken. */
  function UploadSpec(d: Disk, inbox: seq<RecvEvent>, dir: string, name: string, size: int): Server.Outcome {
    if size < 0 then Server.Outcome("ERR invalid size\n", d, inbox)
    else if JoinPath(dir, name).None? then Server.Outcome("ERR bad filename\n", d, inbox)
    else if Resolve(d.files, name) == Some(Directory) then
      Server.Outcome("ERR cannot open file for write\n", d, inbox)
    else UploadTransfer(d, name, UploadLoop(inbox, size, [], Room(d, name)))
  }

  /** `handle_upload` once `CreateFile` has truncated the file: `OK`, the
      transfer loop that ended as `t`, and the status line. */
  function UploadTransfer(d: Disk, name: string, t: Server.Transfer): Server.Outcome {
    Server.Outcome("OK\n" + Server.UploadStatus(t.status),
      d.(files := d.files[name := Regular(t.data)], free := t.free), t.rest)
  }

  /** The transfer loop only appends, never writes more than is due, pays
      for what it writes, and never adds to the stream. */
  lemma UploadLoopBounds(inbox: seq<RecvEvent>, remaining: nat, data: seq<char>, free: nat)
    ensures var t := UploadLoop(inbox, remaining, data, free);
      data <= t.data && |t.data| <= |data| + remaining &&
      t.free + |t.data| == free + |data| && Size(t.rest) <= Size(inbox)
  {
    UploadLoopGrows(inbox, remaining, data, free);
    UploadLoopShrinks(inbox, remaining, data, free);
  }

  /** The loop only appends, at most `remaining` bytes, each paid for. */
  lemma {:induction false} UploadLoopGrows(inbox: seq<RecvEvent>, remaining: nat, data: seq<char>, free: nat)
    ensures Server.Grown(data, remaining, free, UploadLoop(inbox, remaining, data, free))
    decreases remaining
  {
    var t := UploadLoop(inbox, remaining, data, free);
    if remaining == 0 {
      Server.GrownShort(data, [], 0, 0, free, t);
    } else {
      var chunk := if remaining > Server.BUF then Server.BUF else remaining;
      var f := WinRecvAllFrom(inbox, chunk, []);
      UploadLoopStep(inbox, remaining, data, free, chunk, f);
      if f.result == SOCKET_ERROR {
        Server.GrownShort(data, [], 0, remaining, free, t);
      } else {
        var w := Written(free, chunk);
        if w == chunk {
          var rest, more, room := f.rest, remaining - chunk, free - chunk;
          var next := UploadLoop(rest, more, data + f.bytes, room);
          assert t == next;
          UploadLoopGrows(rest, more, data + f.bytes, room);
          Server.GrownAfter(data, f.bytes, chunk, remaining, free, next);
        } else {
          Server.GrownShort(data, f.bytes, Stored(w), remaining, free, t);
        }
      }
    }
  }

  /** The loop never adds to the stream. */
  lemma {:induction false} UploadLoopShrinks(inbox: seq<RecvEvent>, remaining: nat, data: seq<char>, free: nat)
    ensures Size(UploadLoop(inbox, remaining, data, free).rest) <= Size(inbox)
    decreases remaining
  {
    if remaining > 0 {
      var chunk := if remaining > Server.BUF then Server.BUF else remaining;
      var f := WinRecvAllFrom(inbox, chunk, []);
      WinRecvAllShrinks(inbox, chunk, []);
      UploadLoopStep(inbox, remaining, data, free, chunk, f);
      if f.result != SOCKET_ERROR && Written(free, chunk) == chunk {
        var rest, more, room := f.rest, remaining - chunk, free - chunk;
        assert UploadLoop(inbox, remaining, data, free) == UploadLoop(rest, more, data + f.bytes, room);
        UploadLoopShrinks(rest, more, data + f.bytes, room);
      }
    }
  }

  /** A transfer that saves has received the next `remaining` bytes and had
      room for them; the file ends with exactly those bytes. */
  lemma {:induction false} UploadLoopSavedOnly(inbox: seq<RecvEvent>, remaining: nat, data: seq<char>, free: nat)
    ensures var t := UploadLoop(inbox, remaining, data, free);
      Server.SavedFrom(data, Pending(inbox), remaining, free, t, Pending(t.rest))
    decreases remaining
  {
    var t := UploadLoop(inbox, remaining, data, free);
    if remaining > 0 && t.status == Server.Saved {
      var chunk := if remaining > Server.BUF then Server.BUF else remaining;
      var f := WinRecvAllFrom(inbox, chunk, []);
      UploadLoopStep(inbox, remaining, data, free, chunk, f);
      assert f.result == chunk && Written(free, chunk) == chunk;
      var rest, more, room := f.rest, remaining - chunk, free - chunk;
      var next := UploadLoop(rest, more, data + f.bytes, room);
      assert t == next;
      UploadLoopSavedOnly(rest, more, data + f.bytes, room);
      Server.SavedFromAfter(data, f.bytes, chunk, Pending(rest), Pending(inbox), remaining, free, next, Pending(next.rest));
    } else if remaining == 0 {
      assert t == Server.Transfer(Server.Saved, data, inbox, free);
      assert Pending(inbox)[..0] == [] && Pending(inbox)[0..] == Pending(inbox);
    }
  }

  /** When the next `remaining` bytes arrive without an interrupted call and
      fit, the transfer saves. */
  lemma {:induction false} UploadLoopSavedWhen(inbox: seq<RecvEvent>, remaining: nat, data: seq<char>, free: nat)
    requires remaining <= |Pending(inbox)| && remaining <= free
    requires forall i :: 0 <= i < |inbox| ==> !inbox[i].Interrupted?
    ensures UploadLoop(inbox, remaining, data, free).status == Server.Saved
    decreases remaining
  {
    if remaining > 0 {
      var chunk := if remaining > Server.BUF then Server.BUF else remaining;
      var f := WinRecvAllFrom(inbox, chunk, []);
      UploadLoopStep(inbox, remaining, data, free, chunk, f);
      WinRecvAllOutcome(inbox, chunk, []);
      WinRecvAllFull(inbox, chunk, []);
      assert f.bytes + Pending(f.rest) == Pending(inbox);
      UploadLoopSavedWhen(f.rest, remaining - chunk, data + f.bytes, free - chunk);
    }
  }

  /** Both checks come before `CreateFile`: a negative size or a refused
      name reads nothing and changes nothing. */
  lemma UploadChecksFirst(d: Disk, inbox: seq<RecvEvent>, dir: string, name: string, size: int)
    requires size < 0 || JoinPath(dir, name).None?
    ensures var o := UploadSpec(d, inbox, dir, name, size);
      o.disk == d && o.inbox == inbox &&
      o.reply == (if size < 0 then "ERR invalid size\n" else "ERR bad filename\n")
  {
  }

  /** `OK` goes out before any payload byte is read, no lock is ever taken,
      and the stream never grows. */
  lemma UploadProtocol(d: Disk, inbox: seq<RecvEvent>, dir: string, name: string, size: int)
    ensures var o := UploadSpec(d, inbox, dir, name, size);
      (o.inbox != inbox ==> StartsWith(o.reply, "OK\n")) &&
      o.disk.locks == d.locks && o.disk.lockScript == d.lockScript &&
      Size(o.inbox) <= Size(inbox)
  {
    if size >= 0 {
      UploadLoopBounds(inbox, size, [], Room(d, name));
    }
  }

  /** A saved upload has passed the checks and received the next `size`
      bytes, which fit; the file holds exactly those bytes and the stream
      resumes right after them. */
  lemma UploadSaved(d: Disk, inbox: seq<RecvEvent>, dir: string, name: string, size: int)
    ensures var o := UploadSpec(d, inbox, dir, name, size);
      o.reply == "OK\nOK SAVED\n" ==>
        0 <= size && JoinPath(dir, name).Some? && Resolve(d.files, name) != Some(Directory) &&
        size <= |Pending(inbox)| && size <= Room(d, name) &&
        o.disk.files == d.files[name := Regular(Pending(inbox)[..size])] &&
        Pending(o.inbox) == Pending(inbox)[size..] && o.disk.free == Room(d, name) - size
  {
    var o := UploadSpec(d, inbox, dir, name, size);
    if 0 <= size && JoinPath(dir, name).Some? && Resolve(d.files, name) != Some(Directory) {
      var t := UploadLoop(inbox, size, [], Room(d, name));
      assert o == UploadTransfer(d, name, t);
      Server.UploadStatusDistinct(t);
      UploadLoopSavedOnly(inbox, size, [], Room(d, name));
      UploadLoopBounds(inbox, size, [], Room(d, name));
      if t.status == Server.Saved {
        assert [] + Pending(inbox)[..size] == Pending(inbox)[..size];
        assert |t.data| == size;
      }
    } else {
      assert o.reply[0] == 'E';
    }
  }

  /** When the checks pass and the next `size` bytes arrive without an
      interrupted call and fit, the upload is saved. */
  lemma UploadSavesWhen(d: Disk, inbox: seq<RecvEvent>, dir: string, name: string, size: int)
    requires 0 <= size && JoinPath(dir, name).Some? && Resolve(d.files, name) != Some(Directory)
    requires size <= |Pending(inbox)| && size <= Room(d, name)
    requires forall i :: 0 <= i < |inbox| ==> !inbox[i].Interrupted?
    ensures UploadSpec(d, inbox, dir, name, size).reply == "OK\nOK SAVED\n"
  {
    var t := UploadLoop(inbox, size, [], Room(d, name));
    UploadLoopSavedWhen(inbox, size, [], Room(d, name));
    assert UploadSpec(d, inbox, dir, name, size).reply == "OK\n" + Server.UploadStatus(t.status);
    Server.UploadStatusDistinct(t);
  }

  /** An interrupted `recv` aborts the upload, even with all bytes on
      their way: one Interrupted before the payload is enough. */
  lemma UploadInterruptedFails(d: Disk, rest: seq<RecvEvent>, dir: string, name: string, size: int)
    requires 0 < size && JoinPath(dir, name).Some? && Resolve(d.files, name) != Some(Directory)
    ensures UploadSpec(d, [Interrupted] + rest, dir, name, size).reply == "OK\nERR recv data failed\n"
  {
    var t := UploadLoop([Interrupted] + rest, size, [], Room(d, name));
    UploadLoopInterrupted(rest, size, Room(d, name));
    assert UploadSpec(d, [Interrupted] + rest, dir, name, size) == UploadTransfer(d, name, t);
    RecvFailedReply();
  }

  /** The reply line of a transfer that failed to receive. */
  lemma RecvFailedReply()
    ensures "OK\n" + Server.UploadStatus(Server.RecvFailed) == "OK\nERR recv data failed\n"
  {
  }

  /** The transfer loop fails on an interrupted first `recv`. */
  lemma UploadLoopInterrupted(rest: seq<RecvEvent>, size: nat, free: nat)
    requires 0 < size
    ensures UploadLoop([Interrupted] + rest, size, [], free).status == Server.RecvFailed
  {
    var inbox := [Interrupted] + rest;
    var chunk := if size > Server.BUF then Server.BUF else size;
    var f := WinRecvAllFrom(inbox, chunk, []);
    assert RecvStep(inbox, chunk).0 == Eintr;
    UploadLoopStep(inbox, size, [], free, chunk, f);
  }

  // ------------------------------------------------------------ DOWNLOAD

  /** `handle_download(sock, dir, name)`: `CreateFile` with OPEN_EXISTING
      fails on a missing name and on a directory alike. */
  function DownloadSpec(d: Disk, inbox: seq<RecvEvent>, dir: string, name: string): Server.Outcome {
    if JoinPath(dir, name).None? then Server.Outcome("ERR bad filename\n", d, inbox)
    else match Resolve(d.files, name)
      case Some(Regular(data)) => Server.Outcome(Header(|data|) + data, d, inbox)
      case _ => Server.Outcome("ERR not found\n", d, inbox)
  }

  /** A download reads nothing and changes nothing. It sends a header and
      then exactly the file's bytes precisely when the name is accepted and
      is a regular file; otherwise one error line. */
  lemma DownloadSendsFile(d: Disk, inbox: seq<RecvEvent>, dir: string, name: string)
    ensures var o := DownloadSpec(d, inbox, dir, name); o.inbox == inbox && o.disk == d
    ensures var o := DownloadSpec(d, inbox, dir, name);
      StartsWith(o.reply, "OK ") <==>
        JoinPath(dir, name).Some? && Resolve(d.files, name).Some? && Resolve(d.files, name).value.Regular?
    ensures var o := DownloadSpec(d, inbox, dir, name);
      StartsWith(o.reply, "OK ") ==>
        var data := Resolve(d.files, name).value.data; o.reply == Header(|data|) + data
    ensures var o := DownloadSpec(d, inbox, dir, name);
      !StartsWith(o.reply, "OK ") ==> o.reply in {"ERR bad filename\n", "ERR not found\n"}
  {
    var o := DownloadSpec(d, inbox, dir, name);
    if JoinPath(dir, name).Some? && Resolve(d.files, name).Some? && Resolve(d.files, name).value.Regular? {
      var data := Resolve(d.files, name).value.data;
      assert o.reply == Header(|data|) + data;
      assert o.reply[..3] == "OK ";
    } else {
      assert o.reply[0] == 'E';
      assert "OK "[0] == 'O';
    }
  }

  // -------------------------------------------------------------- RENAME

  /** `handle_rename(sock, dir, from, to)`: `MoveFile` moves an existing
      entry to a name that does not exist yet. */
  function RenameSpec(d: Disk, inbox: seq<RecvEvent>, dir: string, from: string, to: string): Server.Outcome {
    if JoinPath(dir, from).None? || JoinPath(dir, to).None? then Server.Outcome("ERR bad filename\n", d, inbox)
    else if from in d.files && Resolve(d.files, to).None? then
      Server.Outcome("OK RENAMED\n", d.(files := (d.files - {from})[to := d.files[from]]), inbox)
    else Server.Outcome("ERR rename failed\n", d, inbox)
  }

  /** A rename succeeds exactly when both names are accepted, the source
      exists and the target does not; the entry then moves, and no other
      entry changes: unlike POSIX `rename`, nothing is ever replaced. */
  lemma RenameMovesContent(d: Disk, inbox: seq<RecvEvent>, dir: string, from: string, to: string)
    ensures var o := RenameSpec(d, inbox, dir, from, to);
      o.reply == "OK RENAMED\n" <==>
        JoinPath(dir, from).Some? && JoinPath(dir, to).Some? && from in d.files && Resolve(d.files, to).None?
    ensures var o := RenameSpec(d, inbox, dir, from, to);
      o.reply == "OK RENAMED\n" ==>
        from != to && from !in o.disk.files && to in o.disk.files && o.disk.files[to] == d.files[from] &&
        forall n :: n in d.files && n != from ==> n in o.disk.files && o.disk.files[n] == d.files[n]
    ensures var o := RenameSpec(d, inbox, dir, from, to);
      o.reply == "OK RENAMED\n" ==> |o.disk.files| == |d.files|
    ensures var o := RenameSpec(d, inbox, dir, from, to);
      o.reply != "OK RENAMED\n" ==> o.disk == d
    ensures var o := RenameSpec(d, inbox, dir, from, to);
      o.inbox == inbox && o.disk.locks == d.locks && o.disk.lockScript == d.lockScript && o.disk.free == d.free
  {
    var o := RenameSpec(d, inbox, dir, from, to);
    if o.reply == "OK RENAMED\n" {
      assert to !in d.files - {from};
    }
  }

  // -------------------------------------------------------------- DELETE

  /** `handle_delete(sock, dir, name)`: `DeleteFile` removes a regular file
      and fails on anything else. */
  function DeleteSpec(d: Disk, inbox: seq<RecvEvent>, dir: string, name: string): Server.Outcome {
    if JoinPath(dir, name).None? then Server.Outcome("ERR bad filename\n", d, inbox)
    else match Resolve(d.files, name)
      case Some(Regular(_)) =>
        Server.Outcome("OK DELETED\n", d.(files := d.files - {name}, free := d.free + Held(d.files, name)), inbox)
      case _ => Server.Outcome("ERR delete failed\n", d, inbox)
  }

  /** A delete succeeds exactly when the name is accepted and is a regular
      file; the entry is then gone, its space is free again, and nothing
      else changes. */
  lemma DeleteRemovesFile(d: Disk, inbox: seq<RecvEvent>, dir: string, name: string)
    ensures var o := DeleteSpec(d, inbox, dir, name);
      o.reply == "OK DELETED\n" <==>
        JoinPath(dir, name).Some? && Resolve(d.files, name).Some? && Resolve(d.files, name).value.Regular?
    ensures var o := DeleteSpec(d, inbox, dir, name);
      o.reply == "OK DELETED\n" ==>
        name in d.files && o.disk == d.(files := d.files - {name}, free := d.free + |d.files[name].data|)
    ensures var o := DeleteSpec(d, inbox, dir, name);
      o.reply != "OK DELETED\n" ==> o.disk == d
    ensures DeleteSpec(d, inbox, dir, name).inbox == inbox
  {
  }

  // ------------------------------------------------------------ DISPATCH

  /** The handler the dispatcher picks for a command, or its own reply;
      LIST enumerates the same directory on both passes. */
  function Step(d: Disk, inbox: seq<RecvEvent>, dir: string, find: Finder, cmd: Command): Server.Outcome {
    match cmd
    case List => Server.Outcome(ListReply(find(d.files), find(d.files)), d, inbox)
    case Upload(name, size) => UploadSpec(d, inbox, dir, name, size)
    case Download(name) => DownloadSpec(d, inbox, dir, name)
    case Rename(from, to) => RenameSpec(d, inbox, dir, from, to)
    case Delete(name) => DeleteSpec(d, inbox, dir, name)
    case Quit => Server.Outcome("OK BYE\n", d, inbox)
    case Unknown => Server.Outcome("ERR unknown command\n", d, inbox)
  }

  /** A name the guard accepts and that is not the storage directory itself
      is a plain entry name. */
  lemma JoinedIsPlain(dir: string, name: string)
    requires JoinPath(dir, name).Some? && Resolve(map[], name).None?
    ensures PlainName(name)
  {
  }

  /** Every command keeps the store to plain names, never adds to the
      stream, and touches no lock. */
  lemma StepInvariant(d: Disk, inbox: seq<RecvEvent>, dir: string, find: Finder, cmd: Command)
    requires Valid(d)
    ensures var o := Step(d, inbox, dir, find, cmd);
      Valid(o.disk) && Size(o.inbox) <= Size(inbox) &&
      o.disk.locks == d.locks && o.disk.lockScript == d.lockScript
  {
    match cmd
    case Upload(name, size) =>
      UploadProtocol(d, inbox, dir, name, size);
      if size >= 0 && JoinPath(dir, name).Some? && Resolve(d.files, name) != Some(Directory) {
        JoinedIsPlain(dir, name);
      }
    case Rename(from, to) =>
      if JoinPath(dir, to).Some? && Resolve(d.files, to).None? {
        JoinedIsPlain(dir, to);
      }
    case _ =>
  }

  // ------------------------------------------------------------- SESSION

  /** `client_thread` after the greeting: read a line, chomp it, skip it if
      empty, dispatch it; stop when `recv_line` returns SOCKET_ERROR or
      after QUIT. */
  function Session(d: Disk, inbox: seq<RecvEvent>, dir: string, find: Finder): Server.Outcome
    decreases Size(inbox)
  {
    var f := WinRecvLineFrom(inbox, Server.MAX_LINE, []);
    if f.result == SOCKET_ERROR then Server.Outcome([], d, f.rest)
    else
      WinRecvLineOutcome(inbox, Server.MAX_LINE, []);
      WinRecvLineShrinks(inbox, Server.MAX_LINE, []);
      var line := LineSeen(f.bytes);
      if line == [] then Session(d, f.rest, dir, find)
      else
        var cmd := Parse(line);
        var o := Step(d, f.rest, dir, find, cmd);
        if cmd == Quit then o
        else
          StepShrinks(d, f.rest, dir, find, cmd);
          var next := Session(o.disk, o.inbox, dir, find);
          Server.Outcome(o.reply + next.reply, next.disk, next.inbox)
  }

  /** However the session goes, the store keeps to plain names and the
      lock log and lock outcomes are exactly as they were: the Win32 server
      takes no lock. */
  lemma {:induction false} SessionTakesNoLock(d: Disk, inbox: seq<RecvEvent>, dir: string, find: Finder)
    requires Valid(d)
    ensures var o := Session(d, inbox, dir, find);
      Valid(o.disk) && o.disk.locks == d.locks && o.disk.lockScript == d.lockScript
    decreases Size(inbox)
  {
    var f := WinRecvLineFrom(inbox, Server.MAX_LINE, []);
    if f.result != SOCKET_ERROR {
      WinRecvLineOutcome(inbox, Server.MAX_LINE, []);
      WinRecvLineShrinks(inbox, Server.MAX_LINE, []);
      var line := LineSeen(f.bytes);
      if line == [] {
        SessionTakesNoLock(d, f.rest, dir, find);
      } else {
        var cmd := Parse(line);
        var s := Step(d, f.rest, dir, find, cmd);
        StepInvariant(d, f.rest, dir, find, cmd);
        if cmd != Quit {
          SessionTakesNoLock(s.disk, s.inbox, dir, find);
        }
      }
    }
  }

  /** One line's fate: a blank line gets no reply, an unknown command gets
      `ERR unknown command` and the session goes on, QUIT gets `OK BYE` and
      ends it, and a failed `recv_line` ends it silently. */
  lemma SessionFirstLine(d: Disk, inbox: seq<RecvEvent>, dir: string, find: Finder)
    ensures var f := WinRecvLineFrom(inbox, Server.MAX_LINE, []);
      f.result != SOCKET_ERROR && LineSeen(f.bytes) == [] ==>
        Session(d, inbox, dir, find) == Session(d, f.rest, dir, find)
    ensures var f := WinRecvLineFrom(inbox, Server.MAX_LINE, []);
      f.result != SOCKET_ERROR && LineSeen(f.bytes) != [] && Parse(LineSeen(f.bytes)) == Unknown ==>
        var next := Session(d, f.rest, dir, find);
        Session(d, inbox, dir, find) == Server.Outcome("ERR unknown command\n" + next.reply, next.disk, next.inbox)
    ensures var f := WinRecvLineFrom(inbox, Server.MAX_LINE, []);
      f.result != SOCKET_ERROR && LineSeen(f.bytes) != [] && Parse(LineSeen(f.bytes)) == Quit ==>
        Session(d, inbox, dir, find) == Server.Outcome("OK BYE\n", d, f.rest)
    ensures var f := WinRecvLineFrom(inbox, Server.MAX_LINE, []);
      f.result == SOCKET_ERROR ==> Session(d, inbox, dir, find) == Server.Outcome([], d, f.rest)
  {
    SessionQuietLine(d, inbox, dir, find);
    SessionFixedReply(d, inbox, dir, find);
  }

  /** A blank line is skipped; a failed `recv_line` ends the session. */
  lemma SessionQuietLine(d: Disk, inbox: seq<RecvEvent>, dir: string, find: Finder)
    ensures var f := WinRecvLineFrom(inbox, Server.MAX_LINE, []);
      f.result != SOCKET_ERROR && LineSeen(f.bytes) == [] ==>
        Session(d, inbox, dir, find) == Session(d, f.rest, dir, find)
    ensures var f := WinRecvLineFrom(inbox, Server.MAX_LINE, []);
      f.result == SOCKET_ERROR ==> Session(d, inbox, dir, find) == Server.Outcome([], d, f.rest)
  {
  }

  /** The two commands whose reply is fixed. */
  lemma SessionFixedReply(d: Disk, inbox: seq<RecvEvent>, dir: string, find: Finder)
    ensures var f := WinRecvLineFrom(inbox, Server.MAX_LINE, []);
      f.result != SOCKET_ERROR && LineSeen(f.bytes) != [] && Parse(LineSeen(f.bytes)) == Unknown ==>
        var next := Session(d, f.rest, dir, find);
        Session(d, inbox, dir, find) == Server.Outcome("ERR unknown command\n" + next.reply, next.disk, next.inbox)
    ensures var f := WinRecvLineFrom(inbox, Server.MAX_LINE, []);
      f.result != SOCKET_ERROR && LineSeen(f.bytes) != [] && Parse(LineSeen(f.bytes)) == Quit ==>
        Session(d, inbox, dir, find) == Server.Outcome("OK BYE\n", d, f.rest)
  {
    SessionUnfold(d, inbox, dir, find);
  }

  /** One turn of the session for a line that holds a command. */
  lemma SessionUnfold(d: Disk, inbox: seq<RecvEvent>, dir: string, find: Finder)
    ensures var f := WinRecvLineFrom(inbox, Server.MAX_LINE, []);
      f.result != SOCKET_ERROR ==> 0 < f.result && Size(f.rest) < Size(inbox)
    ensures var f := WinRecvLineFrom(inbox, Server.MAX_LINE, []);
      f.result != SOCKET_ERROR && LineSeen(f.bytes) != [] ==>
        var cmd := Parse(LineSeen(f.bytes));
        var s := Step(d, f.rest, dir, find, cmd);
        var o := Session(d, inbox, dir, find);
        Size(s.inbox) < Size(inbox) &&
        (cmd == Quit ==> o == s) &&
        (cmd != Quit ==>
          var next := Session(s.disk, s.inbox, dir, find);
          o == Server.Outcome(s.reply + next.reply, next.disk, next.inbox))
  {
    var f := WinRecvLineFrom(inbox, Server.MAX_LINE, []);
    WinRecvLineOutcome(inbox, Server.MAX_LINE, []);
    WinRecvLineShrinks(inbox, Server.MAX_LINE, []);
    if f.result != SOCKET_ERROR && LineSeen(f.bytes) != [] {
      var cmd := Parse(LineSeen(f.bytes));
      StepShrinks(d, f.rest, dir, find, cmd);
    }
  }

  /** No command adds to the stream. */
  lemma StepShrinks(d: Disk, inbox: seq<RecvEvent>, dir: string, find: Finder, cmd: Command)
    ensures Size(Step(d, inbox, dir, find, cmd).inbox) <= Size(inbox)
  {
    if cmd.Upload? {
      UploadProtocol(d, inbox, dir, cmd.name, cmd.size);
    }
  }

  // ------------------------------------------------------------ FINDINGS

  /** `a1` and `a2` are MAX_PATH (260) bytes, but `%1023s` stores up to
      1023 characters and a NUL: a DOWNLOAD line with a 300-character name
      reaches `handle_download` with a name that did not fit in `a1`. */
  lemma ArgumentOverflowsBuffer()
    ensures var name := seq(300, _ => 'a');
      Parse("DOWNLOAD " + name) == Download(name) && |name| + 1 > WIN_MAX_PATH
  {
    var name := seq(300, _ => 'a');
    assert IsToken(name, NAME_WIDTH);
    ParseDownloadRequest(name);
    assert Request(Download(name)) == "DOWNLOAD " + name;
  }

  /** The size `a1` and `a2` need for the width the dispatcher scans with. */
  const ARG_BUF: nat := NAME_WIDTH + 1

  /** With buffers of ARG_BUF bytes, every name the dispatcher can produce
      fits with its terminating NUL. */
  lemma ParsedNamesFit(line: string)
    ensures var cmd := Parse(line);
      (cmd.Upload? ==> |cmd.name| < ARG_BUF) &&
      (cmd.Download? ==> |cmd.name| < ARG_BUF) &&
      (cmd.Delete? ==> |cmd.name| < ARG_BUF) &&
      (cmd.Rename? ==> |cmd.from| < ARG_BUF && |cmd.to| < ARG_BUF)
  {
    if !StartsWith(line, "LIST") {
      assert Parse(line) == ParseFromUpload(line);
      ScanNameSizeFits(line, "UPLOAD");
      if ScanNameSize(line, "UPLOAD").None? {
        assert Parse(line) == ParseFromDownload(line);
        ScanOneFits(line, "DOWNLOAD");
        if ScanOne(line, "DOWNLOAD").None? {
          assert Parse(line) == ParseFromRename(line);
          ScanTwoFits(line, "RENAME");
          if ScanTwo(line, "RENAME").None? {
            assert Parse(line) == ParseFromDelete(line);
            ScanOneFits(line, "DELETE");
          }
        }
      }
    }
  }

  // ------------------------------------------------------------- METHODS

  /** `handle_list`: the counting pass over the first enumeration, the
      header, the listing pass over the second, `END`. */
  method HandleList(c: Conn, first: seq<FindData>, second: seq<FindData>)
    modifies c
    ensures c.outbox == old(c.outbox) + ListReply(first, second)
    ensures c.inbox == old(c.inbox)
  {
    if first == [] {
      c.Send("ERR cannot open storage\n");
      return;
    }
    var count := CountPass(first);
    c.Send(Header(count));
    var pass := if second == [] then [first[|first| - 1]] else second;
    ghost var lines := FileLines(ListedFiles(pass));
    ListPass(c, pass);
    c.Send("END\n");
    ConcatAssoc(old(c.outbox), Header(count), lines);
    ConcatAssoc(old(c.outbox), Header(count) + lines, "END\n");
  }

  /** The first `do`/`while (FindNextFile)` loop of `handle_list`. */
  method CountPass(entries: seq<FindData>) returns (count: nat)
    ensures count == CountFiles(entries)
  {
    count := 0;
    var i := 0;
    while i < |entries|
      invariant i <= |entries|
      invariant count == CountFiles(entries[..i])
    {
      assert entries[..i + 1][..i] == entries[..i];
      if !Server.IsDots(entries[i].name) && !entries[i].isDir {
        count := count + 1;
      }
      i := i + 1;
    }
    assert entries[..|entries|] == entries;
  }

  /** The second loop of `handle_list`: one `FILE` line per counted
      entry. */
  method ListPass(c: Conn, entries: seq<FindData>)
    modifies c
    ensures c.outbox == old(c.outbox) + FileLines(ListedFiles(entries))
    ensures c.inbox == old(c.inbox)
  {
    var i := 0;
    while i < |entries|
      invariant i <= |entries|
      invariant c.outbox == old(c.outbox) + FileLines(ListedFiles(entries[..i]))
      invariant c.inbox == old(c.inbox)
    {
      ghost var done := ListedFiles(entries[..i]);
      ghost var entry := ListedEntry(entries[i]);
      assert entries[..i + 1][..i] == entries[..i];
      assert ListedFiles(entries[..i + 1]) == done + entry;
      FileLinesAppend(done, entry);
      ConcatAssoc(old(c.outbox), FileLines(done), FileLines(entry));
      ListOne(c, entries[i]);
      i := i + 1;
    }
    assert entries[..|entries|] == entries;
  }

  /** One entry of the second loop: skip "." and ".." and directories, and
      report the rest with their size. */
  method ListOne(c: Conn, e: FindData)
    modifies c
    ensures c.outbox == old(c.outbox) + FileLines(ListedEntry(e))
    ensures c.inbox == old(c.inbox)
  {
    if !Server.IsDots(e.name) && !e.isDir {
      assert FileLines([(e.name, e.size as int)]) == FileLines([]) + FileLine(e.name, e.size);
      c.Send(FileLine(e.name, e.size));
    }
  }

  /** `handle_upload`: checks, `CreateFile` with CREATE_ALWAYS, `OK`, then
      the transfer loop. */
  method HandleUpload(c: Conn, fs: FileStore, dir: string, name: string, size: int)
    modifies c, fs
    ensures var o := UploadSpec(old(fs.State()), old(c.inbox), dir, name, size);
      c.outbox == old(c.outbox) + o.reply && c.inbox == o.inbox && fs.State() == o.disk
  {
    if size < 0 {
      c.Send("ERR invalid size\n");
      return;
    }
    var path := JoinPath(dir, name);
    if path.None? {
      c.Send("ERR bad filename\n");
      return;
    }
    if Resolve(fs.files, name) == Some(Directory) {
      c.Send("ERR cannot open file for write\n");
      return;
    }
    ghost var d0, inbox0 := fs.State(), c.inbox;
    fs.CreateEmpty(name);
    assert fs.free == Room(d0, name);
    ghost var t := UploadLoop(inbox0, size, [], fs.free);
    assert UploadSpec(d0, inbox0, dir, name, size) == UploadTransfer(d0, name, t);
    c.Send("OK\n");
    var status := ReceiveFile(c, fs, name, size);
    c.Send(Server.UploadStatus(status));
    ConcatAssoc(old(c.outbox), "OK\n", Server.UploadStatus(status));
  }

  /** The transfer loop of `handle_upload`: whole chunks of at most `BUF`
      bytes, each written with `WriteFile`, until `remaining` reaches 0. */
  method ReceiveFile(c: Conn, fs: FileStore, name: string, size: nat) returns (status: Server.Status)
    requires name in fs.files && fs.files[name] == Regular([])
    modifies c, fs
    ensures var t := UploadLoop(old(c.inbox), size, [], old(fs.free));
      status == t.status && c.inbox == t.rest && c.outbox == old(c.outbox) &&
      fs.files == old(fs.files)[name := Regular(t.data)] && fs.free == t.free &&
      fs.locks == old(fs.locks) && fs.lockScript == old(fs.lockScript)
  {
    var buf := new char[Server.BUF];
    var remaining: nat := size;
    ghost var t0 := UploadLoop(c.inbox, size, [], fs.free);
    ghost var data: seq<char> := [];
    while remaining > 0
      invariant name in fs.files && fs.files[name] == Regular(data)
      invariant fs.files == old(fs.files)[name := Regular(data)]
      invariant |data| == size - remaining
      invariant UploadLoop(c.inbox, remaining, data, fs.free) == t0
      invariant fs.locks == old(fs.locks) && fs.lockScript == old(fs.lockScript)
      invariant c.outbox == old(c.outbox)
      decreases remaining
    {
      var left, done;
      left, done, status := StoreChunk(c, fs, name, buf, remaining, t0);
      if done {
        return;
      }
      remaining, data := left, fs.files[name].data;
    }
    status := Server.Saved;
  }

  /** One turn of the transfer loop: `recv_all` a whole chunk into `buf`
      and `WriteFile` it. Either the loop ends here with `status`, or `n`
      more bytes are in the file and the loop goes on. */
  method StoreChunk(c: Conn, fs: FileStore, name: string, buf: array<char>, remaining: nat,
                    ghost t: Server.Transfer)
    returns (left: nat, done: bool, status: Server.Status)
    requires 0 < remaining && Server.BUF <= buf.Length
    requires name in fs.files && fs.files[name].Regular?
    requires t == UploadLoop(c.inbox, remaining, fs.files[name].data, fs.free)
    modifies c, fs, buf
    ensures name in fs.files && fs.files[name].Regular?
    ensures fs.files == old(fs.files)[name := fs.files[name]]
    ensures if done then t == Server.Transfer(status, fs.files[name].data, c.inbox, fs.free)
      else (left < remaining && |fs.files[name].data| == |old(fs.files[name].data)| + (remaining - left) &&
        t == UploadLoop(c.inbox, left, fs.files[name].data, fs.free))
    ensures fs.locks == old(fs.locks) && fs.lockScript == old(fs.lockScript)
    ensures c.outbox == old(c.outbox)
  {
    var chunk := if remaining > Server.BUF then Server.BUF else remaining;
    ghost var f := WinRecvAllFrom(c.inbox, chunk, []);
    ghost var data, free := fs.files[name].data, fs.free;
    UploadLoopStep(c.inbox, remaining, data, free, chunk, f);
    var received := WinRecvAll(c, buf, chunk);
    if received == SOCKET_ERROR {
      return 0, true, Server.RecvFailed;
    }
    assert buf[..chunk] == f.bytes;
    var w := fs.Append(name, buf[..chunk]);
    if w != chunk {
      return 0, true, Server.WriteFailed;
    }
    assert buf[..chunk][..Stored(w)] == f.bytes;
    assert fs.files[name].data == data + f.bytes && fs.free == free - chunk && c.inbox == f.rest;
    return remaining - chunk, false, Server.Saved;
  }

  /** `handle_download`: check, `CreateFile` with OPEN_EXISTING, the
      header, then `ReadFile` chunks until one reads 0 bytes. */
  method HandleDownload(c: Conn, fs: FileStore, dir: string, name: string)
    modifies c
    ensures var o := DownloadSpec(fs.State(), old(c.inbox), dir, name);
      c.outbox == old(c.outbox) + o.reply && c.inbox == o.inbox
  {
    var path := JoinPath(dir, name);
    if path.None? {
      c.Send("ERR bad filename\n");
      return;
    }
    var node := Resolve(fs.files, name);
    if node.None? || node.value.Directory? {
      c.Send("ERR not found\n");
      return;
    }
    var data := node.value.data;
    c.Send(Header(|data|));
    SendBody(c, data);
  }

  /** The body of a download: `ReadFile` at most `BUF` bytes a turn and send
      them, until `ReadFile` reads nothing. */
  method SendBody(c: Conn, data: seq<char>)
    modifies c
    ensures c.outbox == old(c.outbox) + data && c.inbox == old(c.inbox)
  {
    var offset := 0;
    while true
      invariant offset <= |data|
      invariant c.outbox == old(c.outbox) + data[..offset] && c.inbox == old(c.inbox)
      decreases |data| - offset
    {
      var read := if |data| - offset > Server.BUF then Server.BUF else |data| - offset;
      if read == 0 {
        break;
      }
      assert data[..offset + read] == data[..offset] + data[offset..offset + read];
      c.Send(data[offset..offset + read]);
      offset := offset + read;
    }
    assert data[..|data|] == data;
  }

  /** `handle_rename`: both checks, then `MoveFile`. */
  method HandleRename(c: Conn, fs: FileStore, dir: string, from: string, to: string)
    modifies c, fs
    ensures var o := RenameSpec(old(fs.State()), old(c.inbox), dir, from, to);
      c.outbox == old(c.outbox) + o.reply && c.inbox == o.inbox && fs.State() == o.disk
  {
    var fromPath := JoinPath(dir, from);
    var toPath := JoinPath(dir, to);
    if fromPath.None? || toPath.None? {
      c.Send("ERR bad filename\n");
      return;
    }
    if from !in fs.files || Resolve(fs.files, to).Some? {
      c.Send("ERR rename failed\n");
      return;
    }
    fs.Move(from, to);
    c.Send("OK RENAMED\n");
  }

  /** `handle_delete`: check, then `DeleteFile`. */
  method HandleDelete(c: Conn, fs: FileStore, dir: string, name: string)
    modifies c, fs
    ensures var o := DeleteSpec(old(fs.State()), old(c.inbox), dir, name);
      c.outbox == old(c.outbox) + o.reply && c.inbox == o.inbox && fs.State() == o.disk
  {
    var path := JoinPath(dir, name);
    if path.None? {
      c.Send("ERR bad filename\n");
      return;
    }
    var node := Resolve(fs.files, name);
    if node.None? || node.value.Directory? {
      c.Send("ERR delete failed\n");
      return;
    }
    fs.Remove(name);
    c.Send("OK DELETED\n");
  }

  /** The `if`/`else if` chain of `client_thread` for one parsed line; says
      whether the session goes on. */
  method Dispatch(c: Conn, fs: FileStore, dir: string, find: Finder, cmd: Command) returns (more: bool)
    modifies c, fs
    ensures var o := Step(old(fs.State()), old(c.inbox), dir, find, cmd);
      c.outbox == old(c.outbox) + o.reply && c.inbox == o.inbox && fs.State() == o.disk
    ensures more <==> cmd != Quit
  {
    more := true;
    match cmd
    case List => HandleList(c, find(fs.files), find(fs.files));
    case Upload(name, size) => HandleUpload(c, fs, dir, name, size);
    case Download(name) => HandleDownload(c, fs, dir, name);
    case Rename(from, to) => HandleRename(c, fs, dir, from, to);
    case Delete(name) => HandleDelete(c, fs, dir, name);
    case Quit =>
      c.Send("OK BYE\n");
      more := false;
    case Unknown => c.Send("ERR unknown command\n");
  }

  /** `recv_line` into `line` and `chomp` it. */
  method ReadLine(c: Conn, line: array<char>) returns (n: int, len: nat)
    requires line.Length == Server.MAX_LINE
    modifies c, line
    ensures var f := WinRecvLineFrom(old(c.inbox), Server.MAX_LINE, []);
      n == f.result && c.inbox == f.rest && c.outbox == old(c.outbox) &&
      (n != SOCKET_ERROR ==> len < line.Length && line[..len] == LineSeen(f.bytes) && (line[0] == NUL <==> len == 0))
  {
    ghost var f := WinRecvLineFrom(c.inbox, Server.MAX_LINE, []);
    n := WinRecvLine(c, line, Server.MAX_LINE);
    if n == SOCKET_ERROR {
      return n, 0;
    }
    WinRecvLineOutcome(old(c.inbox), Server.MAX_LINE, []);
    CStrOfTerminated(line[..], f.bytes);
    len := ChompInPlace(line);
    assert len > 0 ==> line[0] != NUL by {
      if len > 0 {
        assert line[0] == line[..len][0];
        assert line[..len] <= CStr(f.bytes);
      }
    }
  }

  /** One turn of `client_thread`'s loop. Says whether the loop goes on;
      when it does, the stream has shrunk and the session from the new
      state completes the session from the old one. */
  method ServeLine(c: Conn, fs: FileStore, dir: string, find: Finder, line: array<char>) returns (more: bool)
    requires line.Length == Server.MAX_LINE
    modifies c, fs, line
    ensures var o := Session(old(fs.State()), old(c.inbox), dir, find);
      more ==> (Size(c.inbox) < Size(old(c.inbox)) &&
        var rest := Session(fs.State(), c.inbox, dir, find);
        c.outbox + rest.reply == old(c.outbox) + o.reply && rest.disk == o.disk && rest.inbox == o.inbox)
    ensures var o := Session(old(fs.State()), old(c.inbox), dir, find);
      !more ==> c.outbox == old(c.outbox) + o.reply && fs.State() == o.disk && c.inbox == o.inbox
  {
    ghost var d, inbox, out := fs.State(), c.inbox, c.outbox;
    SessionUnfold(d, inbox, dir, find);
    SessionFirstLine(d, inbox, dir, find);
    var n, len := ReadLine(c, line);
    if n == SOCKET_ERROR {
      return false;
    }
    if line[0] == NUL {
      return true;
    }
    var cmd := Parse(line[..len]);
    more := Dispatch(c, fs, dir, find, cmd);
    if more {
      ConcatAssoc(out, Step(d, WinRecvLineFrom(inbox, Server.MAX_LINE, []).rest, dir, find, cmd).reply,
        Session(fs.State(), c.inbox, dir, find).reply);
    }
  }

  /** `client_thread`: the greeting, then one line at a time until
      `recv_line` fails or the client quits. */
  method Serve(c: Conn, fs: FileStore, dir: string, find: Finder)
    modifies c, fs
    ensures var o := Session(old(fs.State()), old(c.inbox), dir, find);
      c.outbox == old(c.outbox) + "OK WELCOME\n" + o.reply && c.inbox == o.inbox && fs.State() == o.disk
  {
    c.Send("OK WELCOME\n");
    var line := new char[Server.MAX_LINE];
    ghost var d0 := fs.State();
    ghost var inbox0 := c.inbox;
    ghost var out0 := c.outbox;
    var more := true;
    while more
      invariant more ==> var o := Session(fs.State(), c.inbox, dir, find);
        var o0 := Session(d0, inbox0, dir, find);
        c.outbox + o.reply == out0 + o0.reply && o.disk == o0.disk && o.inbox == o0.inbox
      invariant !more ==> var o0 := Session(d0, inbox0, dir, find);
        c.outbox == out0 + o0.reply && fs.State() == o0.disk && c.inbox == o0.inbox
      decreases more, Size(c.inbox)
    {
      more := ServeLine(c, fs, dir, find, line);
    }
  }
}
