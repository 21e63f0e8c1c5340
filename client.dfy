/** The client's side of the protocol (client.c): `basename2`, the exchange
    of each command (`do_list`, `do_upload`, `do_download`,
    `do_rename_remote`, `do_delete_remote`) and the REPL's reading of a typed
    line. Each exchange is a function of the stream the server answers with,
    and a method over the connection whose contract ties it to that function;
    the lemmas read back what the server sends. client.c's `send_all`,
    `recv_all`, `recv_line` and `chomp` are the same code as the server's and
    are modelled once, in PosixIo and Text. */
module Client {
  import opened Text
  import opened Scan
  import opened Stream
  import opened PosixIo
  import opened Protocol
  import opened PathGuard
  import Store
  import Server

  const MAX_LINE: nat := 4096
  const BUF_SIZE: nat := 65536

  // ------------------------------------------------------------ basename2

  /** The separators `basename2` looks for: '/', and also '\' in the
      `_WIN32` build. */
  predicate IsSeparator(c: char, win: bool) {
    c == '/' || (win && c == '\\')
  }

  /** `basename2(path)`: what follows the last separator, or the whole path
      when there is none. */
  function Basename(path: string, win: bool): (r: string)
    ensures |r| <= |path| && r == path[|path| - |r|..]
    ensures forall i :: 0 <= i < |r| ==> !IsSeparator(r[i], win)
    ensures |r| < |path| ==> IsSeparator(path[|path| - |r| - 1], win)
  {
    if path == [] || IsSeparator(path[|path| - 1], win) then []
    else
      var front := path[..|path| - 1];
      var r := Basename(front, win) + [path[|path| - 1]];
      assert r == path[|path| - |r|..];
      r
  }

  /** The part after a separator that is followed by no other separator is
      the base name. */
  lemma {:induction false} BasenameAfter(dir: string, sep: char, name: string, win: bool)
    requires IsSeparator(sep, win)
    requires forall i :: 0 <= i < |name| ==> !IsSeparator(name[i], win)
    ensures Basename(dir + [sep] + name, win) == name
    decreases |name|
  {
    if name != [] {
      BasenameAfter(dir, sep, name[..|name| - 1], win);
      BasenameGrows(dir + [sep], name, win);
    }
  }

  /** A last character that is no separator extends the base name of what
      comes before it. */
  lemma BasenameGrows(prefix: string, name: string, win: bool)
    requires name != [] && !IsSeparator(name[|name| - 1], win)
    requires Basename(prefix + name[..|name| - 1], win) == name[..|name| - 1]
    ensures Basename(prefix + name, win) == name
  {
    LastOfAppend(prefix, name);
    BasenameUnfold(prefix + name, win);
    assert name == name[..|name| - 1] + [name[|name| - 1]];
  }

  /** The base name of a path that does not end in a separator, one step
      of its definition unfolded. */
  lemma BasenameUnfold(path: string, win: bool)
    requires path != [] && !IsSeparator(path[|path| - 1], win)
    ensures Basename(path, win) == Basename(path[..|path| - 1], win) + [path[|path| - 1]]
  {
  }

  /** The last character of `prefix + name` and what comes before it. */
  lemma LastOfAppend(prefix: string, name: string)
    requires name != []
    ensures var path := prefix + name;
      path[|path| - 1] == name[|name| - 1] && path[..|path| - 1] == prefix + name[..|name| - 1]
  {
    var path := prefix + name;
    assert path[..|path| - 1] == prefix + name[..|name| - 1];
  }

  /** A path the server joins for a name has that name as its base name:
      the client's default remote name for it is the name the server stored
      it under. */
  lemma BasenameOfJoin(dir: string, name: string, cap: nat)
    requires PathJoin(dir, name, '/', cap).Some?
    ensures Basename(PathJoin(dir, name, '/', cap).value, false) == name
    ensures Basename(PathJoin(dir, name, '/', cap).value, true) == name
  {
    BasenameAfter(dir, '/', name, false);
    BasenameAfter(dir, '/', name, true);
  }

  /** A path without a separator is its own base name. */
  lemma {:induction false} BasenameWhole(path: string, win: bool)
    requires forall i :: 0 <= i < |path| ==> !IsSeparator(path[i], win)
    ensures Basename(path, win) == path
    decreases |path|
  {
    if path != [] {
      var front := path[..|path| - 1];
      assert forall i :: 0 <= i < |front| ==> front[i] == path[i];
      BasenameWhole(front, win);
      assert !IsSeparator(path[|path| - 1], win);
      assert Basename(path, win) == front + [path[|path| - 1]];
      assert path == front + [path[|path| - 1]];
    }
  }

  /** Taking the base name twice changes nothing. */
  lemma BasenameIdempotent(path: string, win: bool)
    ensures Basename(Basename(path, win), win) == Basename(path, win)
  {
    BasenameWhole(Basename(path, win), win);
  }

  // --------------------------------------------------------- reply lines

  /** One `recv_line` into a MAX_LINE buffer followed by `chomp`: whether a
      line came (`recv_line > 0`), the C string left in the buffer, and the
      rest of the stream. */
  datatype Reply = Reply(ok: bool, text: string, rest: seq<RecvEvent>)

  function ReadReply(inbox: seq<RecvEvent>): (r: Reply)
    ensures Size(r.rest) <= Size(inbox) && (r.ok ==> Size(r.rest) < Size(inbox))
  {
    var f := RecvLineFrom(inbox, MAX_LINE, []);
    RecvLineShrinks(inbox, MAX_LINE, []);
    Reply(f.result > 0, LineSeen(f.bytes), f.rest)
  }

  /** A line the client can read back whole: no NUL and no '\n' in it, no
      line end last, and short enough for the buffer. */
  predicate Readable(text: string) {
    NUL !in text && '\n' !in text && (text == [] || !IsLineEnd(text[|text| - 1])) &&
    |text| + 1 < MAX_LINE
  }

  /** A reply line pending in the stream is read whole, seen without its
      '\n', and what follows it stays in the stream. */
  lemma ReplyOf(inbox: seq<RecvEvent>, text: string, more: seq<char>)
    requires Readable(text)
    requires Pending(inbox) == text + "\n" + more
    ensures var r := ReadReply(inbox); r.ok && r.text == text && Pending(r.rest) == more
  {
    var line := text + "\n";
    assert forall i :: 0 <= i < |line| - 1 ==> line[i] != '\n' by {
      forall i | 0 <= i < |line| - 1 ensures line[i] != '\n' {
        assert line[i] == text[i];
      }
    }
    assert line[0..] == line;
    RecvLineReads(inbox, MAX_LINE, [], line, more);
    assert NUL !in line;
    CStrOfNulFree(line);
    ChompedIsMaximalRun(line, text);
  }

  /** A reply line as the server sends it: a readable text and its '\n'. */
  predicate IsReplyLine(line: string) {
    |line| > 1 && line[|line| - 1] == '\n' && Readable(line[..|line| - 1])
  }

  /** A pending reply line is read whole, without its '\n'. */
  lemma ReplyLineOf(inbox: seq<RecvEvent>, line: string, more: seq<char>)
    requires IsReplyLine(line) && Pending(inbox) == line + more
    ensures var r := ReadReply(inbox);
      r.ok && r.text == line[..|line| - 1] && r.text[0] == line[0] && Pending(r.rest) == more
  {
    var text := line[..|line| - 1];
    assert line == text + "\n";
    ReplyOf(inbox, text, more);
  }

  /** The one-line answers of the server's RENAME, DELETE and DOWNLOAD
      handlers are reply lines. */
  lemma RenameReplies()
    ensures IsReplyLine("OK RENAMED\n") && IsReplyLine("ERR bad filename\n") &&
      IsReplyLine("ERR cannot lock\n") && IsReplyLine("ERR rename failed\n") && IsReplyLine("ERR not found\n")
  {
  }

  lemma DeleteReplies()
    ensures IsReplyLine("OK DELETED\n") && IsReplyLine("ERR delete failed\n")
  {
  }

  lemma DownloadReplies()
    ensures IsReplyLine("ERR cannot lock file\n") && IsReplyLine("ERR not a file\n")
  {
  }

  /** The text of a `FILE` line of the listing. */
  function FileText(name: string, size: int): string {
    "FILE " + name + " " + FormatInt(size)
  }

  /** The text of an `OK <n>` header. */
  function HeaderText(n: int): string {
    "OK " + FormatInt(n)
  }

  lemma FormattedIntReadable(n: int)
    requires LLONG_MIN <= n <= LLONG_MAX
    ensures var s := FormatInt(n);
      |s| <= 20 && NUL !in s && '\n' !in s && !IsLineEnd(s[|s| - 1]) && !IsSpace(s[0])
  {
    FormatIntWidth(n);
    var s := FormatInt(n);
    assert forall i :: 0 <= i < |s| ==> s[i] == '-' || IsDigit(s[i]);
  }

  /** A header line reads back whole, starts with "OK " and carries its
      count. */
  lemma HeaderTextReads(n: int)
    requires LLONG_MIN <= n <= LLONG_MAX
    ensures Header(n) == HeaderText(n) + "\n"
    ensures Readable(HeaderText(n)) && StartsWith(HeaderText(n), "OK ")
    ensures ScanInt(HeaderText(n)[2..]) == Some((n, []))
  {
    var text := HeaderText(n);
    var num := FormatInt(n);
    assert Readable(text) by {
      FormattedIntReadable(n);
      assert NUL !in "OK " && '\n' !in "OK ";
      assert text == "OK " + num;
      assert text[|text| - 1] == num[|num| - 1];
    }
    assert text[..3] == "OK ";
    assert text[2..] == " " + num;
    ScanSpacedInt(n);
  }

  /** A FILE line of a listable entry reads back whole and scans as that
      entry. */
  lemma FileTextReads(name: string, size: int)
    requires IsToken(name, NAME_WIDTH) && LLONG_MIN <= size <= LLONG_MAX
    ensures FileLine(name, size) == FileText(name, size) + "\n"
    ensures Readable(FileText(name, size)) && StartsWith(FileText(name, size), "FILE ")
    ensures FileText(name, size) != "END"
    ensures ScanNameSize(FileText(name, size), "FILE") == Some((name, size))
  {
    var text := FileText(name, size);
    var num := FormatInt(size);
    assert Readable(text) by {
      FormattedIntReadable(size);
      assert '\n' !in name by {
        assert forall i :: 0 <= i < |name| ==> name[i] != '\n';
      }
      assert NUL !in "FILE " && '\n' !in "FILE " && NUL !in " " && '\n' !in " ";
      assert text == "FILE " + name + " " + num;
      assert text[|text| - 1] == num[|num| - 1];
    }
    assert text[..5] == "FILE ";
    assert text[0] != "END"[0];
    assert text == "FILE" + " " + name + " " + num;
    NameSizeScans("FILE", name, size);
  }

  // ---------------------------------------------------------------- LIST

  /** What `do_list` shows for a line of the listing: a FILE line that scans
      is shown as a name and a size, and any other line is echoed. */
  datatype Shown = Entry(name: string, size: int) | Echo(text: string)

  /** What a listing call ends with: its return value, the lines shown and
      the rest of the stream. */
  datatype Listing = Listing(ret: int, shown: seq<Shown>, rest: seq<RecvEvent>)

  /** What one line of the listing adds to the display; a FILE line that
      does not scan adds nothing. */
  function ShowLine(text: string): seq<Shown> {
    if StartsWith(text, "FILE ") then
      match ScanNameSize(text, "FILE")
      case Some((name, size)) => [Entry(name, size)]
      case None => []
    else [Echo(text)]
  }

  /** `do_list`'s loop from the line after the header on. */
  function ListLoop(inbox: seq<RecvEvent>, shown: seq<Shown>): Listing
    decreases Size(inbox)
  {
    var r := ReadReply(inbox);
    if !r.ok then Listing(-1, shown, r.rest)
    else if r.text == "END" then Listing(0, shown, r.rest)
    else ListLoop(r.rest, shown + ShowLine(r.text))
  }

  /** `do_list` after `LIST` has been sent. The count in the header is only
      printed. */
  function ListCall(inbox: seq<RecvEvent>): Listing {
    var r := ReadReply(inbox);
    if !r.ok || !StartsWith(r.text, "OK ") then Listing(-1, [], r.rest)
    else ListLoop(r.rest, [])
  }

  /** Entries a listing can carry so that they read back: token names and
      `long long` sizes. */
  predicate Listable(entries: seq<(string, int)>) {
    forall i :: 0 <= i < |entries| ==>
      IsToken(entries[i].0, NAME_WIDTH) && LLONG_MIN <= entries[i].1 <= LLONG_MAX
  }

  /** How a listing's entries are shown. */
  function AsShown(entries: seq<(string, int)>): seq<Shown> {
    seq(|entries|, i requires 0 <= i < |entries| => Entry(entries[i].0, entries[i].1))
  }

  /** One level of `FileLines` from the front. */
  lemma FileLinesFirst(entries: seq<(string, int)>)
    requires entries != []
    ensures FileLines(entries) == FileLine(entries[0].0, entries[0].1) + FileLines(entries[1..])
  {
    var first := [entries[0]];
    var rest := entries[1..];
    assert first + rest == entries;
    FileLinesAppend(first, rest);
    assert FileLines(first) == FileLine(entries[0].0, entries[0].1) by {
      FileLinesLast(first);
      var none: seq<(string, int)> := [];
      assert first[..0] == none;
      assert FileLines(none) == [];
    }
  }

  /** The first FILE line of a listing reads back as its entry. */
  lemma FileLineReads(inbox: seq<RecvEvent>, entries: seq<(string, int)>, more: seq<char>)
    requires entries != [] && Listable(entries)
    requires Pending(inbox) == FileLines(entries) + "END\n" + more
    ensures var r := ReadReply(inbox);
      r.ok && r.text != "END" && ShowLine(r.text) == [Entry(entries[0].0, entries[0].1)] &&
      Pending(r.rest) == FileLines(entries[1..]) + "END\n" + more
  {
    var name, size := entries[0].0, entries[0].1;
    var text, lines := FileText(name, size), FileLines(entries[1..]);
    FileLinesFirst(entries);
    FileTextReads(name, size);
    FirstLineApart(FileLine(name, size), text, lines, more);
    ReplyOf(inbox, text, lines + "END\n" + more);
  }

  /** Regrouping a listing so that its first line stands apart. */
  lemma FirstLineApart(line: string, text: string, lines: string, more: seq<char>)
    requires line == text + "\n"
    ensures (line + lines) + "END\n" + more == text + "\n" + (lines + "END\n" + more)
  {
    ConcatAssoc(line, lines, "END\n");
    ConcatAssoc(line, lines + "END\n", more);
  }

  /** The rest of a listable sequence is listable. */
  lemma ListableRest(entries: seq<(string, int)>)
    requires entries != [] && Listable(entries)
    ensures Listable(entries[1..])
  {
    forall i | 0 <= i < |entries[1..]| ensures IsToken(entries[1..][i].0, NAME_WIDTH) {
      assert entries[1..][i] == entries[i + 1];
    }
  }

  /** The loop reads the FILE lines and the END line of a listing, shows
      every entry, returns 0 and leaves what follows. */
  lemma {:induction false} ListLoopReads(inbox: seq<RecvEvent>, shown: seq<Shown>,
                                         entries: seq<(string, int)>, more: seq<char>)
    requires Listable(entries)
    requires Pending(inbox) == FileLines(entries) + "END\n" + more
    ensures var l := ListLoop(inbox, shown);
      l.ret == 0 && l.shown == shown + AsShown(entries) && Pending(l.rest) == more
    decreases |entries|
  {
    if entries == [] {
      EndLineReads(inbox, more);
      assert shown + AsShown(entries) == shown;
    } else {
      var entry := Entry(entries[0].0, entries[0].1);
      FileLineReads(inbox, entries, more);
      var r := ReadReply(inbox);
      assert ListLoop(inbox, shown) == ListLoop(r.rest, shown + [entry]);
      ListableRest(entries);
      ListLoopReads(r.rest, shown + [entry], entries[1..], more);
      AsShownFirst(entries);
      ConcatAssoc(shown, [entry], AsShown(entries[1..]));
    }
  }

  /** The END line reads back. */
  lemma EndLineReads(inbox: seq<RecvEvent>, more: seq<char>)
    requires Pending(inbox) == FileLines([]) + "END\n" + more
    ensures var r := ReadReply(inbox); r.ok && r.text == "END" && Pending(r.rest) == more
  {
    assert Pending(inbox) == "END" + "\n" + more;
    ReplyOf(inbox, "END", more);
  }

  /** `AsShown` one entry at a time from the front. */
  lemma AsShownFirst(entries: seq<(string, int)>)
    requires entries != []
    ensures AsShown(entries) == [Entry(entries[0].0, entries[0].1)] + AsShown(entries[1..])
  {
  }

  /** A listing as the server sends it, with any count in its header, is
      read to its END line: the call returns 0, shows exactly its entries in
      order, and leaves what follows. */
  lemma ListReadsListing(inbox: seq<RecvEvent>, n: int, entries: seq<(string, int)>, more: seq<char>)
    requires LLONG_MIN <= n <= LLONG_MAX && Listable(entries)
    requires Pending(inbox) == Header(n) + FileLines(entries) + "END\n" + more
    ensures var l := ListCall(inbox);
      l.ret == 0 && l.shown == AsShown(entries) && Pending(l.rest) == more
  {
    var tail := FileLines(entries) + "END\n" + more;
    HeaderTextReads(n);
    ConcatAssoc(Header(n), FileLines(entries), "END\n");
    ConcatAssoc(Header(n), FileLines(entries) + "END\n", more);
    ConcatAssoc(HeaderText(n), "\n", tail);
    ReplyOf(inbox, HeaderText(n), tail);
    ListLoopReads(ReadReply(inbox).rest, [], entries, more);
    assert [] + AsShown(entries) == AsShown(entries);
  }

  /** A first line that is not `OK ...` fails the call before anything is
      shown. */
  lemma ListRefused(inbox: seq<RecvEvent>, text: string, more: seq<char>)
    requires Readable(text) && !StartsWith(text, "OK ")
    requires Pending(inbox) == text + "\n" + more
    ensures var l := ListCall(inbox); l.ret == -1 && l.shown == [] && Pending(l.rest) == more
  {
    ReplyOf(inbox, text, more);
  }

  /** Against the POSIX server's LIST reply: the call succeeds exactly when
      the server could open its directory, and then shows the regular files
      the server listed, in the server's order. */
  lemma ListShowsServerListing(inbox: seq<RecvEvent>, files: map<string, Store.Node>, dir: string,
                               listing: Option<seq<string>>, more: seq<char>)
    requires Pending(inbox) == Server.ListReply(files, dir, listing) + more
    requires listing.Some? ==>
      Listable(Server.Listed(files, dir, listing.value)) &&
      Server.CountEntries(listing.value) <= LLONG_MAX
    ensures var l := ListCall(inbox);
      (l.ret == 0 <==> listing.Some?) &&
      (listing.Some? ==> l.shown == AsShown(Server.Listed(files, dir, listing.value)))
  {
    match listing
    case None =>
      ReplyLineOf(inbox, "ERR cannot open storage\n", more);
      NotStartsWith(ReadReply(inbox).text, "OK ");
    case Some(names) =>
      ListReadsListing(inbox, Server.CountEntries(names), Server.Listed(files, dir, names), more);
  }

  /** `do_list(sfd)`: send `LIST`, check the header, then show lines until
      `END`. */
  method DoList(c: Conn, line: array<char>) returns (ret: int, shown: seq<Shown>)
    requires line.Length == MAX_LINE
    modifies c, line
    ensures c.outbox == old(c.outbox) + "LIST\n"
    ensures ListCall(old(c.inbox)) == Listing(ret, shown, c.inbox)
  {
    c.Send("LIST\n");
    var n, len := Server.ReadLine(c, line);
    if n <= 0 || !StartsWith(line[..len], "OK ") {
      return -1, [];
    }
    shown := [];
    while true
      invariant ListLoop(c.inbox, shown) == ListCall(old(c.inbox))
      invariant c.outbox == old(c.outbox) + "LIST\n"
      decreases Size(c.inbox)
    {
      ghost var before := ReadReply(c.inbox);
      n, len := Server.ReadLine(c, line);
      if n <= 0 {
        return -1, shown;
      }
      var text := line[..len];
      if text == "END" {
        return 0, shown;
      }
      shown := shown + ShowLine(text);
    }
  }

  // -------------------------------------------------------------- UPLOAD

  /** What `stat` and `read` make of the local path: not a regular file
      (or missing), or a regular file of `size` bytes whose reads deliver
      `content` before end of file. */
  datatype LocalFile = Unusable | RegularFile(size: nat, content: seq<char>)

  /** What a call sends, what it returns, and the rest of the stream. */
  datatype Call = Call(ret: int, sent: seq<char>, rest: seq<RecvEvent>)

  /** The remote name: the one given, or the local path's base name. */
  function RemoteName(local: string, remoteOpt: Option<string>): string {
    match remoteOpt
    case Some(remote) => remote
    case None => Basename(local, false)
  }

  /** `UPLOAD <remote> <size>\n` */
  function UploadRequest(remote: string, size: int): string {
    "UPLOAD " + remote + " " + FormatInt(size) + "\n"
  }

  /** `do_upload(sfd, local, remote_opt)`. */
  function UploadCall(inbox: seq<RecvEvent>, local: string, remoteOpt: Option<string>, file: LocalFile): Call {
    match file
    case Unusable => Call(-1, [], inbox)
    case RegularFile(size, content) =>
      var request := UploadRequest(RemoteName(local, remoteOpt), size);
      var r := ReadReply(inbox);
      if !r.ok || r.text != "OK" then Call(-1, request, r.rest)
      else if |content| != size then Call(-1, request + content, r.rest)
      else
        var v := Verdict(r.rest);
        Call(v.0, request + content, v.1)
  }

  /** Nothing is sent for a path that is not a regular file; otherwise the
      request goes first, and the file's bytes follow only after the server
      answered exactly `OK`. A call returns 0 only when it sent the whole
      file, of the size it announced, and the final answer starts with
      `OK`. */
  lemma UploadSendsAfterOk(inbox: seq<RecvEvent>, local: string, remoteOpt: Option<string>, file: LocalFile)
    ensures var c := UploadCall(inbox, local, remoteOpt, file);
      file.Unusable? ==> c.ret == -1 && c.sent == [] && c.rest == inbox
    ensures var c := UploadCall(inbox, local, remoteOpt, file);
      file.RegularFile? ==>
        var request := UploadRequest(RemoteName(local, remoteOpt), file.size);
        c.sent == request || (c.sent == request + file.content && ReadReply(inbox).ok && ReadReply(inbox).text == "OK")
    ensures var c := UploadCall(inbox, local, remoteOpt, file);
      c.ret == 0 <==>
        file.RegularFile? && ReadReply(inbox).ok && ReadReply(inbox).text == "OK" && |file.content| == file.size &&
        ReadReply(ReadReply(inbox).rest).ok && StartsWith(ReadReply(ReadReply(inbox).rest).text, "OK")
  {
  }

  /** Against a server that accepts and saves: the call returns 0 and leaves
      what follows the two answers. */
  lemma UploadCompletes(inbox: seq<RecvEvent>, local: string, remoteOpt: Option<string>,
                        file: LocalFile, more: seq<char>)
    requires file.RegularFile? && |file.content| == file.size
    requires Pending(inbox) == "OK\n" + "OK SAVED\n" + more
    ensures var c := UploadCall(inbox, local, remoteOpt, file);
      c.ret == 0 && c.sent == UploadRequest(RemoteName(local, remoteOpt), file.size) + file.content &&
      Pending(c.rest) == more
  {
    assert Pending(inbox) == "OK" + "\n" + ("OK SAVED\n" + more);
    ReplyOf(inbox, "OK", "OK SAVED\n" + more);
    var r := ReadReply(inbox);
    assert Pending(r.rest) == "OK SAVED" + "\n" + more;
    ReplyOf(r.rest, "OK SAVED", more);
    assert StartsWith("OK SAVED", "OK");
  }

  /** A file that did not read back at the size `stat` gave fails the call
      whatever the server says. */
  lemma UploadMismatchFails(inbox: seq<RecvEvent>, local: string, remoteOpt: Option<string>, file: LocalFile)
    requires file.RegularFile? && |file.content| != file.size
    ensures UploadCall(inbox, local, remoteOpt, file).ret == -1
  {
  }

  /** `do_upload(sfd, local, remote_opt)`: `stat`, the request, the `OK`,
      the file in BUF_SIZE pieces, the size check and the final answer. */
  method DoUpload(c: Conn, line: array<char>, local: string, remoteOpt: Option<string>, file: LocalFile)
    returns (ret: int)
    requires line.Length == MAX_LINE
    modifies c, line
    ensures var call := UploadCall(old(c.inbox), local, remoteOpt, file);
      ret == call.ret && c.outbox == old(c.outbox) + call.sent && c.inbox == call.rest
  {
    ghost var call := UploadCall(c.inbox, local, remoteOpt, file);
    ghost var r := ReadReply(c.inbox);
    var remote := if remoteOpt.Some? then remoteOpt.value else Basename(local, false);
    if file.Unusable? {
      return -1;
    }
    var request := UploadRequest(remote, file.size);
    assert request == UploadRequest(RemoteName(local, remoteOpt), file.size);
    c.Send(request);
    var ok, text := AwaitReply(c, line);
    if !ok || text != "OK" {
      assert call == Call(-1, request, r.rest);
      return -1;
    }
    assert c.inbox == r.rest;
    var sent := SendPieces(c, file.content);
    ConcatAssoc(old(c.outbox), request, file.content);
    if sent != file.size {
      assert call == Call(-1, request + file.content, r.rest);
      return -1;
    }
    ret := AwaitVerdict(c, line);
    assert call == Call(Verdict(r.rest).0, request + file.content, Verdict(r.rest).1);
  }

  /** `do_upload`'s loop: the file's bytes in pieces of at most BUF_SIZE. */
  method SendPieces(c: Conn, content: seq<char>) returns (sent: nat)
    modifies c
    ensures sent == |content| && c.outbox == old(c.outbox) + content && c.inbox == old(c.inbox)
  {
    sent := 0;
    while sent < |content|
      invariant sent <= |content|
      invariant c.outbox == old(c.outbox) + content[..sent]
      invariant c.inbox == old(c.inbox)
    {
      var k := if |content| - sent > BUF_SIZE then BUF_SIZE else |content| - sent;
      c.Send(content[sent..sent + k]);
      assert content[..sent + k] == content[..sent] + content[sent..sent + k];
      ConcatAssoc(old(c.outbox), content[..sent], content[sent..sent + k]);
      sent := sent + k;
    }
    assert content[..sent] == content;
  }

  // ------------------------------------------------------------ DOWNLOAD

  /** What a download loop ends with: whether it completed, the bytes
      written to the local file, and the rest of the stream. */
  datatype Fetch = Fetch(ok: bool, data: seq<char>, rest: seq<RecvEvent>)

  /** `do_download`'s loop: `recv_all` of at most BUF_SIZE bytes at a time
      until `remaining` reaches 0; a `recv_all` that returns 0 or -1 fails
      the call. */
  function DownloadLoop(inbox: seq<RecvEvent>, remaining: int, data: seq<char>): Fetch
    decreases if remaining > 0 then remaining else 0
  {
    if remaining <= 0 then Fetch(true, data, inbox)
    else
      var chunk := if remaining > BUF_SIZE then BUF_SIZE else remaining;
      var f := RecvAllFrom(inbox, chunk, []);
      if f.result <= 0 then Fetch(false, data, f.rest)
      else
        RecvAllOutcome(inbox, chunk, []);
        DownloadLoop(f.rest, remaining - f.result, data + f.bytes)
  }

  /** What a download ends with: its return value, the local file as it was
      left (its name and content), and the rest of the stream. */
  datatype Received = Received(ret: int, saved: Option<(string, seq<char>)>, rest: seq<RecvEvent>)

  /** The size `sscanf(line, "OK %lld", &size)` leaves, 0 when it fails. */
  function AnnouncedSize(text: string): int
    requires |text| >= 2
  {
    match ScanInt(text[2..])
    case Some((size, _)) => size
    case None => 0
  }

  /** `do_download(sfd, remote, save_as_opt)` after the request is sent. */
  function DownloadCall(inbox: seq<RecvEvent>, remote: string, saveAsOpt: Option<string>): Received {
    var r := ReadReply(inbox);
    if !r.ok || !StartsWith(r.text, "OK ") then Received(-1, None, r.rest)
    else
      var saveAs := match saveAsOpt case Some(s) => s case None => remote;
      var l := DownloadLoop(r.rest, AnnouncedSize(r.text), []);
      Received(if l.ok then 0 else -1, Some((saveAs, l.data)), l.rest)
  }

  /** A completed loop has written exactly the announced number of the next
      bytes of the stream; a failed one has written a prefix of them. */
  lemma {:induction false} DownloadLoopTakes(inbox: seq<RecvEvent>, remaining: int, data: seq<char>)
    ensures var l := DownloadLoop(inbox, remaining, data);
      data <= l.data && l.data[|data|..] <= Pending(inbox)
    ensures var l := DownloadLoop(inbox, remaining, data);
      l.ok ==> (|l.data| == |data| + (if remaining > 0 then remaining else 0) &&
                l.data[|data|..] + Pending(l.rest) == Pending(inbox))
    decreases if remaining > 0 then remaining else 0
  {
    var l := DownloadLoop(inbox, remaining, data);
    if remaining > 0 {
      var chunk := if remaining > BUF_SIZE then BUF_SIZE else remaining;
      var f := RecvAllFrom(inbox, chunk, []);
      DownloadLoopStep(inbox, remaining, data);
      if f.result > 0 {
        var mid := data + f.bytes;
        DownloadLoopTakes(f.rest, remaining - f.result, mid);
        TakesAfter(data, f.bytes, l.data, Pending(inbox), Pending(f.rest));
        if l.ok {
          ConcatAssoc(f.bytes, l.data[|mid|..], Pending(l.rest));
        }
      } else {
        assert l.data[|data|..] == [];
      }
    } else {
      assert l.data[|data|..] == [];
    }
  }

  /** One round of the download loop. */
  lemma DownloadLoopStep(inbox: seq<RecvEvent>, remaining: int, data: seq<char>)
    requires remaining > 0
    ensures var chunk := if remaining > BUF_SIZE then BUF_SIZE else remaining;
      var f := RecvAllFrom(inbox, chunk, []);
      (f.result <= 0 ==> DownloadLoop(inbox, remaining, data) == Fetch(false, data, f.rest)) &&
      (f.result > 0 ==>
        f.result == |f.bytes| && f.result <= remaining && f.bytes + Pending(f.rest) == Pending(inbox) &&
        DownloadLoop(inbox, remaining, data) == DownloadLoop(f.rest, remaining - f.result, data + f.bytes))
  {
    var chunk := if remaining > BUF_SIZE then BUF_SIZE else remaining;
    RecvAllOutcome(inbox, chunk, []);
    assert [] + Pending(inbox) == Pending(inbox);
  }

  /** What the loop wrote after one round of `bytes` is those bytes followed
      by what the later rounds wrote. */
  lemma TakesAfter(data: seq<char>, bytes: seq<char>, all: seq<char>, before: seq<char>, after: seq<char>)
    requires data + bytes <= all && all[|data + bytes|..] <= after
    requires bytes + after == before
    ensures data <= all && all[|data|..] == bytes + all[|data + bytes|..] && all[|data|..] <= before
  {
    PrefixTrans(data, data + bytes, all);
  }

  /** The loop completes exactly when the stream still holds the announced
      number of bytes before any hard error. */
  lemma {:induction false} DownloadLoopCompletes(inbox: seq<RecvEvent>, remaining: int, data: seq<char>)
    ensures DownloadLoop(inbox, remaining, data).ok <==> remaining <= |Pending(inbox)|
    decreases if remaining > 0 then remaining else 0
  {
    DownloadLoopTakes(inbox, remaining, data);
    if 0 < remaining <= |Pending(inbox)| {
      var chunk := if remaining > BUF_SIZE then BUF_SIZE else remaining;
      var f := RecvAllFrom(inbox, chunk, []);
      RecvAllFull(inbox, chunk, []);
      RecvAllOutcome(inbox, chunk, []);
      assert f.bytes + Pending(f.rest) == Pending(inbox) by {
        assert [] + Pending(inbox) == Pending(inbox);
      }
      DownloadLoopCompletes(f.rest, remaining - f.result, data + f.bytes);
    }
  }

  /** A download reply as the server sends it is saved whole: the call
      returns 0, the local file holds exactly the server's bytes, and what
      follows stays in the stream. */
  lemma DownloadReadsFile(inbox: seq<RecvEvent>, remote: string, saveAsOpt: Option<string>,
                          data: seq<char>, more: seq<char>)
    requires |data| <= LLONG_MAX
    requires Pending(inbox) == Header(|data|) + data + more
    ensures var d := DownloadCall(inbox, remote, saveAsOpt);
      d.ret == 0 && d.saved == Some((if saveAsOpt.Some? then saveAsOpt.value else remote, data)) &&
      Pending(d.rest) == more
  {
    HeaderTextReads(|data|);
    ConcatAssoc(Header(|data|), data, more);
    ConcatAssoc(HeaderText(|data|), "\n", data + more);
    ReplyOf(inbox, HeaderText(|data|), data + more);
    var r := ReadReply(inbox);
    assert AnnouncedSize(r.text) == |data|;
    DownloadLoopTakes(r.rest, |data|, []);
    DownloadLoopCompletes(r.rest, |data|, []);
    var l := DownloadLoop(r.rest, |data|, []);
    assert l.data == l.data[0..];
    assert l.data + Pending(l.rest) == data + more;
    assert l.data == (data + more)[..|data|] == data;
    assert Pending(l.rest) == (data + more)[|data|..] == more;
  }

  /** A stream that ends, or breaks, before the announced number of bytes
      fails the call; the local file keeps what arrived. */
  lemma DownloadShortFails(inbox: seq<RecvEvent>, remote: string, saveAsOpt: Option<string>,
                           n: int, partial: seq<RecvEvent>)
    requires LLONG_MIN <= n <= LLONG_MAX && |Pending(partial)| < n
    requires Pending(inbox) == Header(n) + Pending(partial)
    ensures var d := DownloadCall(inbox, remote, saveAsOpt);
      d.ret == -1 && d.saved.Some? && d.saved.value.1 <= Pending(partial)
  {
    HeaderTextReads(n);
    ConcatAssoc(HeaderText(n), "\n", Pending(partial));
    ReplyOf(inbox, HeaderText(n), Pending(partial));
    var r := ReadReply(inbox);
    assert AnnouncedSize(r.text) == n;
    DownloadLoopCompletes(r.rest, n, []);
    DownloadLoopTakes(r.rest, n, []);
    var l := DownloadLoop(r.rest, n, []);
    assert l.data == l.data[0..];
  }

  /** A first line that is not `OK ...` fails the call and creates no local
      file. */
  lemma DownloadRefused(inbox: seq<RecvEvent>, remote: string, saveAsOpt: Option<string>,
                        text: string, more: seq<char>)
    requires Readable(text) && !StartsWith(text, "OK ")
    requires Pending(inbox) == text + "\n" + more
    ensures var d := DownloadCall(inbox, remote, saveAsOpt);
      d.ret == -1 && d.saved == None && Pending(d.rest) == more
  {
    ReplyOf(inbox, text, more);
  }

  /** Against the POSIX server's DOWNLOAD reply: the call succeeds exactly
      when the server sends the file, and the local copy then equals the
      stored file. */
  lemma DownloadMatchesServer(inbox: seq<RecvEvent>, d: Store.Disk, serverInbox: seq<RecvEvent>,
                              dir: string, name: string, saveAsOpt: Option<string>, more: seq<char>)
    requires Pending(inbox) == Server.DownloadSpec(d, serverInbox, dir, name).reply + more
    requires Store.Resolve(d.files, name).Some? && Store.Resolve(d.files, name).value.Regular? ==>
      |Store.Resolve(d.files, name).value.data| <= LLONG_MAX
    ensures var got := DownloadCall(inbox, name, saveAsOpt);
      var reply := Server.DownloadSpec(d, serverInbox, dir, name).reply;
      (got.ret == 0 <==> StartsWith(reply, "OK ")) &&
      (got.ret == 0 ==>
        Store.Resolve(d.files, name).Some? && Store.Resolve(d.files, name).value.Regular? &&
        got.saved.Some? && got.saved.value.1 == Store.Resolve(d.files, name).value.data)
  {
    Server.DownloadSendsFile(d, serverInbox, dir, name);
    RenameReplies();
    DownloadReplies();
    var reply := Server.DownloadSpec(d, serverInbox, dir, name).reply;
    if StartsWith(reply, "OK ") {
      var data := Store.Resolve(d.files, name).value.data;
      DownloadReadsFile(inbox, name, saveAsOpt, data, more);
    } else {
      if reply == "ERR bad filename\n" {
        ReplyLineOf(inbox, reply, more);
      } else if reply == "ERR not found\n" {
        ReplyLineOf(inbox, reply, more);
      } else if reply == "ERR cannot lock file\n" {
        ReplyLineOf(inbox, reply, more);
      } else {
        assert reply == "ERR not a file\n";
        ReplyLineOf(inbox, reply, more);
      }
      NotStartsWith(ReadReply(inbox).text, "OK ");
    }
  }

  /** `do_download(sfd, remote, save_as_opt)`. */
  method DoDownload(c: Conn, line: array<char>, remote: string, saveAsOpt: Option<string>)
    returns (ret: int, saved: Option<(string, seq<char>)>)
    requires line.Length == MAX_LINE
    modifies c, line
    ensures c.outbox == old(c.outbox) + "DOWNLOAD " + remote + "\n"
    ensures DownloadCall(old(c.inbox), remote, saveAsOpt) == Received(ret, saved, c.inbox)
  {
    c.Send("DOWNLOAD " + remote + "\n");
    ghost var sent := c.inbox;
    var ok, text := AwaitReply(c, line);
    if !ok || !StartsWith(text, "OK ") {
      return -1, None;
    }
    var size := AnnouncedSize(text);
    var saveAs := if saveAsOpt.Some? then saveAsOpt.value else remote;
    var buf := new char[BUF_SIZE];
    var done, data := ReceiveDownload(c, buf, size);
    assert DownloadLoop(ReadReply(sent).rest, size, []) == Fetch(done, data, c.inbox);
    return if done then 0 else -1, Some((saveAs, data));
  }

  /** `do_download`'s loop over a BUF_SIZE buffer. */
  method ReceiveDownload(c: Conn, buf: array<char>, size: int) returns (ok: bool, data: seq<char>)
    requires buf.Length == BUF_SIZE
    modifies c, buf
    ensures DownloadLoop(old(c.inbox), size, []) == Fetch(ok, data, c.inbox)
    ensures c.outbox == old(c.outbox)
  {
    ghost var start := c.inbox;
    var remaining := size;
    data := [];
    while remaining > 0
      invariant DownloadLoop(c.inbox, remaining, data) == DownloadLoop(start, size, [])
      invariant c.outbox == old(c.outbox)
      decreases remaining
    {
      var chunk := if remaining > BUF_SIZE then BUF_SIZE else remaining;
      ghost var f := RecvAllFrom(c.inbox, chunk, []);
      RecvAllOutcome(c.inbox, chunk, []);
      var got := RecvAll(c, buf, chunk);
      if got <= 0 {
        return false, data;
      }
      assert buf[..got] == buf[..][..got] == f.bytes;
      data := data + buf[..got];
      remaining := remaining - got;
    }
    return true, data;
  }

  // ------------------------------------------------------ RENAME, DELETE

  /** The answer to a rename or a delete: 0 when the reply line starts with
      `OK`, -1 otherwise, and the rest of the stream. */
  function Verdict(inbox: seq<RecvEvent>): (int, seq<RecvEvent>) {
    var r := ReadReply(inbox);
    (if r.ok && StartsWith(r.text, "OK") then 0 else -1, r.rest)
  }

  /** A pending reply line decides the verdict by its first two
      characters. */
  lemma VerdictOf(inbox: seq<RecvEvent>, text: string, more: seq<char>)
    requires Readable(text)
    requires Pending(inbox) == text + "\n" + more
    ensures Verdict(inbox).0 == 0 <==> StartsWith(text, "OK")
    ensures Pending(Verdict(inbox).1) == more
  {
    ReplyOf(inbox, text, more);
  }

  /** Against the POSIX server's RENAME reply: the call reports success
      exactly when the server renamed. */
  lemma RenameMatchesServer(inbox: seq<RecvEvent>, d: Store.Disk, serverInbox: seq<RecvEvent>,
                            dir: string, from: string, to: string, more: seq<char>)
    requires Pending(inbox) == Server.RenameSpec(d, serverInbox, dir, from, to).reply + more
    ensures Verdict(inbox).0 == 0 <==> Server.RenameSpec(d, serverInbox, dir, from, to).reply == "OK RENAMED\n"
  {
    var reply := Server.RenameSpec(d, serverInbox, dir, from, to).reply;
    RenameReplies();
    if reply == "OK RENAMED\n" {
      ReplyLineOf(inbox, reply, more);
      assert ReadReply(inbox).text[..2] == "OK";
    } else {
      if reply == "ERR bad filename\n" {
        ReplyLineOf(inbox, reply, more);
      } else if reply == "ERR cannot lock\n" {
        ReplyLineOf(inbox, reply, more);
      } else if reply == "ERR rename failed\n" {
        ReplyLineOf(inbox, reply, more);
      } else {
        assert reply == "ERR not found\n";
        ReplyLineOf(inbox, reply, more);
      }
      NotStartsWith(ReadReply(inbox).text, "OK");
    }
  }

  /** Against the POSIX server's DELETE reply: the call reports success
      exactly when the server deleted. */
  lemma DeleteMatchesServer(inbox: seq<RecvEvent>, d: Store.Disk, serverInbox: seq<RecvEvent>,
                            dir: string, name: string, more: seq<char>)
    requires Pending(inbox) == Server.DeleteSpec(d, serverInbox, dir, name).reply + more
    ensures Verdict(inbox).0 == 0 <==> Server.DeleteSpec(d, serverInbox, dir, name).reply == "OK DELETED\n"
  {
    var reply := Server.DeleteSpec(d, serverInbox, dir, name).reply;
    RenameReplies();
    DeleteReplies();
    if reply == "OK DELETED\n" {
      ReplyLineOf(inbox, reply, more);
      assert ReadReply(inbox).text[..2] == "OK";
    } else {
      if reply == "ERR bad filename\n" {
        ReplyLineOf(inbox, reply, more);
      } else {
        assert reply == "ERR delete failed\n";
        ReplyLineOf(inbox, reply, more);
      }
      NotStartsWith(ReadReply(inbox).text, "OK");
    }
  }

  /** `recv_line` and `chomp` of one answer line; its text is meaningful
      only when a line arrived. */
  method AwaitReply(c: Conn, line: array<char>) returns (ok: bool, text: string)
    requires line.Length == MAX_LINE
    modifies c, line
    ensures var r := ReadReply(old(c.inbox)); ok == r.ok && (ok ==> text == r.text) && c.inbox == r.rest
    ensures c.outbox == old(c.outbox)
  {
    var n, len := Server.ReadLine(c, line);
    ok := n > 0;
    text := if ok then line[..len] else [];
  }

  /** Receive and judge the answer to a rename or a delete. */
  method AwaitVerdict(c: Conn, line: array<char>) returns (ret: int)
    requires line.Length == MAX_LINE
    modifies c, line
    ensures (ret, c.inbox) == Verdict(old(c.inbox)) && c.outbox == old(c.outbox)
  {
    var n, len := Server.ReadLine(c, line);
    ret := if n > 0 && StartsWith(line[..len], "OK") then 0 else -1;
  }

  /** `do_rename_remote(sfd, oldn, newn)`. */
  method DoRename(c: Conn, line: array<char>, from: string, to: string) returns (ret: int)
    requires line.Length == MAX_LINE
    modifies c, line
    ensures c.outbox == old(c.outbox) + "RENAME " + from + " " + to + "\n"
    ensures (ret, c.inbox) == Verdict(old(c.inbox))
  {
    c.Send("RENAME " + from + " " + to + "\n");
    ret := AwaitVerdict(c, line);
  }

  /** `do_delete_remote(sfd, name)`. */
  method DoDelete(c: Conn, line: array<char>, name: string) returns (ret: int)
    requires line.Length == MAX_LINE
    modifies c, line
    ensures c.outbox == old(c.outbox) + "DELETE " + name + "\n"
    ensures (ret, c.inbox) == Verdict(old(c.inbox))
  {
    c.Send("DELETE " + name + "\n");
    ret := AwaitVerdict(c, line);
  }

  /** The REPL's `quit`: send `QUIT` and take one line of answer. */
  method DoQuit(c: Conn, line: array<char>)
    requires line.Length == MAX_LINE
    modifies c, line
    ensures c.outbox == old(c.outbox) + Request(Quit) + "\n"
    ensures c.inbox == ReadReply(old(c.inbox)).rest
  {
    c.Send(Request(Quit) + "\n");
    var n, len := Server.ReadLine(c, line);
  }

  // ---------------------------------------------------------------- REPL

  /** What the REPL does with a typed line. */
  datatype Typed =
    | ListFiles
    | UploadFile(local: string, remote: Option<string>)
    | DownloadFile(name: string, saveAs: Option<string>)
    | RenameFile(from: string, to: string)
    | DeleteFile(name: string)
    | Exit
    | Blank
    | Help

  /** The REPL's `if` chain over the line `fgets` stored, in its order: the
      two-argument forms of `upload` and `download` are tried before their
      one-argument forms. */
  function ParseTyped(line: string): Typed {
    if StartsWith(line, "list") then ListFiles
    else if ScanTwo(line, "upload").Some? then
      UploadFile(ScanTwo(line, "upload").value.0, Some(ScanTwo(line, "upload").value.1))
    else if ScanOne(line, "upload").Some? then UploadFile(ScanOne(line, "upload").value, None)
    else if ScanTwo(line, "download").Some? then
      DownloadFile(ScanTwo(line, "download").value.0, Some(ScanTwo(line, "download").value.1))
    else if ScanOne(line, "download").Some? then DownloadFile(ScanOne(line, "download").value, None)
    else TypedFromRename(line)
  }

  /** The REPL's chain from its `rename` test on. */
  function TypedFromRename(line: string): Typed {
    if ScanTwo(line, "rename").Some? then
      RenameFile(ScanTwo(line, "rename").value.0, ScanTwo(line, "rename").value.1)
    else if ScanOne(line, "delete").Some? then DeleteFile(ScanOne(line, "delete").value)
    else if StartsWith(line, "quit") then Exit
    else if StartsWith(line, "\n") then Blank
    else Help
  }

  /** A line that starts with none of `list`, `upload` and `download`
      reaches the chain's `rename` test. */
  lemma TypedSkipsToRename(line: string)
    requires !StartsWith(line, "list") && !StartsWith(line, "upload") && !StartsWith(line, "download")
    ensures ParseTyped(line) == TypedFromRename(line)
  {
    assert ScanTwo(line, "upload") == None && ScanOne(line, "upload") == None;
    assert ScanTwo(line, "download") == None && ScanOne(line, "download") == None;
  }

  /** A typed command: a keyword, one or two arguments each after one space,
      and the '\n' `fgets` keeps. */
  function Typing(keyword: string, a: string, b: Option<string>): string {
    keyword + " " + a + Tail(b)
  }

  /** What follows the first argument of a typed command. */
  function Tail(b: Option<string>): string {
    (if b.Some? then " " + b.value else "") + "\n"
  }

  /** A typed line starts with its keyword, and its first argument is
      scanned whole. */
  lemma FirstArg(keyword: string, a: string, after: string)
    requires |keyword| > 0 && IsToken(a, NAME_WIDTH) && |after| > 0 && IsSpace(after[0])
    ensures StartsWith(keyword + " " + a + after, keyword)
    ensures forall i :: 0 <= i < |keyword| ==> (keyword + " " + a + after)[i] == keyword[i]
    ensures ScanToken((keyword + " " + a + after)[|keyword|..], NAME_WIDTH) == Some((a, after))
  {
    var line := keyword + " " + a + after;
    assert line == keyword + (" " + (a + after));
    assert line[..|keyword|] == keyword;
    assert line[|keyword|..] == " " + (a + after);
    SkipOneSpace(a + after);
    ScanTokenOf(a, after, NAME_WIDTH);
  }

  /** The second argument, when typed, is scanned whole; otherwise there is
      none. */
  lemma SecondArg(b: Option<string>)
    requires b.Some? ==> IsToken(b.value, NAME_WIDTH)
    ensures ScanToken(Tail(b), NAME_WIDTH) == if b.Some? then Some((b.value, "\n")) else None
  {
    if b.Some? {
      assert Tail(b) == " " + (b.value + "\n");
      SkipOneSpace(b.value + "\n");
      ScanTokenOf(b.value, "\n", NAME_WIDTH);
    } else {
      assert SkipSpace(Tail(b)) == [];
    }
  }

  /** The arguments a keyword's formats scan from a typed line: the first
      always, the second exactly when it was typed. */
  lemma TypedScans(keyword: string, a: string, b: Option<string>)
    requires |keyword| > 0 && IsToken(a, NAME_WIDTH) && (b.Some? ==> IsToken(b.value, NAME_WIDTH))
    ensures StartsWith(Typing(keyword, a, b), keyword)
    ensures ScanOne(Typing(keyword, a, b), keyword) == Some(a)
    ensures ScanTwo(Typing(keyword, a, b), keyword) == if b.Some? then Some((a, b.value)) else None
  {
    FirstArg(keyword, a, Tail(b));
    SecondArg(b);
  }

  /** `upload <local> [remote]` is an upload with the optional remote name
      exactly when it was typed. */
  lemma TypedUpload(local: string, remote: Option<string>)
    requires IsToken(local, NAME_WIDTH) && (remote.Some? ==> IsToken(remote.value, NAME_WIDTH))
    ensures ParseTyped(Typing("upload", local, remote)) == UploadFile(local, remote)
  {
    var line := Typing("upload", local, remote);
    TypedScans("upload", local, remote);
    KeywordsDiffer(line, "upload", "list", 0);
  }

  /** `download <remote> [save_as]` is a download with the optional local
      name exactly when it was typed. */
  lemma TypedDownload(remote: string, saveAs: Option<string>)
    requires IsToken(remote, NAME_WIDTH) && (saveAs.Some? ==> IsToken(saveAs.value, NAME_WIDTH))
    ensures ParseTyped(Typing("download", remote, saveAs)) == DownloadFile(remote, saveAs)
  {
    var line := Typing("download", remote, saveAs);
    TypedScans("download", remote, saveAs);
    KeywordsDiffer(line, "download", "list", 0);
    KeywordsDiffer(line, "download", "upload", 0);
    assert ScanTwo(line, "upload") == None && ScanOne(line, "upload") == None;
  }

  /** `rename <old> <new>` is read as typed. */
  lemma TypedRename(from: string, to: string)
    requires IsToken(from, NAME_WIDTH) && IsToken(to, NAME_WIDTH)
    ensures ParseTyped(Typing("rename", from, Some(to))) == RenameFile(from, to)
  {
    var line := Typing("rename", from, Some(to));
    TypedScans("rename", from, Some(to));
    KeywordsDiffer(line, "rename", "list", 0);
    KeywordsDiffer(line, "rename", "upload", 0);
    KeywordsDiffer(line, "rename", "download", 0);
    TypedSkipsToRename(line);
  }

  /** `delete <name>` is read as typed. */
  lemma TypedDelete(name: string)
    requires IsToken(name, NAME_WIDTH)
    ensures ParseTyped(Typing("delete", name, None)) == DeleteFile(name)
  {
    TypedScans("delete", name, None);
    TypedDeleteLine(Typing("delete", name, None));
  }

  /** Any line that starts with `delete` and scans one name deletes it. */
  lemma TypedDeleteLine(line: string)
    requires StartsWith(line, "delete") && ScanOne(line, "delete").Some?
    ensures ParseTyped(line) == DeleteFile(ScanOne(line, "delete").value)
  {
    DeleteIsNoOther(line);
    TypedSkipsToRename(line);
    assert ScanTwo(line, "rename") == None;
  }

  /** A line that starts with `delete` starts with none of the keywords
      tested before it. */
  lemma DeleteIsNoOther(line: string)
    requires StartsWith(line, "delete")
    ensures !StartsWith(line, "list") && !StartsWith(line, "upload")
    ensures !StartsWith(line, "download") && !StartsWith(line, "rename")
  {
    KeywordsDiffer(line, "delete", "list", 0);
    KeywordsDiffer(line, "delete", "upload", 0);
    KeywordsDiffer(line, "delete", "rename", 0);
    KeywordsDiffer(line, "delete", "download", 1);
  }

  /** Any line that starts with `quit` ends the REPL, and any that starts
      with `list` lists. */
  lemma TypedByPrefix(line: string)
    ensures StartsWith(line, "quit") ==> ParseTyped(line) == Exit
    ensures ParseTyped(line) == ListFiles <==> StartsWith(line, "list")
  {
    if StartsWith(line, "quit") {
      assert line[0] == 'q';
      NotStartsWith(line, "list");
      NotStartsWith(line, "upload");
      NotStartsWith(line, "download");
      NotStartsWith(line, "rename");
      NotStartsWith(line, "delete");
      TypedSkipsToRename(line);
      assert ScanTwo(line, "rename") == None && ScanOne(line, "delete") == None;
    }
  }

  /** The names the REPL scans from a C string are whole tokens. */
  lemma ScannedNames(line: string, keyword: string)
    requires NUL !in line
    ensures ScanOne(line, keyword).Some? ==> IsToken(ScanOne(line, keyword).value, NAME_WIDTH)
    ensures ScanTwo(line, keyword).Some? ==>
      IsToken(ScanTwo(line, keyword).value.0, NAME_WIDTH) && IsToken(ScanTwo(line, keyword).value.1, NAME_WIDTH)
  {
    ScannedOne(line, keyword);
    ScannedTwo(line, keyword);
  }

  lemma ScannedOne(line: string, keyword: string)
    requires NUL !in line
    ensures ScanOne(line, keyword).Some? ==> IsToken(ScanOne(line, keyword).value, NAME_WIDTH)
  {
    if StartsWith(line, keyword) {
      NulFreeSuffix(line, |keyword|);
      ScannedToken(line[|keyword|..], NAME_WIDTH);
    }
  }

  lemma ScannedTwo(line: string, keyword: string)
    requires NUL !in line
    ensures ScanTwo(line, keyword).Some? ==>
      IsToken(ScanTwo(line, keyword).value.0, NAME_WIDTH) && IsToken(ScanTwo(line, keyword).value.1, NAME_WIDTH)
  {
    if StartsWith(line, keyword) {
      NulFreeSuffix(line, |keyword|);
      ScannedTokens(line[|keyword|..]);
    }
  }

  /** The one or two tokens scanned from a C string. */
  lemma ScannedTokens(s: string)
    requires NUL !in s
    ensures ScanToken(s, NAME_WIDTH).Some? ==> IsToken(ScanToken(s, NAME_WIDTH).value.0, NAME_WIDTH)
    ensures ScanToken(s, NAME_WIDTH).Some? && ScanToken(ScanToken(s, NAME_WIDTH).value.1, NAME_WIDTH).Some? ==>
      IsToken(ScanToken(ScanToken(s, NAME_WIDTH).value.1, NAME_WIDTH).value.0, NAME_WIDTH)
  {
    ScannedToken(s, NAME_WIDTH);
    if ScanToken(s, NAME_WIDTH).Some? {
      ScannedToken(ScanToken(s, NAME_WIDTH).value.1, NAME_WIDTH);
    }
  }

  /** A suffix of a C string has no NUL either. */
  lemma NulFreeSuffix(line: string, k: nat)
    requires NUL !in line && k <= |line|
    ensures NUL !in line[k..]
  {
    assert forall i :: 0 <= i < |line| - k ==> line[k..][i] == line[k + i];
  }

  /** A base name of a token, when not empty, is a token. */
  lemma BasenameOfToken(path: string)
    requires IsToken(path, NAME_WIDTH) && Basename(path, false) != []
    ensures IsToken(Basename(path, false), NAME_WIDTH)
  {
    var b := Basename(path, false);
    assert forall i :: 0 <= i < |b| ==> b[i] == path[|path| - |b| + i];
    assert NUL !in b by {
      assert forall i :: 0 <= i < |b| ==> b[i] != NUL;
    }
  }

  /** What the REPL sends for a typed rename, delete or download, the
      server's dispatcher decodes as the same command, names and all. */
  lemma TypedRequestsDecode(line: string)
    requires NUL !in line
    ensures ParseTyped(line).RenameFile? ==>
      var t := ParseTyped(line);
      Parse(LineSeen("RENAME " + t.from + " " + t.to + "\n")) == Rename(t.from, t.to)
    ensures ParseTyped(line).DeleteFile? ==>
      var t := ParseTyped(line);
      Parse(LineSeen("DELETE " + t.name + "\n")) == Delete(t.name)
    ensures ParseTyped(line).DownloadFile? ==>
      var t := ParseTyped(line);
      Parse(LineSeen("DOWNLOAD " + t.name + "\n")) == Download(t.name)
  {
    ScannedNames(line, "rename");
    ScannedNames(line, "delete");
    ScannedNames(line, "download");
    var t := ParseTyped(line);
    match t
    case RenameFile(from, to) => RequestRoundTrip(Rename(from, to));
    case DeleteFile(name) => RequestRoundTrip(Delete(name));
    case DownloadFile(remote, _) => RequestRoundTrip(Download(remote));
    case _ =>
  }

  /** A typed upload's request is decoded by the server as an upload of the
      remote name with the announced size, unless the local path ends in a
      separator and leaves no base name. */
  lemma TypedUploadDecodes(line: string, size: int)
    requires NUL !in line && LLONG_MIN <= size <= LLONG_MAX
    requires ParseTyped(line).UploadFile?
    ensures var t := ParseTyped(line); var remote := RemoteName(t.local, t.remote);
      remote != [] ==> Parse(LineSeen(UploadRequest(remote, size))) == Upload(remote, size)
  {
    ScannedNames(line, "upload");
    var t := ParseTyped(line);
    var remote := RemoteName(t.local, t.remote);
    if remote != [] {
      if t.remote.None? {
        BasenameOfToken(t.local);
      }
      RequestRoundTrip(Upload(remote, size));
    }
  }
}
