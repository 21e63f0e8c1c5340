/** The request language: the dispatcher's decision for one chomped line
    (the `sscanf`/`strncmp` chain of `client_thread`, identical in both server
    variants) and the request lines the client formats. */
module Protocol {
  import opened Text
  import opened Scan

  /** The field width of every `%1023s` in the dispatcher. */
  const NAME_WIDTH: nat := 1023

  datatype Command =
    | List
    | Upload(name: string, size: int)
    | Download(name: string)
    | Rename(from: string, to: string)
    | Delete(name: string)
    | Quit
    | Unknown

  /** `sscanf(line, "<keyword> %1023s", a1) == 1` */
  function ScanOne(line: string, keyword: string): Option<string> {
    if !StartsWith(line, keyword) then None
    else match ScanToken(line[|keyword|..], NAME_WIDTH)
      case None => None
      case Some((a1, _)) => Some(a1)
  }

  /** `sscanf(line, "RENAME %1023s %1023s", a1, a2) == 2` */
  function ScanTwo(line: string, keyword: string): Option<(string, string)> {
    if !StartsWith(line, keyword) then None
    else match ScanToken(line[|keyword|..], NAME_WIDTH)
      case None => None
      case Some((a1, rest)) =>
        match ScanToken(rest, NAME_WIDTH)
        case None => None
        case Some((a2, _)) => Some((a1, a2))
  }

  /** `sscanf(line, "<keyword> %1023s %lld", a1, &size) == 2`: the
      dispatcher's UPLOAD test and the client's reading of a FILE line. */
  function ScanNameSize(line: string, keyword: string): Option<(string, int)> {
    if !StartsWith(line, keyword) then None
    else match ScanToken(line[|keyword|..], NAME_WIDTH)
      case None => None
      case Some((a1, rest)) =>
        match ScanInt(rest)
        case None => None
        case Some((size, _)) => Some((a1, size))
  }

  /** The dispatcher's decision, in the order the chain tests it. LIST and
      QUIT are matched by a four-character prefix alone; the others need
      every conversion of their format to succeed. */
  function Parse(line: string): Command {
    if StartsWith(line, "LIST") then List else ParseFromUpload(line)
  }

  /** `%1023s` never yields more than NAME_WIDTH characters. */
  lemma ScanOneFits(line: string, keyword: string)
    ensures ScanOne(line, keyword).Some? ==> |ScanOne(line, keyword).value| <= NAME_WIDTH
  {
  }

  lemma ScanTwoFits(line: string, keyword: string)
    ensures ScanTwo(line, keyword).Some? ==>
      |ScanTwo(line, keyword).value.0| <= NAME_WIDTH && |ScanTwo(line, keyword).value.1| <= NAME_WIDTH
  {
  }

  lemma ScanNameSizeFits(line: string, keyword: string)
    ensures ScanNameSize(line, keyword).Some? ==> |ScanNameSize(line, keyword).value.0| <= NAME_WIDTH
  {
  }

  /** The chain from its UPLOAD test on. */
  function ParseFromUpload(line: string): Command {
    match ScanNameSize(line, "UPLOAD")
    case Some((a1, size)) => Upload(a1, size)
    case None => ParseFromDownload(line)
  }

  /** The chain from its DOWNLOAD test on. */
  function ParseFromDownload(line: string): Command {
    match ScanOne(line, "DOWNLOAD")
    case Some(a1) => Download(a1)
    case None => ParseFromRename(line)
  }

  /** The chain from its RENAME test on. */
  function ParseFromRename(line: string): Command {
    match ScanTwo(line, "RENAME")
    case Some((a1, a2)) => Rename(a1, a2)
    case None => ParseFromDelete(line)
  }

  /** The chain from its DELETE test on. */
  function ParseFromDelete(line: string): Command {
    match ScanOne(line, "DELETE")
    case Some(a1) => Delete(a1)
    case None => if StartsWith(line, "QUIT") then Quit else Unknown
  }

  /** A command the client can express: names are whole `%1023s` tokens and
      the size is a `long long`. */
  predicate WellFormed(cmd: Command) {
    match cmd
    case List => true
    case Upload(name, size) => IsToken(name, NAME_WIDTH) && LLONG_MIN <= size <= LLONG_MAX
    case Download(name) => IsToken(name, NAME_WIDTH)
    case Rename(from, to) => IsToken(from, NAME_WIDTH) && IsToken(to, NAME_WIDTH)
    case Delete(name) => IsToken(name, NAME_WIDTH)
    case Quit => true
    case Unknown => false
  }

  /** The request line the client sends for a command, without its '\n'. */
  function Request(cmd: Command): string
    requires WellFormed(cmd)
  {
    match cmd
    case List => "LIST"
    case Upload(name, size) => "UPLOAD " + name + " " + FormatInt(size)
    case Download(name) => "DOWNLOAD " + name
    case Rename(from, to) => "RENAME " + from + " " + to
    case Delete(name) => "DELETE " + name
    case Quit => "QUIT"
  }

  /** What the dispatcher sees of a received line: the C string, chomped. */
  function LineSeen(bytes: seq<char>): string {
    Chomped(CStr(bytes))
  }

  /** `OK <n>\n`: the first line of a listing and of a download. */
  function Header(n: int): string {
    "OK " + FormatInt(n) + "\n"
  }

  /** `FILE <name> <size>\n`: one listed file. */
  function FileLine(name: string, size: int): string {
    "FILE " + name + " " + FormatInt(size) + "\n"
  }

  /** The lines of a listing between its header and `END`. */
  function FileLines(entries: seq<(string, int)>): string {
    if entries == [] then []
    else FileLines(entries[..|entries| - 1]) + FileLine(entries[|entries| - 1].0, entries[|entries| - 1].1)
  }

  /** One level of `FileLines`: the last entry's line comes last. */
  lemma FileLinesLast(entries: seq<(string, int)>)
    requires entries != []
    ensures FileLines(entries) ==
      FileLines(entries[..|entries| - 1]) + FileLine(entries[|entries| - 1].0, entries[|entries| - 1].1)
  {
  }

  /** `FileLinesLast` for a listing made of two stretches. */
  lemma FileLinesDropLast(entries: seq<(string, int)>, more: seq<(string, int)>)
    requires more != []
    ensures FileLines(entries + more) ==
      FileLines(entries + more[..|more| - 1]) + FileLine(more[|more| - 1].0, more[|more| - 1].1)
  {
    assert (entries + more)[..|entries + more| - 1] == entries + more[..|more| - 1];
    FileLinesLast(entries + more);
  }

  /** The listing lines of two stretches of entries are the lines of the
      first followed by the lines of the second. */
  lemma {:induction false} FileLinesAppend(entries: seq<(string, int)>, more: seq<(string, int)>)
    ensures FileLines(entries + more) == FileLines(entries) + FileLines(more)
    decreases |more|
  {
    if more == [] {
      assert entries + more == entries;
    } else {
      var front := more[..|more| - 1];
      FileLinesDropLast(entries, more);
      FileLinesLast(more);
      FileLinesAppend(entries, front);
      ConcatAssoc(FileLines(entries), FileLines(front), FileLine(more[|more| - 1].0, more[|more| - 1].1));
    }
  }

  lemma SkipOneSpace(s: string)
    requires s == [] || !IsSpace(s[0])
    ensures SkipSpace(" " + s) == s
  {
    assert (" " + s)[1..] == s;
  }

  lemma {:induction false} CStrOfNulFree(s: seq<char>)
    requires NUL !in s
    ensures CStr(s) == s
  {
    if |s| > 0 {
      assert s[0] in s;
      CStrOfNulFree(s[1..]);
    }
  }

  /** A request holds no NUL and does not end in a line-end character. */
  lemma RequestChars(cmd: Command)
    requires WellFormed(cmd)
    ensures var req := Request(cmd);
      |req| > 0 && NUL !in req && !IsLineEnd(req[|req| - 1])
  {
    match cmd
    case Upload(name, size) =>
      var digits := FormatInt(size);
      assert NUL !in digits by {
        assert forall i :: 0 <= i < |digits| ==> digits[i] != NUL;
      }
      LastOfJoin("UPLOAD " + name + " ", digits);
    case Rename(from, to) =>
      LastOfJoin("RENAME " + from + " ", to);
    case Download(name) =>
      LastOfJoin("DOWNLOAD ", name);
    case Delete(name) =>
      LastOfJoin("DELETE ", name);
    case _ =>
  }

  lemma LastOfJoin(a: string, b: string)
    requires |b| > 0
    ensures (a + b)[|a + b| - 1] == b[|b| - 1]
  {
  }

  /** A line the server receives for a request is the request again. */
  lemma RequestLineSeen(cmd: Command)
    requires WellFormed(cmd)
    ensures LineSeen(Request(cmd) + "\n") == Request(cmd)
  {
    var req := Request(cmd);
    RequestChars(cmd);
    assert NUL !in req + "\n";
    CStrOfNulFree(req + "\n");
    ChompedIsMaximalRun(req + "\n", req);
  }

  /** A line whose first character differs from a keyword's does not
      start with that keyword. */
  lemma NotStartsWith(line: string, keyword: string)
    requires |line| > 0 && |keyword| > 0 && line[0] != keyword[0]
    ensures !StartsWith(line, keyword)
  {
    NotStartsWithAt(line, keyword, 0);
  }

  /** A line that differs from a keyword at some position does not start
      with it. */
  lemma NotStartsWithAt(line: string, keyword: string, i: nat)
    requires i < |line| && i < |keyword| && line[i] != keyword[i]
    ensures !StartsWith(line, keyword)
  {
    if |keyword| <= |line| {
      assert line[..|keyword|][i] == line[i];
    }
  }

  /** A line that starts with one keyword does not start with another
      that differs from it at some position. */
  lemma KeywordsDiffer(line: string, keyword: string, other: string, i: nat)
    requires StartsWith(line, keyword) && i < |keyword| && i < |other| && keyword[i] != other[i]
    ensures !StartsWith(line, other)
  {
    assert line[..|keyword|][i] == line[i];
    NotStartsWithAt(line, other, i);
  }

  lemma ScanSpacedInt(n: int)
    requires LLONG_MIN <= n <= LLONG_MAX
    ensures ScanInt(" " + FormatInt(n)) == Some((n, []))
  {
    var num := FormatInt(n);
    SkipOneSpace(num);
    assert SkipSpace(num) == num;
    ScanFormatInt(n, []);
    assert num + [] == num;
  }

  /** A keyword, a token and a `long long`, each after one space, scan
      back as the token and the number. */
  lemma NameSizeScans(keyword: string, name: string, size: int)
    requires |keyword| > 0 && IsToken(name, NAME_WIDTH) && LLONG_MIN <= size <= LLONG_MAX
    ensures ScanNameSize(keyword + " " + name + " " + FormatInt(size), keyword) == Some((name, size))
  {
    var num := FormatInt(size);
    var line := keyword + " " + name + " " + num;
    assert StartsWith(line, keyword);
    var args := name + (" " + num);
    assert line[|keyword|..] == " " + args;
    SkipOneSpace(args);
    ScanTokenOf(name, " " + num, NAME_WIDTH);
    assert ScanToken(line[|keyword|..], NAME_WIDTH) == Some((name, " " + num));
    ScanSpacedInt(size);
  }

  lemma OneNameRequestScans(keyword: string, spaced: string, name: string)
    requires |keyword| > 0 && spaced == keyword + " " && IsToken(name, NAME_WIDTH)
    ensures ScanOne(spaced + name, keyword) == Some(name)
  {
    var line := spaced + name;
    assert line[|keyword|..] == " " + (name + []);
    SkipOneSpace(name + []);
    ScanTokenOf(name, [], NAME_WIDTH);
  }

  lemma RenameRequestScans(from: string, to: string)
    requires IsToken(from, NAME_WIDTH) && IsToken(to, NAME_WIDTH)
    ensures ScanTwo("RENAME " + from + " " + to, "RENAME") == Some((from, to))
  {
    var line := "RENAME " + from + " " + to;
    assert line[6..] == " " + (from + (" " + to));
    SkipOneSpace(from + (" " + to));
    ScanTokenOf(from, " " + to, NAME_WIDTH);
    SkipOneSpace(to + []);
    ScanTokenOf(to, [], NAME_WIDTH);
    assert " " + to == " " + (to + []);
  }

  lemma ParseUploadRequest(name: string, size: int)
    requires WellFormed(Upload(name, size))
    ensures Parse(Request(Upload(name, size))) == Upload(name, size)
  {
    var line := Request(Upload(name, size));
    NotStartsWith(line, "LIST");
    assert line == "UPLOAD" + " " + name + " " + FormatInt(size);
    NameSizeScans("UPLOAD", name, size);
  }

  /** A line that starts with none of the first three keywords reaches the
      chain's RENAME test. */
  lemma SkipsToRename(line: string)
    requires !StartsWith(line, "LIST") && !StartsWith(line, "UPLOAD") && !StartsWith(line, "DOWNLOAD")
    ensures Parse(line) == ParseFromRename(line)
  {
    assert ScanNameSize(line, "UPLOAD") == None;
    assert ScanOne(line, "DOWNLOAD") == None;
  }

  lemma ParseDownloadRequest(name: string)
    requires IsToken(name, NAME_WIDTH)
    ensures Parse(Request(Download(name))) == Download(name)
  {
    OneNameRequestScans("DOWNLOAD", "DOWNLOAD ", name);
    ParseDownloadLine("DOWNLOAD " + name);
  }

  /** Any line that scans as a DOWNLOAD is read as one. */
  lemma ParseDownloadLine(line: string)
    requires ScanOne(line, "DOWNLOAD").Some?
    ensures Parse(line) == Download(ScanOne(line, "DOWNLOAD").value)
  {
    assert StartsWith(line, "DOWNLOAD");
    KeywordsDiffer(line, "DOWNLOAD", "LIST", 0);
    KeywordsDiffer(line, "DOWNLOAD", "UPLOAD", 0);
    assert ScanNameSize(line, "UPLOAD") == None;
  }

  lemma ParseRenameRequest(from: string, to: string)
    requires IsToken(from, NAME_WIDTH) && IsToken(to, NAME_WIDTH)
    ensures Parse(Request(Rename(from, to))) == Rename(from, to)
  {
    var line := Request(Rename(from, to));
    NotStartsWith(line, "LIST");
    NotStartsWith(line, "UPLOAD");
    NotStartsWith(line, "DOWNLOAD");
    SkipsToRename(line);
    RenameRequestScans(from, to);
  }

  lemma ParseDeleteRequest(name: string)
    requires IsToken(name, NAME_WIDTH)
    ensures Parse(Request(Delete(name))) == Delete(name)
  {
    OneNameRequestScans("DELETE", "DELETE ", name);
    ParseDeleteLine("DELETE " + name);
  }

  /** Any line that scans as a DELETE is read as one. */
  lemma ParseDeleteLine(line: string)
    requires ScanOne(line, "DELETE").Some?
    ensures Parse(line) == Delete(ScanOne(line, "DELETE").value)
  {
    assert StartsWith(line, "DELETE");
    DeleteIsNoOther(line);
    SkipsToRename(line);
    assert ScanTwo(line, "RENAME") == None;
  }

  /** A line that starts with DELETE starts with none of the keywords the
      chain tests before it. */
  lemma DeleteIsNoOther(line: string)
    requires StartsWith(line, "DELETE")
    ensures !StartsWith(line, "LIST") && !StartsWith(line, "UPLOAD")
    ensures !StartsWith(line, "DOWNLOAD") && !StartsWith(line, "RENAME")
  {
    KeywordsDiffer(line, "DELETE", "LIST", 0);
    KeywordsDiffer(line, "DELETE", "UPLOAD", 0);
    KeywordsDiffer(line, "DELETE", "RENAME", 0);
    KeywordsDiffer(line, "DELETE", "DOWNLOAD", 1);
  }

  /** The dispatcher decodes each request line as its command. */
  lemma ParseRequest(cmd: Command)
    requires WellFormed(cmd)
    ensures Parse(Request(cmd)) == cmd
  {
    match cmd
    case List =>
    case Quit => QuitByPrefix(Request(cmd));
    case Upload(name, size) => ParseUploadRequest(name, size);
    case Download(name) => ParseDownloadRequest(name);
    case Rename(from, to) => ParseRenameRequest(from, to);
    case Delete(name) => ParseDeleteRequest(name);
  }

  /** Every request the client can express, sent as a line, is decoded by
      the server's dispatcher as that same command. */
  lemma RequestRoundTrip(cmd: Command)
    requires WellFormed(cmd)
    ensures Parse(LineSeen(Request(cmd) + "\n")) == cmd
  {
    RequestLineSeen(cmd);
    ParseRequest(cmd);
  }

  /** `UPLOAD <name>` without a size is not an upload at all: every test of
      the chain fails and the line is an unknown command. */
  lemma UploadWithoutSizeIsUnknown(name: string)
    requires IsToken(name, NAME_WIDTH)
    ensures Parse("UPLOAD " + name) == Unknown
  {
    var line := "UPLOAD " + name;
    assert StartsWith(line, "UPLOAD");
    assert line[6..] == " " + (name + []);
    SkipOneSpace(name + []);
    ScanTokenOf(name, [], NAME_WIDTH);
    assert ScanToken(line[6..], NAME_WIDTH) == Some((name, []));
    assert ScanInt([]) == None;
    assert ScanNameSize(line, "UPLOAD") == None;
    NotStartsWith(line, "LIST");
    NotStartsWith(line, "DOWNLOAD");
    NotStartsWith(line, "RENAME");
    NotStartsWith(line, "DELETE");
    NotStartsWith(line, "QUIT");
    assert ScanOne(line, "DOWNLOAD") == None && ScanTwo(line, "RENAME") == None;
    assert ScanOne(line, "DELETE") == None;
  }

  /** A negative size still reaches the upload handler: the dispatcher does
      not check the sign, so `UPLOAD <name> -<m>` is an upload of minus `m`
      for every name and every `m` that fits `long long`. */
  lemma NegativeSizeReachesUpload(name: string, m: nat)
    requires IsToken(name, NAME_WIDTH) && 0 < m <= -LLONG_MIN
    ensures Parse("UPLOAD " + name + " -" + NatDigits(m)) == Upload(name, 0 - m)
  {
    var digits := NatDigits(m);
    var head := "UPLOAD " + name;
    assert Request(Upload(name, 0 - m)) == head + " " + ("-" + digits);
    SignedTail(head, digits);
    ParseUploadRequest(name, 0 - m);
  }

  /** The regrouping `h + " " + ("-" + ds) == h + " -" + ds`. */
  lemma SignedTail(h: string, ds: string)
    ensures h + " " + ("-" + ds) == h + " -" + ds
  {
    ConcatAssoc(h + " ", "-", ds);
    ConcatAssoc(h, " ", "-");
  }

  /** Any line that begins with QUIT ends the session, whatever follows. */
  lemma QuitByPrefix(line: string)
    requires StartsWith(line, "QUIT")
    ensures Parse(line) == Quit
  {
    NotStartsWith(line, "LIST");
    NotStartsWith(line, "UPLOAD");
    NotStartsWith(line, "DOWNLOAD");
    NotStartsWith(line, "RENAME");
    NotStartsWith(line, "DELETE");
  }

  /** Any line that begins with LIST lists, whatever follows. */
  lemma ListByPrefix(line: string)
    ensures Parse(line) == List <==> StartsWith(line, "LIST")
  {
  }
}
