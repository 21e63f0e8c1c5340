# mini cloud storage — a Dafny model of the connection engine and its client

The repository is a small network file store: a server exposes LIST, UPLOAD,
DOWNLOAD, RENAME and DELETE on a line protocol over TCP, and an interactive
client sends those commands. There are two servers. `server.c` is the POSIX
one: it uses threads, `fcntl` advisory locks and `sendfile`. `server_windows.c`
is the Win32 one: it uses no locks at all, `FindFirstFile`, `MoveFile` and
`DeleteFile`. The client is `client.c`.

This project models, for each program:

- the framed I/O loops `send_all`, `recv_all` and `recv_line`, over a scripted
  socket;
- `chomp` on a NUL-terminated buffer;
- the path guard `path_join`;
- the advisory locks of the POSIX server, as events in a log;
- each command handler;
- the per-connection `client_thread`: the greeting, then reading, chomping and
  dispatching lines until QUIT, end of stream or an error.

On the client side it models `basename2`, the exchange of each command
(`do_list`, `do_upload`, `do_download`, `do_rename_remote`,
`do_delete_remote`) and the order in which the REPL's `sscanf`/`strncmp`
chain matches a typed line.

## How the model is built

| file | module | what it holds |
|---|---|---|
| `text.dfy` | `Text` | C strings (`CStr`, the bytes before the first NUL), `chomp` as a function and as an in-place method on an array |
| `stream.dfy` | `Stream` | the socket |
| `store.dfy` | `Store` | the storage directory as a `FileStore` class |
| `path_guard.dfy` | `PathGuard` | `path_join` |
| `scan.dfy` | `Scan` | the parts of `sscanf`/`printf` the protocol relies on: `%1023s`, `%lld` with `strtoll` saturation, and decimal formatting |
| `protocol.dfy` | `Protocol` | the dispatcher's decision for a chomped line (`Parse`), and the request lines the client formats (`Request`) |
| `posix_io.dfy`, `win_io.dfy` | `PosixIo`, `WinIo` | the framed I/O loops of the two platforms, which differ: the Win32 loops fail on any `recv` of 0 or SOCKET_ERROR, an interrupted one included |
| `server.dfy`, `server_win.dfy` | `Server`, `WinServer` | the two connection engines |
| `client.dfy` | `Client` | the client |

The socket (`Stream`):

- The receiving side is a script of `recv` events: a run of bytes, an
  interruption (EINTR) or a hard error.
- An exhausted script is an orderly close.
- The sending side is the log of bytes handed to `send_line`/`send_all`.
- `send`'s own partial writes are scripted separately (`Sink`), for the
  `send_all` loops.

The storage directory (`Store`):

- It is a map from entry name to a regular file or a sub-directory.
- It keeps a log of lock events and a script of lock outcomes.
- It tracks the free space left for `write`. Truncating, unlinking or replacing a
  regular file gives that file's space back.
- It is indexed by name rather than by path, because `PathGuard.JoinInjective`
  proves that distinct accepted names give distinct paths.

Every loop of the source outside the client's `main` is a `method` with a
`while` loop and its invariants. The REPL loop in that `main` is modelled by the
function `Client.ParseTyped`, which decides one typed line.
Each handler has two parts:

- a specification function (`UploadSpec`, `DownloadSpec`, ...) from the
  directory and the stream to an `Outcome`: the reply bytes, the new
  directory and the rest of the stream;
- a method over the `Conn` and the `FileStore` whose postcondition says it
  produces exactly that outcome.

The properties are lemmas about the specification functions. `Session` is the
function for `client_thread`. `Serve`, the method, is proved to send
`OK WELCOME` followed by exactly `Session`'s reply.

Where the code and the protocol description of the repository disagree, the
model follows the code:

- **The POSIX LIST header counts too much.** The header counts every entry but
  "." and "..", sub-directories included, while only regular files get a FILE
  line (`Server.ListCountCanExceedFiles`).
- **The Win32 LIST can repeat a stale entry.** It enumerates twice. If the
  second `FindFirstFile` fails, the listing pass reports the stale last entry
  of the first pass (`WinServer.ListStaleSecondPass`).
- **UPLOAD truncates before locking.** It truncates the file at `open`
  (O_TRUNC), before it takes the exclusive lock.
- **An UPLOAD with no size is an unknown command.** It gets
  `ERR unknown command`, not a size error (`Protocol.UploadWithoutSizeIsUnknown`).
- **The Win32 server never locks.** It retries no interrupted `recv` either:
  one interruption aborts an upload (`WinServer.UploadInterruptedFails`).
- **`recv_line` keeps the '\n'.** `chomp` strips it afterwards.

## Model

| member | source | states |
|---|---|---|
| Text.CStr | server.c:119-124 | the C string of a buffer is a prefix of it without NUL, followed by a NUL when shorter than the buffer |
| Text.Chomped | server.c:123-128 | what `chomp` leaves is a prefix not ending in '\n'/'\r', and everything it drops is '\n' or '\r' |
| Text.ChompedIsMaximalRun | server.c:125-127 | any prefix that does not end in a line end and is followed only by line ends is exactly the chomped string (uniqueness) |
| Text.ChompIdempotent | server.c:123-128 | chomping twice is chomping once |
| Text.ChompInPlace | server.c:123-128 | the in-place loop leaves `Chomped(CStr(old))` as the buffer's C string, NULs exactly the dropped line ends, and changes nothing else |
| Text.ChompedBuffer | server.c:125-127 | where the loop stops, the buffer holds the chomped string and is otherwise unchanged |
| Text.StrLen | server.c:124 | `strlen` returns the index of the first NUL, and the bytes before it are the C string |
| Text.CStrAtNul | server.c:110 | a buffer whose first NUL is at `n` holds the string of length `n` |
| Text.CStrOfTerminated | server.c:110 | a buffer holding `b` and then a NUL holds the C string of `b` |
| Stream.RecvStep | server.c:82 | one `recv` of at most `n` bytes returns 1..n bytes taken from the front of the pending bytes, or EINTR leaving them, or an error only when nothing is pending, or 0 exactly on an exhausted script; every outcome but 0 shrinks the script |
| Stream.Conn.constructor | server.c:365 | a connection starts with the given receive script and nothing sent |
| Stream.Conn.RecvInto | server.c:82 | `recv` into `buf + at` is `RecvStep`; the received bytes land at `at`, and the rest of the buffer and the sent bytes are unchanged |
| Stream.Conn.Send | server.c:114-121 | `send_line` appends exactly its bytes to what was sent, and reads nothing |
| Stream.SendStep | server.c:67 | one `send` accepts at most what was offered; an exhausted script accepts everything |
| Stream.Sink.constructor | server.c:63-64 | a sending side starts with the given script and nothing delivered |
| Stream.Sink.SendFrom | server.c:67 | `send(buf + at, n)` is `SendStep`, and the peer receives exactly the accepted bytes from `at` on |
| Store.LeavesNoLockAppend | server.c:139-157 | two stretches of lock events that each release what they lock, run in sequence, release everything |
| Store.Resolve | server.c:178-179 | a plain name resolves to its entry when present, and to nothing when absent |
| Store.Written | server.c:230-231 | `write` of `n` bytes returns 0 for `n = 0`, -1 exactly when no space is left, and otherwise all `n` bytes or as many as fit |
| Store.FileStore.constructor | server.c:361-365 | the store starts in the given state |
| Store.FileStore.Lock | server.c:139-147 | `lock_fd` consumes one lock outcome and logs an acquisition exactly when granted; files and space are unchanged |
| Store.FileStore.Unlock | server.c:149-157 | `unlock_fd` logs a release and changes nothing else |
| Store.FileStore.CreateEmpty | server.c:199 | `open` with O_CREAT and O_TRUNC leaves an empty regular file under the name, gives the old content's space back, and nothing else changes |
| Store.FileStore.Append | server.c:230 | `write` appends exactly the stored prefix of the bytes to that file, pays for it from the free space, and returns `Written` |
| Store.FileStore.Remove | server.c:348 | `unlink` removes exactly that entry and gives a regular file's space back |
| Store.FileStore.Move | server.c:324 | `rename` moves the entry to the new name, replacing what was there and giving the replaced file's space back, and removes the old name |
| PathGuard.HasDotDot | server.c:132 | the left-to-right scan finds ".." exactly when two adjacent dots occur |
| PathGuard.PathJoin | server.c:130-137 | a join succeeds exactly when the name has no "..", '/' or '\' and `dir/name` plus its NUL fits; the path is then `dir`, the separator and the name |
| PathGuard.JoinStaysInRoot | server.c:130-137 | a joined path is the directory, one separator and a single component with no separator and no ".." |
| PathGuard.JoinInjective | server.c:135 | distinct accepted names give distinct paths |
| Scan.NatDigits | server.c:180 | `%lld` of a non-negative value is a non-empty digit string without a leading zero that reads back as the value |
| Scan.FormatInt | server.c:180 | `%lld` of any value is a sign or digit followed by digits |
| Scan.SkipSpace | server.c:386 | the skipped prefix is white space, and what is left starts with none |
| Scan.DigitRun | server.c:386 | the longest prefix made of digits |
| Scan.TokenRun | server.c:386 | the longest prefix of at most `width` non-space characters |
| Scan.Clamp | server.c:386 | the value `strtoll` yields lies in the range of `long long`, and a value inside that range is kept |
| Scan.ClampMonotone | server.c:386 | saturation keeps the order of values |
| Scan.ClampSaturates | server.c:386 | a value above the range reads as LLONG_MAX, and one below it as LLONG_MIN |
| Scan.ScanFormatInt | client.c:114 | `%lld` reads back what `%lld` printed, for every `long long`, followed by any non-digit |
| Scan.ScanNegative | client.c:114 | a minus sign and the digits of `m` read back as `-m` |
| Scan.ScanTokenOf | server.c:386 | `%<width>s` reads back a token followed by white space or the end |
| Scan.FormatIntWidth | server.c:180 | a `long long` prints in at most 20 characters |
| Scan.ScannedToken | server.c:386 | what `%<width>s` stores from a NUL-free string is a token, and the unread input is NUL-free |
| Protocol.ScanOneFits | server.c:389 | `%1023s` never yields more than 1023 characters |
| Protocol.ScanTwoFits | server.c:392 | both names of a RENAME scan are at most 1023 characters |
| Protocol.ScanNameSizeFits | server.c:386 | the UPLOAD name is at most 1023 characters |
| Protocol.FileLinesAppend | server.c:174-182 | the FILE lines of two stretches of entries are those of the first followed by those of the second |
| Protocol.RequestChars | client.c:136 | a request line the client formats is non-empty, NUL-free and does not end in a line end |
| Protocol.RequestLineSeen | server.c:371-373 | a request line received and chomped by the server is the request again |
| Protocol.KeywordsDiffer | server.c:383-398 | a line starting with one keyword does not start with another that differs from it at some position |
| Protocol.NameSizeScans | server.c:386 | a keyword, a token and a `long long`, each after a space, scan back as the token and the number |
| Protocol.OneNameRequestScans | server.c:389 | a keyword and a token scan back as the token |
| Protocol.RenameRequestScans | server.c:392 | `RENAME a b` scans back as `(a, b)` |
| Protocol.ParseUploadRequest | server.c:386-387 | the UPLOAD request line is dispatched as that upload |
| Protocol.SkipsToRename | server.c:383-391 | a line starting with none of LIST, UPLOAD and DOWNLOAD reaches the RENAME test |
| Protocol.ParseDownloadRequest | server.c:389-390 | the DOWNLOAD request line is dispatched as that download |
| Protocol.ParseDownloadLine | server.c:389-390 | any line that scans as a DOWNLOAD is dispatched as one |
| Protocol.ParseRenameRequest | server.c:392-393 | the RENAME request line is dispatched as that rename |
| Protocol.ParseDeleteRequest | server.c:395-396 | the DELETE request line is dispatched as that delete |
| Protocol.ParseDeleteLine | server.c:395-396 | any line that scans as a DELETE is dispatched as one |
| Protocol.DeleteIsNoOther | server.c:383-395 | a DELETE line starts with none of the keywords tested before it |
| Protocol.ParseRequest | server.c:383-404 | every well-formed command's request line is dispatched as that same command |
| Protocol.RequestRoundTrip | server.c:371-404 | every request the client can express, sent with its '\n', then received, chomped and dispatched, is that same command |
| Protocol.UploadWithoutSizeIsUnknown | server.c:386-404 | `UPLOAD <name>` with no size fails every test and is an unknown command |
| Protocol.NegativeSizeReachesUpload | server.c:386-387 | for every name and every negative size that fits `long long`, `UPLOAD <name> -<digits>` is dispatched as that upload: the dispatcher does not check the sign |
| Protocol.QuitByPrefix | server.c:398-401 | any line that starts with QUIT quits, whatever follows |
| Protocol.ListByPrefix | server.c:383-384 | a line lists exactly when it starts with LIST |
| PosixIo.RecvAll | server.c:78-91 | the loop returns `RecvAllFrom`'s result, stores exactly its bytes at the front of the buffer, and leaves the rest of the buffer alone |
| PosixIo.RecvLine | server.c:94-112 | the loop returns `RecvLineFrom`'s result, stores its bytes, NUL-terminates them on success, and leaves the rest of the buffer alone |
| PosixIo.SendAll | server.c:63-76 | the loop returns `SendAllFrom`'s result, and on success the peer has exactly the first `r` bytes of the buffer |
| PosixIo.RecvAllOutcome | server.c:78-91 | `recv_all` returns -1 or the count it stored (at most `len`); the stored bytes are exactly those taken from the stream; a short count means the peer closed |
| PosixIo.RecvAllCounts | server.c:88-90 | the return value is -1 or the number of bytes stored |
| PosixIo.RecvAllDeliversPrefix | server.c:78-91 | a full `recv_all` delivers exactly the next `len` pending bytes |
| PosixIo.RecvLineOutcome | server.c:94-112 | `recv_line` stores fewer than `cap` bytes with a '\n' only last, takes exactly them from the stream, and stops at '\n', at the cap or at a close |
| PosixIo.RecvLineShape | server.c:96-110 | the stored bytes extend what was stored, stay below the cap, and hold a '\n' only last |
| PosixIo.RecvLineTakes | server.c:98-107 | a successful `recv_line` stored exactly the bytes it took |
| PosixIo.RecvLineStops | server.c:103-108 | a successful `recv_line` stopped at '\n', at the cap or at end of stream |
| PosixIo.RecvLineZero | server.c:103-104 | `recv_line` returns 0 exactly when the peer closes before sending a byte |
| PosixIo.SendAllOutcome | server.c:63-76 | `send_all` returns -1, `len`, or a shorter count only when `send` accepted nothing |
| PosixIo.RecvAllShrinks | server.c:81-89 | `recv_all` never adds to the stream |
| PosixIo.RecvLineShrinks | server.c:96-109 | a `recv_line` that stored a byte consumed part of the stream |
| PosixIo.RecvAllFull | server.c:81-89 | with `len` bytes pending before any hard error, `recv_all` gets all of them |
| PosixIo.RecvLineReads | server.c:94-112 | a whole pending line within the cap is read exactly, and what follows stays pending |
| WinIo.WinRecvAll | server_windows.c:45-55 | the loop returns `WinRecvAllFrom`'s result and stores exactly its bytes |
| WinIo.WinRecvLine | server_windows.c:57-70 | the loop returns `WinRecvLineFrom`'s result, stores its bytes, and NUL-terminates them on success |
| WinIo.WinSendAll | server_windows.c:33-43 | on success the peer has exactly the whole buffer |
| WinIo.WinRecvAllOutcome | server_windows.c:45-55 | `recv_all` returns exactly `len` with the next `len` bytes, or SOCKET_ERROR; there is no short count |
| WinIo.WinRecvAllCounts | server_windows.c:47-54 | a successful `recv_all` stored exactly `len` bytes |
| WinIo.WinRecvAllCloseIsError | server_windows.c:49-51 | a clean close before `len` bytes makes `recv_all` fail |
| WinIo.WinRecvLineOutcome | server_windows.c:57-70 | `recv_line` succeeds with 1 to `maxlen - 1` bytes ending at the first '\n' or at the cap, taken exactly from the stream |
| WinIo.WinRecvLineShape | server_windows.c:59-68 | the stored bytes extend what was stored, stay below `maxlen`, and hold a '\n' only last |
| WinIo.WinRecvLineTakes | server_windows.c:60-66 | a successful `recv_line` stored exactly the bytes it took |
| WinIo.WinRecvLineStops | server_windows.c:59-69 | a successful `recv_line` stopped at '\n' or at the cap, with at least one byte |
| WinIo.WinRecvLineEofIsError | server_windows.c:62-64 | end of stream in the middle of a line is an error, even after bytes were stored |
| WinIo.WinSendAllOutcome | server_windows.c:33-43 | `send_all` returns `len` or SOCKET_ERROR |
| WinIo.ZeroSendsSpin | server_windows.c:33-43 | after any number of `send` calls that return 0, `send_all` is exactly where it started: it has no exit for them |
| WinIo.WinSendAllGuardedFrom | server_windows.c:33-43 | with an exit on a zero return, the result is SOCKET_ERROR or a count between what was sent and `len`, and the script only shrinks |
| WinIo.GuardedZeroSendStops | server_windows.c:33-43 | with that exit, a `send` that returns 0 ends the call at once with the count so far |
| WinIo.GuardedSendAllOutcome | server_windows.c:33-43 | with that exit, the call returns `len`, SOCKET_ERROR, or a short count only when some `send` returned 0 |
| WinIo.WinRecvAllShrinks | server_windows.c:47-53 | `recv_all` never adds to the stream |
| WinIo.WinRecvLineShrinks | server_windows.c:59-67 | a `recv_line` that stored a byte consumed part of the stream |
| WinIo.WinRecvAllFull | server_windows.c:47-54 | with `len` bytes pending and no interruption, `recv_all` gets them all |
| Server.ListCountBound | server.c:166-182 | the header count is at least the number of FILE lines |
| Server.ListedAreFiles | server.c:174-182 | every FILE line names a regular file of the listing, with its size |
| Server.ListCountExact | server.c:166-182 | when every entry but "." and ".." is a joinable regular file, the count equals the number of FILE lines |
| Server.ListCountCanExceedFiles | server.c:166-182 | a sub-directory is counted in the header but gets no FILE line |
| Server.UploadLoopStep | server.c:221-237 | one turn of the transfer loop: a failed or empty `recv_all` ends it, a short `write` ends it with what was written, and a whole chunk moves it on |
| Server.UploadLoopBounds | server.c:220-238 | the transfer only appends, at most `size` bytes, pays for each out of the free space, and never adds to the stream |
| Server.UploadLoopSaves | server.c:220-238 | the transfer saves exactly when the next `size` bytes arrive before any hard error and fit; the file then holds exactly them and the stream resumes after them |
| Server.UploadLoopSavedOnly | server.c:220-238 | a transfer that saves received the next `size` bytes, had room for them and appended exactly them |
| Server.UploadLoopSavedWhen | server.c:220-238 | when the next `size` bytes arrive and fit, the transfer saves |
| Server.UploadChecksFirst | server.c:189-197 | a negative size or a refused name gets its error line, with nothing read and nothing changed |
| Server.UploadProtocol | server.c:188-245 | `OK` precedes any payload read, the exclusive lock is released whenever it was taken, and the stream never grows |
| Server.UploadSaves | server.c:188-245 | `OK SAVED` is sent exactly when the size is non-negative, the name is accepted and is no directory, the lock is granted, and the bytes arrive and fit in the free space plus the space of the file that O_TRUNC emptied; the file then holds exactly the next `size` bytes and the free space shrinks by `size` from there |
| Server.UploadStatusDistinct | server.c:227-243 | the status line tells a saved transfer from a failed one |
| Server.DownloadSendsFile | server.c:247-304 | a download reads nothing and changes no file; it sends `OK <size>` and exactly the file's bytes precisely when the name is accepted, is a regular file and the shared lock is granted, and one of four error lines otherwise; the lock is released whenever taken |
| Server.RenameMovesContent | server.c:306-333 | both names are checked first; a rename succeeds exactly when the source is a regular file, the lock is granted and the target is no directory; the content then moves, the old name goes, the space of a replaced file is given back, and nothing else changes; a failure changes no file and no space |
| Server.DeleteIgnoresLock | server.c:335-359 | a delete succeeds exactly when the name is accepted and is a regular file, whatever the lock said; the entry is then gone and its space given back, a failure changes nothing, and every lock taken is released |
| Server.StepShrinks | server.c:383-404 | no command adds to the stream |
| Server.PairLeavesNoLock | server.c:139-157 | a lock followed by its unlock leaves no lock held |
| Server.StepInvariant | server.c:383-404 | every command keeps the store to plain names, only appends to the lock log, and releases every lock it takes |
| Server.SessionReleasesLocks | server.c:361-409 | over a whole session the store keeps to plain names and no lock is held at the end |
| Server.SessionFirstLine | server.c:370-404 | a blank line is skipped silently, an unknown command gets `ERR unknown command` and the session goes on, QUIT gets `OK BYE` and ends it, and a failed `recv_line` ends it silently |
| Server.SessionQuietLine | server.c:371-374 | a blank line is skipped, and a `recv_line` of 0 or -1 ends the session |
| Server.SessionFixedReply | server.c:398-404 | an unknown command's reply and QUIT's reply |
| Server.SessionUnfold | server.c:370-405 | one turn of the session: the handler's reply followed by the rest of the session, which stops after QUIT |
| Server.HandleList | server.c:159-186 | `handle_list` sends exactly `ListReply` for what `readdir` yields, and reads nothing |
| Server.CountNames | server.c:166-170 | the counting pass counts every entry but "." and ".." |
| Server.ListFiles | server.c:174-182 | the listing pass sends exactly the FILE lines of `Listed` |
| Server.ListedLines | server.c:174-182 | the FILE lines of one more entry follow those of the entries before it |
| Server.ListOne | server.c:175-181 | one entry gets a FILE line exactly when it is a joinable regular file |
| Server.HandleUpload | server.c:188-245 | `handle_upload` sends exactly `UploadSpec`'s reply and leaves exactly its store and stream |
| Server.ReceiveFile | server.c:220-238 | the transfer loop ends as `UploadLoop` says: the file holds its bytes, and space, stream and status agree |
| Server.StoreChunk | server.c:222-237 | one turn of the loop either ends it with the loop's result or writes a whole chunk and leaves the rest of the loop still due |
| Server.HandleDownload | server.c:247-304 | `handle_download` sends exactly `DownloadSpec`'s reply and leaves its store |
| Server.SendBody | server.c:278-299 | the body goes out as exactly the file's bytes, in chunks |
| Server.HandleRename | server.c:306-333 | `handle_rename` sends exactly `RenameSpec`'s reply and leaves its store |
| Server.HandleDelete | server.c:335-359 | `handle_delete` sends exactly `DeleteSpec`'s reply and leaves its store |
| Server.Dispatch | server.c:383-404 | the dispatch chain runs exactly `Step` for the command, and the session goes on exactly when the command is not QUIT |
| Server.ReadLine | server.c:371-374 | the line read and chomped is `LineSeen` of the bytes `recv_line` stored, and it is blank exactly when `line[0]` is NUL |
| Server.ServeLine | server.c:370-405 | one loop turn either ends the session with `Session`'s outcome, or shrinks the stream so that the session from the new state completes the old one |
| Server.Serve | server.c:361-409 | `client_thread` sends `OK WELCOME` and then exactly `Session`'s reply, leaving its store and stream |
| WinServer.ListCountMatches | server_windows.c:107-131 | over one enumeration, the count is the number of FILE lines |
| WinServer.ListHeaderIsExact | server_windows.c:107-134 | when both passes see the same directory, the header announces exactly as many FILE lines as follow |
| WinServer.ListStaleSecondPass | server_windows.c:120-131 | a failed second `FindFirstFile` makes the listing announce two files and list one |
| WinServer.ListedAreFiles | server_windows.c:122-131 | over a truthful enumeration, every FILE line names a regular file with its size |
| WinServer.ListsEveryFile | server_windows.c:122-131 | over a truthful enumeration, every regular file gets its FILE line |
| WinServer.UploadLoopStep | server_windows.c:168-186 | one turn: `recv_all` yields the whole chunk or fails, a failed or short `WriteFile` ends the loop, and a whole chunk moves it on |
| WinServer.UploadLoopUnfold | server_windows.c:168-186 | the loop's definition, one turn unfolded |
| WinServer.UploadLoopBounds | server_windows.c:167-187 | the transfer only appends, at most `size` bytes, pays for each, and never adds to the stream |
| WinServer.UploadLoopGrows | server_windows.c:167-187 | the transfer appends at most `size` bytes, each paid for |
| WinServer.UploadLoopShrinks | server_windows.c:167-187 | the transfer never adds to the stream |
| WinServer.UploadLoopSavedOnly | server_windows.c:167-187 | a transfer that saves received the next `size` bytes, had room for them and appended exactly them |
| WinServer.UploadLoopSavedWhen | server_windows.c:167-187 | when the next `size` bytes arrive without an interruption and fit, the transfer saves |
| WinServer.UploadChecksFirst | server_windows.c:139-148 | a negative size or a refused name gets its error line, with nothing read and nothing changed |
| WinServer.UploadProtocol | server_windows.c:138-193 | `OK` precedes any payload read, no lock is taken, and the stream never grows |
| WinServer.UploadSaved | server_windows.c:138-193 | `OK SAVED` means the checks passed and the next `size` bytes arrived and fit in the free space plus the space of the truncated file, and the file holds exactly them |
| WinServer.UploadSavesWhen | server_windows.c:138-193 | with the checks passing and the bytes arriving uninterrupted and fitting, the upload is saved |
| WinServer.UploadInterruptedFails | server_windows.c:170-175 | one interrupted `recv` before the payload aborts the upload with `ERR recv data failed` |
| WinServer.UploadLoopInterrupted | server_windows.c:168-176 | the loop fails on an interrupted first `recv` |
| WinServer.DownloadSendsFile | server_windows.c:195-244 | a download reads and changes nothing; it sends `OK <size>` and exactly the file's bytes precisely when the name is accepted and is a regular file, and `ERR bad filename` or `ERR not found` otherwise |
| WinServer.RenameMovesContent | server_windows.c:246-261 | a rename succeeds exactly when both names are accepted, the source exists and the target does not; the entry then moves and nothing else changes, so nothing is ever replaced |
| WinServer.DeleteRemovesFile | server_windows.c:263-277 | a delete succeeds exactly when the name is accepted and is a regular file; the entry is then gone and its space given back, and a failure changes nothing |
| WinServer.JoinedIsPlain | server_windows.c:88-94 | an accepted name that is not the directory itself is a plain entry name |
| WinServer.StepInvariant | server_windows.c:298-319 | every command keeps the store to plain names, never adds to the stream, and touches no lock |
| WinServer.SessionTakesNoLock | server_windows.c:279-325 | over a whole session the store keeps to plain names, and the lock log and lock outcomes are unchanged |
| WinServer.SessionFirstLine | server_windows.c:286-319 | a blank line is skipped, an unknown command gets `ERR unknown command`, QUIT gets `OK BYE` and ends the session, and a failed `recv_line` ends it silently |
| WinServer.SessionQuietLine | server_windows.c:287-290 | a blank line is skipped, and a failed `recv_line` ends the session |
| WinServer.SessionFixedReply | server_windows.c:313-318 | an unknown command's reply and QUIT's reply |
| WinServer.SessionUnfold | server_windows.c:286-320 | one turn of the session: the handler's reply followed by the rest of the session, which stops after QUIT |
| WinServer.StepShrinks | server_windows.c:298-319 | no command adds to the stream |
| WinServer.ArgumentOverflowsBuffer | server_windows.c:292-305 | a DOWNLOAD line with a 300-character name is dispatched with a name that does not fit the 260-byte `a1` |
| WinServer.ParsedNamesFit | server_windows.c:292-310 | with 1024-byte argument buffers, every name the dispatcher can produce fits with its NUL |
| WinServer.HandleList | server_windows.c:96-136 | `handle_list` sends exactly `ListReply` for the two enumerations |
| WinServer.CountPass | server_windows.c:107-115 | the counting loop counts the entries that are neither "."/".." nor directories |
| WinServer.ListPass | server_windows.c:121-131 | the listing loop sends exactly the FILE lines of the counted entries |
| WinServer.ListOne | server_windows.c:123-130 | one entry gets a FILE line exactly when it is counted |
| WinServer.HandleUpload | server_windows.c:138-193 | `handle_upload` sends exactly `UploadSpec`'s reply and leaves its store and stream |
| WinServer.ReceiveFile | server_windows.c:167-187 | the transfer loop ends as `UploadLoop` says |
| WinServer.StoreChunk | server_windows.c:168-186 | one turn either ends the loop with its result or writes a whole chunk and leaves the rest of the loop due |
| WinServer.HandleDownload | server_windows.c:195-244 | `handle_download` sends exactly `DownloadSpec`'s reply |
| WinServer.SendBody | server_windows.c:225-239 | the `ReadFile` loop sends exactly the file's bytes |
| WinServer.HandleRename | server_windows.c:246-261 | `handle_rename` sends exactly `RenameSpec`'s reply and leaves its store |
| WinServer.HandleDelete | server_windows.c:263-277 | `handle_delete` sends exactly `DeleteSpec`'s reply and leaves its store |
| WinServer.Dispatch | server_windows.c:298-319 | the chain runs exactly `Step` for the command, and goes on exactly when it is not QUIT |
| WinServer.ReadLine | server_windows.c:287-290 | the line read and chomped is `LineSeen` of the stored bytes, and it is blank exactly when `line[0]` is NUL |
| WinServer.ServeLine | server_windows.c:286-320 | one loop turn either ends the session with `Session`'s outcome, or shrinks the stream so that the session from the new state completes the old one |
| WinServer.Serve | server_windows.c:279-325 | `client_thread` sends `OK WELCOME` and then exactly `Session`'s reply |
| Client.Basename | client.c:90-97 | the base name is a suffix of the path without separators, preceded by a separator when shorter than the path |
| Client.BasenameAfter | client.c:90-97 | what follows a separator that has no separator after it is the base name |
| Client.BasenameOfJoin | client.c:125 | the base name of a path the server joins for a name is that name, on both builds |
| Client.BasenameWhole | client.c:96 | a path without a separator is its own base name |
| Client.BasenameIdempotent | client.c:90-97 | taking the base name twice changes nothing |
| Client.ReadReply | client.c:139-140 | reading a reply never adds to the stream, and a line that arrived consumed part of it |
| Client.ReplyOf | client.c:139-140 | a pending reply line is read whole, without its '\n', and what follows stays pending |
| Client.ReplyLineOf | client.c:213-214 | a pending reply line as the server sends it is read without its '\n' |
| Client.FormattedIntReadable | client.c:114 | a printed `long long` is short, NUL-free and has no line end or leading space |
| Client.HeaderTextReads | client.c:102-106 | an `OK <n>` header reads back whole, starts with "OK " and scans back as `n` |
| Client.FileTextReads | client.c:112-115 | a FILE line of a listable entry reads back, is not END, and scans back as that entry |
| Client.FileLineReads | client.c:109-116 | the first FILE line of a listing is read and shown as its entry |
| Client.ListLoopReads | client.c:108-120 | the loop reads the FILE lines and the END line, shows every entry, returns 0 and leaves what follows |
| Client.EndLineReads | client.c:111 | the END line reads back |
| Client.ListReadsListing | client.c:99-122 | a listing as the server sends it, with any count, returns 0, shows exactly its entries in order, and leaves what follows |
| Client.ListRefused | client.c:104 | a first line that is not `OK ...` fails the call before anything is shown |
| Client.ListShowsServerListing | client.c:99-122 | against the POSIX LIST reply, the call succeeds exactly when the server opened its directory, and then shows the server's files in its order |
| Client.DoList | client.c:99-122 | `do_list` sends `LIST` and ends exactly as `ListCall` |
| Client.UploadSendsAfterOk | client.c:124-170 | nothing is sent for a path that is not a regular file; the file's bytes follow the request only after an exact `OK`; the call returns 0 exactly when the whole file of the announced size went and the answer starts with `OK` |
| Client.UploadCompletes | client.c:124-170 | against a server that accepts and saves, the call returns 0 and sends the request and the file |
| Client.UploadMismatchFails | client.c:157-160 | a file that read back at a different size fails the call |
| Client.DoUpload | client.c:124-170 | `do_upload` sends and returns exactly what `UploadCall` says |
| Client.SendPieces | client.c:147-153 | the loop sends exactly the file's bytes and counts them |
| Client.DownloadLoopTakes | client.c:188-202 | the loop writes a prefix of the pending bytes; a completed loop wrote exactly the announced number and left the rest |
| Client.DownloadLoopStep | client.c:189-201 | one round of the download loop |
| Client.DownloadLoopCompletes | client.c:188-202 | the loop completes exactly when the announced number of bytes is pending before any hard error |
| Client.DownloadReadsFile | client.c:172-208 | a download reply as the server sends it is saved whole under the chosen name, and the call returns 0 |
| Client.DownloadShortFails | client.c:188-202 | a stream that ends or breaks early fails the call, and the local file keeps a prefix of what arrived |
| Client.DownloadRefused | client.c:177 | a first line that is not `OK ...` fails the call and creates no local file |
| Client.DownloadMatchesServer | client.c:172-208 | against the POSIX DOWNLOAD reply, the call succeeds exactly when the server sends the file, and the local copy then equals the stored file |
| Client.DoDownload | client.c:172-208 | `do_download` sends `DOWNLOAD <name>` and ends exactly as `DownloadCall` |
| Client.ReceiveDownload | client.c:188-202 | the loop over the buffer ends exactly as `DownloadLoop` |
| Client.VerdictOf | client.c:213-217 | the verdict is 0 exactly when the reply line starts with `OK` |
| Client.RenameMatchesServer | client.c:210-218 | against the POSIX RENAME reply, the call reports success exactly when the server renamed |
| Client.DeleteMatchesServer | client.c:220-228 | against the POSIX DELETE reply, the call reports success exactly when the server deleted |
| Client.AwaitReply | client.c:213-214 | receive and chomp one line, exactly as `ReadReply` |
| Client.AwaitVerdict | client.c:213-217 | receive and judge one answer, exactly as `Verdict` |
| Client.DoRename | client.c:210-218 | `do_rename_remote` sends `RENAME a b` and returns the verdict |
| Client.DoDelete | client.c:220-228 | `do_delete_remote` sends `DELETE name` and returns the verdict |
| Client.DoQuit | client.c:292-296 | `quit` sends `QUIT` and takes one line of answer |
| Client.TypedSkipsToRename | client.c:271-285 | a line starting with none of list, upload and download reaches the rename test |
| Client.FirstArg | client.c:274 | a typed line starts with its keyword, and its first argument scans whole |
| Client.SecondArg | client.c:274 | the second argument scans whole when typed; otherwise there is none |
| Client.TypedScans | client.c:274-289 | a keyword's formats scan the first argument always, and the second exactly when it was typed |
| Client.TypedUpload | client.c:274-279 | `upload <local> [remote]` is an upload, with the remote name exactly when it was typed |
| Client.TypedDownload | client.c:280-285 | `download <remote> [save_as]` is a download, with the local name exactly when it was typed |
| Client.TypedRename | client.c:286-288 | `rename <old> <new>` is read as typed |
| Client.TypedDelete | client.c:289-291 | `delete <name>` is read as typed |
| Client.TypedDeleteLine | client.c:289-291 | any line that starts with delete and scans one name deletes it |
| Client.DeleteIsNoOther | client.c:271-289 | a delete line starts with none of the keywords tested before it |
| Client.TypedByPrefix | client.c:271-296 | any line starting with quit ends the REPL, and a line lists exactly when it starts with list |
| Client.ScannedNames | client.c:274-290 | the names scanned from a C string are whole tokens |
| Client.ScannedTokens | client.c:274 | the one or two tokens scanned from a C string are tokens |
| Client.BasenameOfToken | client.c:125 | the non-empty base name of a token is a token |
| Client.TypedRequestsDecode | client.c:280-290 | what the REPL sends for a typed rename, delete or download, the server dispatches as the same command |
| Client.TypedUploadDecodes | client.c:274-279 | a typed upload's request is dispatched as an upload of its remote name with the announced size |

## Left out

- Sockets, `accept`, `bind`, `listen`, `main` and the signal handler are left out. A connection is a receive script and a send log.
- Threads are left out. So is the blocking of `F_SETLKW`: a lock request is granted or refused from a script, and the per-connection engines run one connection at a time. Mutual exclusion between concurrent connections is therefore not modelled.
- `printf`, `fprintf` and `perror` output on the client is not modelled, except for the list entries it shows. `Client.DoList` returns the lines shown instead of printing them.
- The listing count the client scans from the header is only printed, so it is not modelled as an output.
- The handlers treat `send_line` as delivering its bytes. The partial-send and failure behaviour of `send` is modelled once, by `PosixIo.SendAll` and `WinIo.WinSendAll`, and is not threaded through the handlers. The servers never check `send_line`'s result.
- The client's checks on its own sends are left out: `do_list`, `do_upload`, `do_download`, `do_rename_remote` and `do_delete_remote` return -1 when `send_line` fails (client.c:100, 136, 173, 211, 221), and `do_upload` when `send_all` sends short (client.c:148-151). The client's connection always delivers, so `Client.DoList`, `Client.DoUpload`, `Client.DoDownload`, `Client.DoRename` and `Client.DoDelete` never fail on a send, and `Client.UploadSendsAfterOk`'s "returns 0 exactly when" holds over such a connection.
- `vsnprintf` truncation at MAX_LINE inside `send_line` is not modelled. A FILE line longer than 4095 bytes would be cut short by the source; the model sends it whole.
- `fsync` and `close`/`CloseHandle` are left out. Their effects are not observable in the protocol.
- Failures of local `open`, `stat`, `fstat` and `malloc` are left out (a failed `opendir` is modelled: `DirReader` yields `None` and the reply is `ERR cannot open storage`). On the client these are the local file and buffer; on the servers they are `ERR server oom`, `ERR cannot open file for write` and `ERR stat failed`. The exception is the failures the model derives from the store: a missing name, a directory, a lock refusal, and no space left.
- `sendfile` and the read/send fallback of `handle_download` have the same effect and are both modelled by `Server.SendBody`. A mid-transfer send failure is not modelled.
- `readdir` and `FindFirstFile`/`FindNextFile` order is a parameter (`DirReader`, `Finder`). Both passes see the same directory; a change made by another connection between them falls under the threads left out above.
- Case-insensitive names and sharing modes of the Win32 file system are left out.
- `WinServer.UploadSavesWhen`: requires that the stream holds no interrupted `recv`. This is weaker than an if-and-only-if because one interruption aborts the Win32 upload (`WinServer.UploadInterruptedFails`).
- `Client.TypedUploadDecodes`: requires the remote name to be non-empty. A local path ending in a separator has an empty base name, and the request `UPLOAD  <size>` is then not dispatched as that upload.
- `client_windows (1).c` is not part of this model.

## Findings

| source | as written | input that shows it | evidently intended | confidence | as-written member | corrected member |
|---|---|---|---|---|---|---|
| server_windows.c:292-310 | `a1` and `a2` are `char[MAX_PATH]` (260 bytes), but the chain scans into them with `%1023s` | `DOWNLOAD ` followed by 300 letters: `sscanf` stores 301 bytes into a 260-byte array | argument buffers of 1024 bytes, as the width 1023 implies and as the POSIX server has them (server.c:41 defines its own MAX_PATH as 1024) | not executed | WinServer.ArgumentOverflowsBuffer | WinServer.ParsedNamesFit |
| server_windows.c:33-43 | `send_all` adds `sent` to `total` and loops with no exit when `send` returns 0 | a `send` that keeps returning 0 for a non-empty buffer: the loop offers the same bytes again and again | stop on a zero return with the count so far, as the POSIX `send_all` does | low, not executed (a blocking Winsock `send` is not expected to return 0 for a non-empty buffer) | WinIo.ZeroSendsSpin | WinIo.WinSendAllGuardedFrom |
