# varnishlog-buffer, modelled in Dafny

varnishlog-buffer is a small daemon. It starts `varnishlog -cOu` as a child
process and reads the child's log lines from a pipe. A high-priority reader
thread pushes each line onto a shared list. A sender thread takes the whole
list, reverses it into arrival order, prints every line on standard output
and frees the records. The daemon comes in two variants:

- `src/main.c`;
- `varnishlog-buffer/src/main.c`, which flushes after each line and wraps lines in `strings.c`'s `String` record.

`src/main.c` has its own `String` record, with no `should_free` flag, freed by `free_string` (src/main.c:33-36, 80-83): the bytes, then the record. The model uses `strings.c`'s record for both variants, always owning its bytes, which frees the same two blocks in the same order.

Errors travel as GLib `GError`s. They can be written to and read from a
GIOChannel side channel (`src/errors.c`), and a fatal one ends the process
through `g_die` (`src/die.c`). A Ruby script, `varnishlog-parser.rb`, reads
varnishlog's output and groups the lines into sessions. For each session it
keeps the headers, the request fields, the client address and the raw
lines, and prints the session once its `SessionClose` entry arrives.

The model has one module per concern:

| module | file | what it models |
|---|---|---|
| `Wrappers` | wrappers.dfy | the `Option` type |
| `CStrings` | cstrings.dfy | bytes, C strings and what `%s` reads from a buffer |
| `Decimal` | decimal.dfy | `%d` numerals and Ruby's `to_i` on digits |
| `GErrors` | gerrors.dfy | the two error domains, the daemon's codes, `set_error_eof`, `set_error_unspec`, `set_gerror_getline` |
| `SideChannel` | sidechannel.dfy | `write_gerror` as a method on an output channel and `read_gerror` as a method on an input channel, each tied to a wire-format function |
| `Varnishlog` | varnishlog.dfy | `read_varnishlog_entry` on an array buffer, and `shutdown_varnishlog` as a method of the handle class |
| `Strings` | strings.dfy | the `String` record and `string_free`, with the allocator as a trace of released blocks |
| `Sender` | sender.dfy | the shared list (`SenderControl`): prepend, take-and-reverse, print, free, and the error-path discard. A ghost invariant states FIFO order |
| `Reader` | reader.dfy | `main`'s read loop with its stop / retry-on-EINTR / fatal decision |
| `ExitStatus` | exitstatus.dfy | the status `main` returns once the child is reaped |
| `Die` | die.dfy | `diefv`, `die` and `g_die` over a small `printf` interpreter |
| `Scan` | scan.dfy | the greedy regular-expression items the Ruby patterns are built from |
| `LogLine` | logline.dfy | the line tokeniser `^\s*(\d+)\s+([^\s]+)\s+c\s+(.+)$` |
| `Payloads` | payloads.dfy | the `RxHeader` and `SessionOpen` payload patterns |
| `Sessions` | sessions.dfy | `Session` (a class), its tag handlers, and the `$sessions` / `$finished_sessions` tracker (a class) |

The outcomes of system calls and library calls are parameters of the
operations that make them: `getline`, `kill`, `fclose`, `waitpid`, the
channel's write statuses and counts, its read statuses (AGAIN or ERROR in
place of the bytes), and the `shutdown` flag set by signal handlers. Regular expressions are written as scanners that make the choices
Ruby's backtracking matcher makes. Each is proved sound (what it returns
spells the input and has the pattern's shape) and complete (every text of
that shape is recognised with the greedy choice).

## Model

| member | source | states |
|---|---|---|
| CStrings.UpToNulPrefix | src/main.c:77 | `%s` prints the bytes of the buffer before its first NUL; the whole buffer when it holds none |
| CStrings.UpToNulTerminated | src/main.c:77 | a C string stored with its terminator is printed back exactly |
| Decimal.Digits | src/die.c:37 | the numeral of a number has at least one digit and no leading zero |
| Decimal.ValueOfDigits | varnishlog-parser/varnishlog-parser.rb:76 | reading back a written numeral with `to_i` gives the number |
| Decimal.Render | src/die.c:37 | `%d` writes a minus sign for negative numbers, then the digits of the absolute value, which read back as that value |
| GErrors.ErrnoError | src/glib_extra.c:9-18 | an errno error has the errno domain (taken to be "errno"), the saved errno as its code and the errno's description as its message |
| GErrors.PrematureEof | src/errors.c:22-29 | the end-of-file error has the daemon's domain, code EOF and message "Premature end of file" |
| GErrors.Unspecified | src/errors.c:31-38 | the unspecified error has the daemon's domain, code UNSPEC and message "Unspecified error" |
| GErrors.GetlineError | src/errors.c:109-117 | a nonzero errno gives an errno error; otherwise end of file gives premature EOF, and anything else gives the unspecified error. The domain is the errno domain exactly when errno was set |
| SideChannel.EncodeCode | src/errors.c:52 | the code is written as exactly `sizeof(gint)` = 4 bytes |
| SideChannel.DecodeEncodeCode | src/errors.c:84-89 | the four code bytes read back give the code written, negative codes included |
| SideChannel.MessageField | src/errors.c:56-57 | the message field is `strlen(domain) + 1` bytes long: the start of a longer message, or a shorter message, its NUL and the memory after it |
| SideChannel.WireAsWritten | src/errors.c:44-60 | what a fully successful write puts on the channel is always `2·strlen(domain) + 6` bytes, whatever the message |
| SideChannel.WireIntended | src/errors.c:75-100 | the format the reader expects holds the domain, its NUL, 4 code bytes, the message and its NUL |
| SideChannel.FailureError | src/errors.c:68-70 | a failing step leaves premature EOF on end of file, and GLib's own error otherwise |
| SideChannel.Writing | src/errors.c:40-71 | defines the write steps in order: a short domain or message write and any AGAIN abort on a `g_assert`; the first other non-NORMAL status ends the call with `FailureError`; the bytes are those of the steps reached |
| SideChannel.WritingDone | src/errors.c:40-71 | a write succeeds exactly when the domain and message writes are complete and the three writes and the flush all report NORMAL |
| SideChannel.WritingWire | src/errors.c:44-66 | a successful write with the code written whole puts exactly `WireAsWritten` on the channel |
| SideChannel.WritingPrefix | src/errors.c:50-64 | with the code written whole, whatever the channel replies, what is written is a prefix of the wire format: the first failing step ends the call |
| SideChannel.WritingFailure | src/errors.c:68-70 | a failed write reports premature end of file or the error GLib returned for one of the steps |
| SideChannel.OutChannel.WriteGError | src/errors.c:40-71 | the call ends as `Writing` says and appends the bytes `Writing` names. A successful call has flushed everything written; a failed or aborted one has flushed nothing more |
| SideChannel.ReadLine | src/errors.c:75-78 | with NUL as line terminator, a read returns the text before the first NUL and leaves what follows it. At end of file it returns the unterminated remainder, and end of file only when nothing is left |
| SideChannel.Decode | src/errors.c:73-107 | a read returns an error value exactly when it succeeds, and it succeeds only on a channel that delivers every read. A failure is "Premature end of file" or the error GLib reported for one of the reads, and only premature end of file on a clean channel. An AGAIN or a short code read aborts |
| SideChannel.Interrupted | src/errors.c:78-80 | a read that reports AGAIN aborts on the `g_assert`; one that reports ERROR ends the call with GLib's error, with no error value returned |
| SideChannel.FaultsOnlyEndEarly | src/errors.c:78-94 | a call that returns an error value is the same as the call on a clean channel; a fault on the domain read ends the call with that fault and consumes nothing |
| SideChannel.LateFault | src/errors.c:92-94 | an ERROR on the message read, after a whole domain and code, ends the call with that error and leaves the message in the channel |
| SideChannel.InChannel.ReadGError | src/errors.c:73-107 | reading from the channel, with the channel's answers to the three reads, consumes exactly what `Decode` consumes and returns what it returns |
| SideChannel.ReadTerminated | src/errors.c:91-94 | a NUL-terminated field is read back as itself, and what follows it is left |
| SideChannel.DecodeFields | src/errors.c:75-100 | a domain field, 4 code bytes and a message field give an error with exactly those three fields |
| SideChannel.RoundTripIntended | src/errors.c:40-107 | in the intended format, every error is read back exactly and what follows it is left in the channel |
| SideChannel.RoundTripEqualLengths | src/errors.c:40-107 | as written, the round trip holds when the message is as long as the domain |
| SideChannel.RoundTripShorterMessage | src/errors.c:56-57 | as written, a shorter message is read back intact, but leaves `strlen(domain) - strlen(message)` stray bytes in the channel before the next data |
| SideChannel.LongerMessageTruncated | src/errors.c:56-57 | as written, a longer message arrives cut to `strlen(domain) + 1` bytes, so no message two or more bytes longer than the domain comes through |
| SideChannel.BoomArrivesAsBo | src/errors.c:56-57 | the error ("x", 7, "boom") arrives as ("x", 7, "bo") |
| SideChannel.EmptyChannelIsPrematureEof | src/errors.c:78-106 | a channel with nothing in it reads as premature end of file |
| SideChannel.TruncatedWire | src/errors.c:75-94 | a channel that ends inside the domain, right after it, or right after the code reads as premature EOF. One that ends inside the code aborts on `g_assert(nread == sizeof(code))` |
| Varnishlog.EntryError | src/varnishlog.c:120-138 | a failed read is classified in order: a nonzero errno gives an errno error with that code; otherwise end of file gives "End of file found on varnishlog pipe" with code EOF; anything else gives UNSPEC |
| Varnishlog.Framed | src/varnishlog.c:140-141 | defines the buffer after `getline`: the bytes read and their NUL, a final newline overwritten by NUL |
| Varnishlog.FramedText | src/varnishlog.c:140-141 | the framed buffer is one byte longer than what was read. A C string reader sees the line without its newline, and a final line without a newline whole |
| Varnishlog.ReadEntry | src/varnishlog.c:116-143 | succeeds exactly when `getline` did. On success the buffer is the bytes read with a trailing newline overwritten by NUL, and `len` counts the newline. On failure it returns the classified error |
| Varnishlog.Handle.constructor | src/varnishlog.c:87-99 | a started handle holds the pid and the stream |
| Varnishlog.Handle.Shutdown | src/varnishlog.c:25-47 | the call ends, and leaves the pid and the stream, as `ShutdownOf` says, from any state: a handle that was torn down already, one whose stream is NULL, and one whose stream a failed `fclose` released |
| Varnishlog.ShutdownOf | src/varnishlog.c:25-47 | defines the teardown: no pid returns true; `kill` failing other than with ESRCH returns false; `fclose` on a NULL or released stream is undefined behaviour; a failed `fclose` returns false with the stream released but the pointer kept; a failed `waitpid` returns false with the stream cleared; otherwise the status is stored and pid and stream cleared |
| Varnishlog.TeardownCases | src/varnishlog.c:25-47 | each step's outcome: what is returned and what pid and stream are left, for each way the steps can end |
| Varnishlog.TeardownFinished | src/varnishlog.c:25-47 | the call returns true exactly when there was no pid or every step succeeded, and then no pid is left; a false return keeps the pid |
| Varnishlog.RetryAfterWaitFailure | src/main.c:194 | as written, after a call that fails at `waitpid`, the second call of the error path reaches `fclose(NULL)`; likewise at varnishlog-buffer/src/main.c:177 |
| Varnishlog.RetryAfterCloseFailure | src/main.c:194 | as written, after a call whose `fclose` fails, the second call closes the released stream again |
| Varnishlog.GuardedTeardown | src/varnishlog.c:35-39 | defines the intended teardown: `fclose` only while the stream is open, and the stream cleared as soon as it is called |
| Varnishlog.GuardedTeardownSafe | src/varnishlog.c:35-39 | the guarded teardown never has undefined behaviour nor leaves a released stream, and agrees with the source wherever the source has neither |
| Varnishlog.GuardedRetry | src/main.c:194 | with the guarded teardown the second call after any failure is safe, and reaps the child when the stream was cleared and `waitpid` succeeds |
| ExitStatus.MainReturnFolds | src/main.c:172-175 | `main` returns EXIT_SUCCESS for a child killed by SIGINT and the raw wait status otherwise; likewise at varnishlog-buffer/src/main.c:155-158 in the buffer variant |
| ExitStatus.MainReturn | src/main.c:172-175 | defines the value `main` returns after a successful shutdown: EXIT_SUCCESS for a child killed by SIGINT, the raw wait status otherwise |
| ExitStatus.DaemonExitAsWritten | src/main.c:172-175 | defines the status the daemon exits with: the low eight bits of what `main` returns |
| ExitStatus.ChildFailureReportedAsSuccess | src/main.c:172-173 | as written, a child that exits with status 1 makes the daemon exit with status 0 |
| ExitStatus.ExitCodeLost | varnishlog-buffer/src/main.c:155-156 | as written, every exit code of the child is reported as success |
| ExitStatus.DaemonExitSucceeds | src/main.c:166-175 | intended: the daemon succeeds exactly when the child exited with 0 or was killed by SIGINT, and it passes on a child's exit code |
| Strings.String.NewMallocedWithLen | src/strings.c:8-14 | the record keeps the bytes and the length as given and always owns the bytes |
| Strings.String.Released | src/strings.c:16-19 | freeing a record releases its bytes exactly when it owns them, and always releases the record itself, last |
| Strings.String.Free | src/strings.c:16-19 | `string_free` gives back to the allocator exactly the blocks `Released` names, in that order |
| Strings.ReleasedAll | src/main.c:110 | what freeing each record in turn gives back: at least one block per record |
| Strings.ReleasedAllAppend | src/main.c:110 | freeing two runs of records one after the other is freeing their concatenation |
| Strings.ReleasedAllRecords | src/main.c:110 | freeing a list releases every record in it |
| Sender.Reversed | src/main.c:107 | `g_slist_reverse`: the same length, element i being element n-1-i |
| Sender.ReversedCons | src/main.c:151 | prepending to the list appends to its reversal |
| Sender.ReversedReversed | src/main.c:107 | reversing twice gives the list back |
| Sender.Printed | src/main.c:75-78 | defines what `printf("%s\n", line->bytes)` writes: the bytes up to the first NUL, then a newline |
| Sender.PrintedLine | src/main.c:75-78 | a printed line is a prefix of the buffer without NUL followed by one newline; a buffer without NUL is printed whole |
| Sender.PrintedAll | src/main.c:109 | what a batch prints: the lines in order, at least one byte per line |
| Sender.PrintedAllAppend | src/main.c:109 | printing two batches one after the other prints their concatenation |
| Sender.Contents | src/main.c:109 | the buffers of the records, in list order |
| Sender.SendLogEntry | src/main.c:75-78 | a line prints as its bytes up to the first NUL, then one newline. Here nothing is flushed; the buffer variant (varnishlog-buffer/src/main.c:61-64) flushes everything written after each line |
| Sender.SendAll | src/main.c:109 | a batch prints as its lines in list order |
| Sender.FreeAll | src/main.c:110 | every record is freed, in list order |
| Sender.SenderControl.constructor | src/main.c:123-128 | the list starts empty with the stop flag clear; the FIFO invariant holds |
| Sender.SenderControl.Push | src/main.c:150-153 | a push puts the line at the front of the list and keeps the FIFO invariant; likewise at varnishlog-buffer/src/main.c:131-136 in the buffer variant |
| Sender.SenderControl.Cycle | src/main.c:95-110 | one sender pass takes the whole list, possibly empty, and leaves it empty. It prints the lines oldest first and frees them in that order. The pass runs whether or not the stop flag is raised, as the wait ends on either. Everything pushed has then been sent or discarded, in push order, and sent when nothing was discarded. The buffer variant (varnishlog-buffer/src/main.c:76-91) does the same with a flush after each line |
| Sender.SenderControl.Stop | src/main.c:156 | the normal end sets the sender's stop flag and changes nothing else |
| Sender.SenderControl.Discard | src/main.c:181-189 | the error path sets the stop flag and frees the queued lines unsent, in list order. The list is left empty, and everything pushed is sent or dropped, in order; likewise at varnishlog-buffer/src/main.c:164-172 in the buffer variant |
| Reader.FailedReadAction | src/main.c:138-148 | a failed read stops if shutdown is set, is retried exactly when errno was EINTR, and is fatal otherwise; likewise at varnishlog-buffer/src/main.c:119-129 in the buffer variant |
| Reader.FailureAction | src/main.c:138-148 | defines the decision after a failed read: stop when shutdown is set, retry an EINTR, otherwise take the error path |
| Reader.Reading | src/main.c:133-154 | defines the loop over the reads given: the lines of the successful reads in order, and how it ends (stopped, failed with an error, or out of reads) |
| Reader.NoFatalEintr | src/main.c:142-147 | the loop never takes the error path with an EINTR error |
| Reader.ReadsEveryLine | src/main.c:133-154 | with no shutdown and only interrupted failures, the loop reads every successful line in order, none lost or repeated |
| Reader.ReadsPrefix | src/main.c:133-154 | the lines read are always a prefix of the successful reads |
| Reader.PrintedFramed | src/main.c:77 | a line read from the pipe prints as varnishlog wrote it; a last line without a newline is given one |
| Reader.ReadAndPush | varnishlog-buffer/src/main.c:119-136 | a successful read pushes one new record holding the framed bytes and the length; a failed read pushes nothing and returns the classified error |
| Reader.ReadLoop | src/main.c:133-154 | the loop ends as `Reading` says. It pushes one new record per line read, in order, with the framed bytes and the length, and sends and drops nothing; likewise at varnishlog-buffer/src/main.c:114-137 in the buffer variant |
| Die.FormatLiteral | src/die.c:15 | text without `%` is printed as it is |
| Die.FormatString | src/die.c:37 | `%s` prints its string argument unchanged |
| Die.FormatInt | src/die.c:37 | `%d` prints its argument's numeral |
| Die.Diefv | src/die.c:13-18 | the output is the formatted message and exactly one newline, and the exit status is EXIT_FAILURE |
| Die.Die | src/die.c:29-31 | `die(msg)` prints `msg` verbatim, `%` signs included, then a newline, and exits with EXIT_FAILURE |
| Die.GDie | src/die.c:34-40 | with an error, it prints "domain (code): message" and a newline; with none, "Unspecified error" and a newline; either way it exits with EXIT_FAILURE |
| Die.GDieFormat | src/die.c:37 | `g_die`'s format with its three arguments gives "domain (code): message" |
| Die.FormatThree | src/die.c:37 | a format of a string, a separator, a number, a separator and a string prints the arguments with the separators between them |
| Die.Format | src/die.c:15 | defines the text `vfprintf` writes for `%s`, `%d`, `%%` and literal text; `None` for a format and arguments that do not agree |
| Scan.Run | varnishlog-parser/varnishlog-parser.rb:74 | a greedy run of a character class stops at the first character outside it |
| Scan.RunAppend | varnishlog-parser/varnishlog-parser.rb:74 | a run of the class in front of a text extends that text's run |
| Scan.RunBound | varnishlog-parser/varnishlog-parser.rb:41 | a run never goes past a character outside its class |
| Scan.Split | varnishlog-parser/varnishlog-parser.rb:41 | a greedy run and the rest spell the text, and the rest does not start with the class |
| Scan.SplitExact | varnishlog-parser/varnishlog-parser.rb:41 | a run followed by anything else splits exactly there |
| Scan.TakeSound | varnishlog-parser/varnishlog-parser.rb:74 | one greedy item takes a piece of its shape, after which the item cannot continue |
| Scan.TakeExact | varnishlog-parser/varnishlog-parser.rb:74 | a piece of the item's shape, followed by text the item cannot continue into, is what the item takes |
| Scan.ScanLength | varnishlog-parser/varnishlog-parser.rb:74 | a scan gives one piece per item |
| Scan.ScanSpells | varnishlog-parser/varnishlog-parser.rb:74 | the pieces and the rest spell the text |
| Scan.ScanFits | varnishlog-parser/varnishlog-parser.rb:74 | each piece has its item's shape |
| Scan.ScanSound | varnishlog-parser/varnishlog-parser.rb:74 | a successful scan is a decomposition of the text into pieces of the items' shapes |
| Scan.ScanExact | varnishlog-parser/varnishlog-parser.rb:54 | a decomposition where no run could be longer is the one the scan finds |
| LogLine.Body | varnishlog-parser/varnishlog-parser.rb:73-74 | the text the pattern sees is the line without its final line feed, and holds no line feed |
| LogLine.TailSound | varnishlog-parser/varnishlog-parser.rb:74 | `\s+(.+)$` splits the rest into a non-empty run of spaces and a non-empty payload |
| LogLine.TailComplete | varnishlog-parser/varnishlog-parser.rb:74 | every spaces-then-payload text is accepted, with a separator at least as long |
| LogLine.TokeniseSound | varnishlog-parser/varnishlog-parser.rb:74 | a tokenised line is exactly its pieces, each of the pattern's shape |
| LogLine.TokeniseComplete | varnishlog-parser/varnishlog-parser.rb:74 | every line of the pattern's shape is tokenised with the same leading spaces, digits and tag, and the greedy payload separator |
| LogLine.PatternScans | varnishlog-parser/varnishlog-parser.rb:74 | the items before the payload scan a line of the shape into its pieces |
| LogLine.Tokenise | varnishlog-parser/varnishlog-parser.rb:74 | defines the match of `^\s*(\d+)\s+([^\s]+)\s+c\s+(.+)$`: the greedy scan of the items before the payload, then the separator and payload |
| LogLine.ParseLine | varnishlog-parser/varnishlog-parser.rb:74-76 | a recognised line gives a non-empty tag without spaces and a non-empty payload without a line feed; `None` is the `InvalidParseError` |
| LogLine.ParseLineComplete | varnishlog-parser/varnishlog-parser.rb:74-76 | every line of the shape, with or without its newline, is recognised. The id is the digits' value and the tag is its tag; the payload is the rest after the greedy separator |
| Payloads.SplitLead | varnishlog-parser/varnishlog-parser.rb:41 | `\s*([^:]+)` before the colon takes all leading spaces but leaves the name at least one character |
| Payloads.SplitLeadLongest | varnishlog-parser/varnishlog-parser.rb:41 | the leading spaces taken are at least as many as in any split into spaces and a name |
| Payloads.ParseHeader | varnishlog-parser/varnishlog-parser.rb:41 | defines the `RxHeader` match: the name runs to the first colon after the leading spaces, and the value starts after all spaces that follow it; no colon or an empty name is no match |
| Payloads.ParseHeaderSound | varnishlog-parser/varnishlog-parser.rb:41-42 | a recognised header spells the payload with parts of the pattern's shape. The name runs to the first colon, and the value does not start with a space |
| Payloads.ParseHeaderComplete | varnishlog-parser/varnishlog-parser.rb:41-43 | every payload of the header shape is recognised, with the name ending at the same colon and the spaces around it taken greedily |
| Payloads.ParseOpenSound | varnishlog-parser/varnishlog-parser.rb:54-55 | a recognised `SessionOpen` payload is the text of an address record of the pattern's shape |
| Payloads.ParseOpen | varnishlog-parser/varnishlog-parser.rb:54 | defines the `SessionOpen` match: a client quad and port, then an optional peer quad and a peer port, with no text left over |
| Payloads.ParseOpenComplete | varnishlog-parser/varnishlog-parser.rb:54-56 | every payload of the shape, with or without the optional address, is recognised with exactly its parts |
| Payloads.HeadScans | varnishlog-parser/varnishlog-parser.rb:54 | `((?:\d+\.){3}\d+) \d+ ` scans a well-shaped payload into its pieces |
| Payloads.TailScans | varnishlog-parser/varnishlog-parser.rb:54 | `(?:(?:\d+\.){3}\d+)?:\d+$` scans the rest with nothing left over |
| Sessions.HandlerFor | varnishlog-parser/varnishlog-parser.rb:40-67 | exactly the seven registered tags have a handler, and only `SessionClose` closes |
| Sessions.Handle | varnishlog-parser/varnishlog-parser.rb:40-67 | defines each handler's effect on the extracted state; `None` is the `InvalidParseError` |
| Sessions.HandleUnknown | varnishlog-parser/varnishlog-parser.rb:50 | a tag without a handler changes no extracted data |
| Sessions.HandleSave | varnishlog-parser/varnishlog-parser.rb:63-67 | RxProtocol, RxURL, RxRequest and TxStatus store any payload under "protocol", "url", "method" and "status", and change nothing else |
| Sessions.HandleClose | varnishlog-parser/varnishlog-parser.rb:59-61 | `SessionClose` closes the session whatever its payload, no other tag does, and a closed session stays closed |
| Sessions.HandleHeader | varnishlog-parser/varnishlog-parser.rb:40-46 | `RxHeader` raises exactly when its pattern rejects the payload. Otherwise it creates the headers hash when missing, sets the named header's value (overwriting an earlier one), and keeps every other header |
| Sessions.HandleOpen | varnishlog-parser/varnishlog-parser.rb:53-57 | `SessionOpen` raises exactly when its pattern rejects the payload; otherwise it stores the client quad under "ip" and changes nothing else |
| Sessions.ReplayClosed | varnishlog-parser/varnishlog-parser.rb:59-61 | a session is closed exactly when one of its entries is a `SessionClose` |
| Sessions.ReplaySaved | varnishlog-parser/varnishlog-parser.rb:11-15 | a saved field holds the payload of the last entry with its tag: the last write wins |
| Sessions.OtherTagsKeep | varnishlog-parser/varnishlog-parser.rb:40-67 | no other handler writes the field of a saved tag |
| Sessions.Updated | varnishlog-parser/varnishlog-parser.rb:48-51 | defines a session's snapshot (extracted state and raw entries) after one entry: the entry is always recorded, the handler's effect only when it does not raise |
| Sessions.Enter | varnishlog-parser/varnishlog-parser.rb:77-85 | defines the tables after one entry: the id's session updated, then moved to the finished list if it is now closed |
| Sessions.EnterUpdates | varnishlog-parser/varnishlog-parser.rb:77-85 | `Enter` is the update of the id's entry followed, for a closed session, by the move of that entry to the finished list |
| Sessions.Step | varnishlog-parser/varnishlog-parser.rb:73-86 | defines one line as a step on the tables: a line that does not tokenise raises and changes nothing |
| Sessions.Fold | varnishlog-parser/varnishlog-parser.rb:73-86 | defines a loop applying a step to each element in turn, up to and including the first whose step fails: the state then, and how many went through |
| Sessions.Steps | varnishlog-parser/varnishlog-parser.rb:73-86 | defines the `ARGF.each` loop as `Fold` of `Step` over the lines' entries |
| Sessions.ParsedAs | varnishlog-parser/varnishlog-parser.rb:73-76 | the lines are what `ARGF.each` yields, and entry i is what the tokeniser makes of line i |
| Sessions.ParsedAsExists | varnishlog-parser/varnishlog-parser.rb:73-76 | every input of `ARGF.each` lines has its sequence of tokenised entries |
| Sessions.FoldSnoc | varnishlog-parser/varnishlog-parser.rb:73-86 | for any step: a loop whose first d elements went through continues with element d. It goes one element further, or stops there with the state that step leaves |
| Sessions.FoldStop | varnishlog-parser/varnishlog-parser.rb:73-86 | for any step: a loop that ends early ends at the first element whose step fails. Every element before it went through, and the final state is the one the failing step leaves |
| Sessions.FoldIgnoresLater | varnishlog-parser/varnishlog-parser.rb:73-86 | for any step: the elements after the first that fails play no part, so any longer prefix of the input gives the same result |
| Sessions.StepKeeps | varnishlog-parser/varnishlog-parser.rb:77-85 | one line keeps the live sessions open and the finished ones closed, and only appends to the finished list |
| Sessions.StepsKeep | varnishlog-parser/varnishlog-parser.rb:73-86 | every run keeps the live sessions open and the finished ones closed, and only appends to the finished list |
| Sessions.Session.constructor | varnishlog-parser/varnishlog-parser.rb:26-30 | a new session has no data, no raw entries and is open |
| Sessions.Session.AddData | varnishlog-parser/varnishlog-parser.rb:48-51 | the raw entry "tag payload" is always appended, before the handler runs. The handler's effect is applied exactly when it does not raise; a raising handler leaves the extracted data as it was |
| Sessions.Tracker.constructor | varnishlog-parser/varnishlog-parser.rb:70-71 | the tables start empty |
| Sessions.Tracker.Lookup | varnishlog-parser/varnishlog-parser.rb:77-78 | an unseen id gets a new, empty session; a known id gets its own session object back |
| Sessions.Tracker.Retire | varnishlog-parser/varnishlog-parser.rb:80-82 | a closed session leaves the live table and is appended to the finished list, keeping the invariant |
| Sessions.Tracker.Deliver | varnishlog-parser/varnishlog-parser.rb:77-85 | the entry goes to the id's session, new or existing, and is recorded raw. The handler's result is applied. A session that is now closed moves exactly once from the live table to the finished list; otherwise it stays live. No other session, live or finished, changes. The new tables are `Enter` of the old ones |
| Sessions.Tracker.Admit | varnishlog-parser/varnishlog-parser.rb:77-79 | finding or creating the session and adding the entry changes only that session and the live table; the session's new snapshot is `Updated` of the old tables |
| Sessions.Tracker.Record | varnishlog-parser/varnishlog-parser.rb:79 | `session.add_data` on a live session changes only that entry of the tables |
| Sessions.Tracker.OneSessionChanged | varnishlog-parser/varnishlog-parser.rb:79 | when only one live session changes, only its entry in the tables changes |
| Sessions.Tracker.Feed | varnishlog-parser/varnishlog-parser.rb:73-86 | one turn of the loop: processing line d after the first d went through extends `Steps` by that line, or stops it there |
| Sessions.Tracker.ProcessLine | varnishlog-parser/varnishlog-parser.rb:73-86 | a line that does not tokenise raises before any session is touched. A line that does is delivered as `Deliver` states, touching no other session. The new tables are `Step` of the old ones with the line's entry |
| Sessions.Tracker.Run | varnishlog-parser/varnishlog-parser.rb:73-86 | the lines are processed in order until the first one that raises. The final tables, and the number of lines processed, are `Steps` of the first tables over the lines' entries (a ghost argument tied to the lines by `ParsedAs`). The live sessions stay open, the finished ones closed and distinct, and the finished list only grows |

## Left out

- Process creation (`pipe`, `fork`, `dup2`, `execvp` in `start_varnishlog` and the child), apart from the resulting handle: these are operating-system plumbing.
- Scheduling priorities (`high_priority_process`, `high_priority_thread`, `swap_thread_priority`, `set_thread_priority`). They are thin system-call wrappers, and `swap_thread_priority` has no definition in the sources. The sender returns when one of them fails; that path is not modelled beyond `Discard`.
- Threads, mutexes, condition variables and signal handlers. Each list operation is one critical section run to completion. Waiting and wake-ups are not modelled. Whether a line pushed after the sender's last pass is ever printed is not claimed: the sender tests its flag only at the top of its loop.
- The `shutdown` flag is an input to each read, not set by a handler.
- `strerror` text: an errno error carries the description as supplied.
- The error domains (`BufferDomain`, `ErrnoDomain` in gerrors.dfy): the quark macros the error-building code uses (`VARNISHLOG_BUFFER_QUARK`, `ACADEMIA_VARNISHLOG_QUARK`, `ACADEMIA_VARNISHLOG_ERRNO_QUARK`) name functions no source file defines. They are taken to be the "varnishlog-buffer" and "errno" quarks of src/errors.c:14-20, and the code macros of src/errors.c the EOF and UNSPEC codes 0 and 1 of include/errors.h. The domain strings `GDie` prints rest on that assumption.
- GLib internals (`GIOChannel` encoding and buffering, quarks, `g_slist`, `g_slice`). A channel is a byte sequence; the list is a `seq`; a quark is the string it stands for.
- The order of the gotos after a fatal read, a failed join or a failed `shutdown_varnishlog`: each step is modelled (`Discard`, `Handle.Shutdown`, `GDie`), but `main` is not one method.
- Ruby's output (`puts session.data` and the raw lines joined by newlines) and hash insertion order. The model keeps what is printed (the session's data and raw entries), not its formatting.
- `@session_data[:headers]` is a Symbol-keyed entry beside the string-keyed fields. It is modelled as a separate `headers` field, so no string key can collide with it.
- Payloads containing a line feed, where Ruby's `^` and `$` match at inner line boundaries: the tokeniser never yields such a payload.
- Character encodings: Ruby strings are sequences of characters and C strings sequences of bytes; no UTF-8 validation is modelled.
- `fflush` is modelled as the count of bytes handed to the system, not the system's own buffering.
- Varnishlog.ReadEntry: `getline`'s reuse of the caller's buffer and its allocation size are not modelled; each successful read gives a fresh array.
- Sender.SenderControl.Push: requires the stop flag clear, because the reader only pushes before `main` raises it.
- Undefined behaviour in `shutdown_varnishlog` (`fclose` on NULL or on a closed stream) is an outcome of its own, `Undefined`; what the C library then does is not modelled.
- A read fault of `read_gerror` consumes nothing; how much a failing GLib read leaves buffered is not modelled.

## Findings

| source | as written | input that shows it | evidently intended | confidence | as-written member | corrected member |
|---|---|---|---|---|---|---|
| src/errors.c:56 | the message is written with `strlen(domain) + 1` bytes | domain "x", code 7, message "boom": the reader receives the message "bo" | `strlen(e->message) + 1`, so every message arrives whole | high; not executed | SideChannel.LongerMessageTruncated, SideChannel.BoomArrivesAsBo, SideChannel.WireAsWritten | SideChannel.WireIntended, SideChannel.RoundTripIntended |
| src/main.c:172-173, varnishlog-buffer/src/main.c:155-156 | `main` returns the raw wait status, of which the parent sees the low 8 bits | a child that exits with status 1 has wait status 0x100 and the daemon exits with 0 | pass on `WEXITSTATUS(stat)` for a child that exited | medium; not executed | ExitStatus.ChildFailureReportedAsSuccess, ExitStatus.ExitCodeLost | ExitStatus.DaemonExit, ExitStatus.DaemonExitSucceeds |
| src/main.c:194, varnishlog-buffer/src/main.c:177 | the error path calls `shutdown_varnishlog` again after it may already have failed, and the teardown neither checks nor clears the stream before `fclose` | a first call whose `waitpid` fails clears the stream, so the second call runs `fclose(NULL)`; a first call whose `fclose` fails keeps the stream, so the second call closes it twice | call `fclose` only on an open stream and clear the stream as soon as it is called | medium; not executed | Varnishlog.RetryAfterWaitFailure, Varnishlog.RetryAfterCloseFailure | Varnishlog.GuardedTeardown, Varnishlog.GuardedTeardownSafe, Varnishlog.GuardedRetry |
