# A verified model of the incremental HTTP request parser of `fsm.cpp`

`chap8/code/fsm/fsm.cpp` holds a small HTTP request parser. It works on one
receive buffer and can be resumed across partial reads. It has two layered
state machines:

- **The line scanner, `parse_line`.** It walks the received bytes from the
  cursor `checked_index` to `read_index`, looking for CR LF. It overwrites a
  complete terminator with two NULs, moves the cursor past it, and reports
  LINE_OK, LINE_BAD or LINE_OPEN.
- **The grammar driver, `parse_content`.** It calls the scanner again and
  again. Each complete line, the NUL-terminated text at `start_line`, goes to
  one of two interpreters, chosen by the CHECK_STATE:
  - `parse_requestline` accepts `GET<TAB>+<url><TAB>+HTTP/1.1`. The method
    and the version are compared without regard to case, and an `http://`
    prefix on the URL is dropped together with the host. On acceptance it
    moves the state to CHECK_STATE_HEADER.
  - `parse_headers` completes the request (GET_REQUEST) on the empty line and
    accepts every other line.

The project has two layers.

- **A model on values.** A function describes each C routine on the received
  bytes `buffer[0 .. read_index)`, as a `seq<char>`:
  - `LineScanner.ScanLine` is `parse_line`;
  - `RequestLine.ParseRequestLine` is `parse_requestline`;
  - `Headers.ParseHeaders` is `parse_headers`;
  - `Content.Step` is one pass of the loop body of `parse_content`;
  - `Content.Drive` is `parse_content`;
  - `Connection.Session` is the receive loop of `main`, reduced to what it
    does with the parser.

  These functions return the results, the buffer after the parser's NUL writes,
  and the new cursors and state. The properties are proved about them:
  - what each scanner verdict means;
  - which request lines are accepted;
  - what the driver can return and in which state;
  - which bytes the parser writes;
  - that splitting the input into chunks does not change the outcome.
- **The parser as the program keeps it.** `Parser.RequestParser` holds the
  4096-byte `array<char>` and the three cursors and the state as fields. Its
  methods `ParseLine` and `ParseContent` update these in place with the
  program's loops. Each method is proved to leave exactly the state the
  value model describes, and never to touch a byte at or after `read_index`.

The C string routines `strpbrk`, `strchr`, `strspn`, `strcasecmp` and
`strncasecmp` are modelled in `CStrings` by their meaning on NUL-terminated
ASCII text in the C locale.

Four facts about the code shape the model:

- The LF branch of the scanner tests `checked_index > 1` (line 63). So an LF
  at index 1 after a CR at index 0 is LINE_BAD.
- The line handed to an interpreter is the C string at `start_line`. It ends
  at the line's first NUL, not at the scanner's cursor. A header line whose
  first byte is NUL is therefore the empty line and completes the request.
- There is no classification for a full buffer.
- FORBIDDEN_REQUEST and CLOSED_CONNECTION are declared but never produced.

## Model

| member | source | states |
|---|---|---|
| `Http.CheckState` | chap8/code/fsm/fsm.cpp:20 | the two checking states, request line and header |
| `Http.LineStatus` | chap8/code/fsm/fsm.cpp:25 | the three scanner verdicts LINE_OK, LINE_BAD and LINE_OPEN |
| `Http.HttpCode` | chap8/code/fsm/fsm.cpp:35 | the six result codes, in the order declared |
| `CStrings.ToLowerFolds` | chap8/code/fsm/fsm.cpp:90 | `CStrings.ToLower` is `tolower` in the C locale: the result is never an upper-case letter, an upper-case letter becomes its lower-case letter, every other byte is unchanged, and folding twice equals folding once |
| `CStrings.EqualsIgnoreCaseLaws` | chap8/code/fsm/fsm.cpp:104 | `CStrings.EqualsIgnoreCase` is `strcasecmp(..) == 0`: a match has equal lengths, and the relation is reflexive, symmetric and transitive |
| `CStrings.StartsWithIgnoreCaseLaws` | chap8/code/fsm/fsm.cpp:132 | `CStrings.StartsWithIgnoreCase` is `strncasecmp(.., n) == 0` with `n` the pattern length: a match needs a text at least that long, a literal prefix always matches, and a match survives bytes appended after it |
| `CStrings.Find` | chap8/code/fsm/fsm.cpp:84-87 | `strpbrk`/`strchr` for one character: a reported offset is at or after the start and holds that character |
| `CStrings.FindFirst` | chap8/code/fsm/fsm.cpp:84-87 | the reported offset is the first occurrence; `None` means the character does not occur from the start on |
| `CStrings.FindIs` | chap8/code/fsm/fsm.cpp:98-101 | conversely, the first occurrence of the character after the start is the offset reported |
| `CStrings.FindNone` | chap8/code/fsm/fsm.cpp:112 | conversely, a text without the character gives the null pointer |
| `CStrings.Span` | chap8/code/fsm/fsm.cpp:97 | `strspn` for one character: the run ends inside the text, at a byte that is not that character |
| `CStrings.SpanRun` | chap8/code/fsm/fsm.cpp:103 | every byte the span skips is that character |
| `CStrings.SpanIs` | chap8/code/fsm/fsm.cpp:134 | conversely, a run of the character that the next byte does not continue is the length measured |
| `CStrings.CStringEnd` | chap8/code/fsm/fsm.cpp:154 | the string at an offset ends at a NUL or at the end of the received bytes |
| `CStrings.CString` | chap8/code/fsm/fsm.cpp:154 | the line `buffer + start_line` is the bytes of the buffer from its start on, holds no NUL, and ends at a NUL or at `read_index` |
| `CStrings.CStringIs` | chap8/code/fsm/fsm.cpp:154 | conversely, a NUL-free run from the start that ends at a NUL or at `read_index` is the C string |
| `CStrings.CStringStopsAtNul` | chap8/code/fsm/fsm.cpp:154 | a NUL at or after the start bounds the string |
| `CStrings.CStringExtend` | chap8/code/fsm/fsm.cpp:154 | bytes received after a NUL do not change the string in front of it |
| `LineScanner.ScanLine` | chap8/code/fsm/fsm.cpp:40-76 | the cursor never decreases and stays within the received bytes; LINE_OK strictly advances it and leaves two NULs just before it; any other verdict leaves the buffer unchanged |
| `LineScanner.ScanLineFrame` | chap8/code/fsm/fsm.cpp:53-66 | the scanner writes only from just before the old cursor up to the new one |
| `LineScanner.ScanLineOk` | chap8/code/fsm/fsm.cpp:43-73 | LINE_OK means either ordinary bytes up to a CR LF at `i`, now both NUL with the cursor at `i + 2`, or a cursor on an LF after a CR with `checked_index > 1`, now both NUL; no other byte changes |
| `LineScanner.ScanLineOpen` | chap8/code/fsm/fsm.cpp:43-75 | LINE_OPEN leaves the buffer unchanged with only ordinary bytes scanned, and the cursor at the end or on a final CR that the next call re-examines |
| `LineScanner.ScanLineBad` | chap8/code/fsm/fsm.cpp:57-71 | LINE_BAD stops on the first CR or LF: a CR followed by another byte, or an LF failing `checked_index > 1 && buffer[checked_index-1] == '\r'`; the buffer is unchanged |
| `LineScanner.ScanLineCompletes` | chap8/code/fsm/fsm.cpp:43-73 | conversely, ordinary bytes then CR LF give LINE_OK with exactly those two bytes set to NUL |
| `LineScanner.ScanLineBareLf` | chap8/code/fsm/fsm.cpp:61-73 | conversely, ordinary bytes then an LF not after a CR (or at index 1 or less) give LINE_BAD |
| `LineScanner.ScanLineNoBreak` | chap8/code/fsm/fsm.cpp:43-75 | conversely, ordinary bytes to the end give LINE_OPEN with the cursor at `read_index` |
| `LineScanner.ScanLineOpenIdle` | chap8/code/fsm/fsm.cpp:47-75 | scanning again from where LINE_OPEN left the cursor reports the same |
| `LineScanner.ScanLineExtend` | chap8/code/fsm/fsm.cpp:43-75 | bytes received later do not change a LINE_OK or LINE_BAD verdict, and an open scan resumes from its saved cursor |
| `LineScanner.LfAtIndexOneIsBad` | chap8/code/fsm/fsm.cpp:63 | the `checked_index > 1` test as written: "\r\n" scanned from index 1 is LINE_BAD |
| `LineScanner.LfAtIndexTwoCompletes` | chap8/code/fsm/fsm.cpp:63-67 | from index 2 on, a cursor on the LF of a CR LF completes the line and sets both bytes to NUL |
| `RequestLine.Target` | chap8/code/fsm/fsm.cpp:108-117 | an accepted URL starts with '/' and is a suffix of the URL given |
| `RequestLine.TargetCases` | chap8/code/fsm/fsm.cpp:109-116 | with an `http://` prefix in any case: rejected exactly when no '/' follows the prefix, and otherwise the suffix from the first '/' after it; without the prefix: rejected exactly when the URL does not start with '/', and otherwise kept whole |
| `RequestLine.ParseRequestLine` | chap8/code/fsm/fsm.cpp:81-124 | only NO_REQUEST or BAD_REQUEST; the state becomes CHECK_STATE_HEADER exactly on NO_REQUEST and is otherwise unchanged; the two NUL writes land on tabs of the line, the first before the second |
| `RequestLine.ParseUrl` | chap8/code/fsm/fsm.cpp:97-102 | the same guarantees once the method is checked; the second NUL write lands on a tab after the first |
| `RequestLine.ParseVersion` | chap8/code/fsm/fsm.cpp:103-123 | the same guarantees once both tabs are found |
| `RequestLine.AcceptedHasFields` | chap8/code/fsm/fsm.cpp:84-117 | an accepted line splits into method `GET` in any case, tabs, a tab-free URL, tabs and `HTTP/1.1` in any case, and the URL check gives the reported URL |
| `RequestLine.FieldsAccepted` | chap8/code/fsm/fsm.cpp:84-123 | conversely, every such split with a URL that passes the check is accepted, with the NUL writes at the end of the method and of the URL |
| `RequestLine.AcceptsExactlyWellFormed` | chap8/code/fsm/fsm.cpp:84-123 | NO_REQUEST if and only if the line is well formed |
| `RequestLine.AcceptsInAnyState` | chap8/code/fsm/fsm.cpp:84-123 | the verdict does not depend on the state handed in |
| `RequestLine.TargetStripsScheme` | chap8/code/fsm/fsm.cpp:109-117 | `http://` in any case, a host without '/' and a path: the URL becomes the path |
| `RequestLine.TargetKeepsPath` | chap8/code/fsm/fsm.cpp:115-117 | a URL starting with '/' is kept as it is |
| `RequestLine.SingleTabLine` | chap8/code/fsm/fsm.cpp:84-123 | the full verdict on `method TAB url TAB version`: the method check, then the version and URL checks, with the NUL write offsets |
| `RequestLine.SingleTabAccepted` | chap8/code/fsm/fsm.cpp:84-123 | a GET line with an HTTP/1.1 version and a URL that passes the check is accepted, with that URL |
| `RequestLine.AbsoluteUrlAccepted` | chap8/code/fsm/fsm.cpp:84-123 | `GET TAB http://host/path TAB HTTP/1.1` with the method, the scheme and the version each in any case: accepted, the URL reduced to the path, the state moved to CHECK_STATE_HEADER |
| `RequestLine.PostRejected` | chap8/code/fsm/fsm.cpp:90-95 | "POST\t/\tHTTP/1.1" is rejected |
| `RequestLine.Http10Rejected` | chap8/code/fsm/fsm.cpp:104-106 | "GET\t/\tHTTP/1.0" is rejected |
| `Headers.ParseHeaders` | chap8/code/fsm/fsm.cpp:127-141 | GET_REQUEST if and only if the line is empty, NO_REQUEST if and only if it is not (so never BAD_REQUEST); a host value is reported exactly for `Host:` in any case, as a suffix of the line that does not start with a tab |
| `Headers.HostValueAfterTabs` | chap8/code/fsm/fsm.cpp:133-134 | only tabs lie between `Host:` and the reported value |
| `Headers.HostRoundTrip` | chap8/code/fsm/fsm.cpp:132-140 | a `Host:` line built from the name in any case, tabs and a value parses back to that value, with NO_REQUEST |
| `Headers.OtherHeaderIgnored` | chap8/code/fsm/fsm.cpp:137-140 | an example: "Accept:\t*/*" is accepted with no host reported |
| `Headers.HostExample` | chap8/code/fsm/fsm.cpp:132-135 | "Host:\texample.com" reports `example.com` |
| `Content.Cut` | chap8/code/fsm/fsm.cpp:88-102 | a NUL write keeps the buffer's length and puts NUL at its offset in the line |
| `Content.CutOnly` | chap8/code/fsm/fsm.cpp:88-102 | every other byte is unchanged, and with no write the buffer is unchanged |
| `Content.RequestLineCutsInside` | chap8/code/fsm/fsm.cpp:84-123 | the request line's NUL writes stay inside the line, before its terminator |
| `Content.Step` | chap8/code/fsm/fsm.cpp:154-176 | one loop pass: only NO_REQUEST, GET_REQUEST or BAD_REQUEST; GET_REQUEST only in CHECK_STATE_HEADER; the next line starts at the cursor; the state moves only from request line to header, on NO_REQUEST; a header line leaves the buffer unchanged |
| `Content.Drive` | chap8/code/fsm/fsm.cpp:144-184 | terminates; only NO_REQUEST, GET_REQUEST or BAD_REQUEST; keeps `start_line <= checked_index <= read_index` and never moves either cursor back; GET_REQUEST only in CHECK_STATE_HEADER and right after a line; the state never leaves CHECK_STATE_HEADER |
| `Content.StepExtend` | chap8/code/fsm/fsm.cpp:154-176 | a line complete in the received bytes is interpreted the same after more bytes arrive |
| `Content.DriveExtend` | chap8/code/fsm/fsm.cpp:153-183 | more bytes do not change a BAD_REQUEST or GET_REQUEST, and after NO_REQUEST one run over the longer buffer equals resuming from the saved state |
| `Content.DriveExtendLine` | chap8/code/fsm/fsm.cpp:153-176 | the same, when the first scan completes a line |
| `Content.DriveEndsOpen` | chap8/code/fsm/fsm.cpp:178-179 | a NO_REQUEST run ends at an incomplete line that scanning again still finds open |
| `Content.DriveIdle` | chap8/code/fsm/fsm.cpp:153-183 | running the driver again on a NO_REQUEST state, with no new bytes, changes nothing |
| `Content.DriveBadOutcome` | chap8/code/fsm/fsm.cpp:158-183 | BAD_REQUEST comes from a malformed line that scanning again still reports, or from a rejected request line right after it is consumed |
| `Content.StepFrame` | chap8/code/fsm/fsm.cpp:154-176 | interpreting a line writes only inside that line |
| `Content.DriveFrame` | chap8/code/fsm/fsm.cpp:144-184 | the driver writes only from just before its first line up to its final cursor |
| `Connection.Session` | chap8/code/fsm/fsm.cpp:227-250 | the receive loop keeps `start_line <= checked_index <= read_index` |
| `Connection.Fresh` | chap8/code/fsm/fsm.cpp:220-226 | the state before the first byte: no bytes, all cursors 0, expecting the request line |
| `Connection.FreshIsIdle` | chap8/code/fsm/fsm.cpp:219-226 | the initial state is at rest: the driver on no bytes changes nothing |
| `Connection.SessionMatchesOneShot` | chap8/code/fsm/fsm.cpp:227-250 | feeding non-empty chunks one by one from a state at rest gives the code, cursors and state of one run over all the bytes; the session's buffer is a prefix of the one-shot buffer, and equal to it on NO_REQUEST |
| `Connection.SplitDoesNotMatter` | chap8/code/fsm/fsm.cpp:227-250 | two splits of the same bytes into non-empty chunks give the same code, cursors and state |
| `Connection.SessionFromFresh` | chap8/code/fsm/fsm.cpp:219-250 | from the initial state a session gives the code of one run over the concatenated chunks |
| `Requests.SeenEmpty` | chap8/code/fsm/fsm.cpp:129 | the interpreter sees an empty line exactly when the line is empty or starts with NUL |
| `Requests.SeenWhole` | chap8/code/fsm/fsm.cpp:154 | a line without NUL is seen whole |
| `Requests.LineAt` | chap8/code/fsm/fsm.cpp:43-56 | a line without CR or LF and its CR LF at the cursor: LINE_OK with both terminator bytes NUL, and the C string at the line start is what the interpreter sees of the line |
| `Requests.SeenAt` | chap8/code/fsm/fsm.cpp:154 | the line followed by a NUL in the buffer gives the C string the interpreter sees |
| `Requests.ScannedLine` | chap8/code/fsm/fsm.cpp:43-73 | conversely, LINE_OK at a cursor not just after a CR means the buffer holds a line without CR or LF and its CR LF there |
| `Requests.HeaderAccepted` | chap8/code/fsm/fsm.cpp:164-172 | a non-empty header line leaves code, buffer and state as they were, with the next line at the cursor |
| `Requests.HeaderLineStep` | chap8/code/fsm/fsm.cpp:153-172 | a header line whose first byte is not NUL is consumed and the driver goes on after its CR LF, with a NUL just before the new cursor |
| `Requests.BlankLineStep` | chap8/code/fsm/fsm.cpp:164-172 | a line seen as empty (empty, or starting with NUL) in the header state gives GET_REQUEST |
| `Requests.HeadersThenBlank` | chap8/code/fsm/fsm.cpp:153-172 | any number of header lines, then a line seen as empty, give GET_REQUEST |
| `Requests.HeadersShape` | chap8/code/fsm/fsm.cpp:153-172 | conversely, GET_REQUEST in the header state means the buffer holds header lines, then a line seen as empty, from the cursor on |
| `Requests.AcceptedStep` | chap8/code/fsm/fsm.cpp:158-163 | an accepted request line gives NO_REQUEST and CHECK_STATE_HEADER |
| `Requests.RequestLineStep` | chap8/code/fsm/fsm.cpp:153-163 | a request line at offset 0 whose C string is accepted moves the driver to the header state after its CR LF, with the later bytes untouched |
| `Requests.RequestLineShape` | chap8/code/fsm/fsm.cpp:153-163 | conversely, GET_REQUEST from the initial state began with such a request line |
| `Requests.DriveAtEnd` | chap8/code/fsm/fsm.cpp:153-183 | with the cursor at `read_index` the driver returns NO_REQUEST and changes nothing |
| `Requests.ShapeAccepted` | chap8/code/fsm/fsm.cpp:144-184 | a request line whose C string is accepted, header lines, a line seen as empty and anything after give GET_REQUEST |
| `Requests.GetShape` | chap8/code/fsm/fsm.cpp:144-184 | conversely, GET_REQUEST from the initial state means the bytes split into exactly those parts |
| `Requests.GetExactlyComplete` | chap8/code/fsm/fsm.cpp:144-184 | GET_REQUEST from the initial state if and only if the bytes start with a complete request |
| `Requests.NulLineEndsHeaders` | chap8/code/fsm/fsm.cpp:129 | a second line starting with NUL completes the request after an accepted request line |
| `Requests.CompleteRequestAccepted` | chap8/code/fsm/fsm.cpp:144-184 | for lines without NUL: an accepted request line, header lines and the empty line give GET_REQUEST, whatever follows |
| `Requests.RequestLineWaits` | chap8/code/fsm/fsm.cpp:153-183 | an accepted request line alone leaves the driver waiting in the header state with both cursors at the end |
| `Requests.RejectedRequestLine` | chap8/code/fsm/fsm.cpp:159-162 | a complete request line whose C string is rejected gives BAD_REQUEST, whatever follows |
| `Requests.BareLfRejected` | chap8/code/fsm/fsm.cpp:153-183 | a first line ended by LF alone gives BAD_REQUEST in either state, with the cursor on the LF |
| `Requests.UnfinishedLineWaits` | chap8/code/fsm/fsm.cpp:153-183 | an unfinished first line gives NO_REQUEST with the cursor at the end, or on a final CR |
| `Requests.PathRequestLine` | chap8/code/fsm/fsm.cpp:84-123 | `GET TAB /path TAB HTTP/1.1` is accepted with the path as its URL |
| `Requests.GetLine` | chap8/code/fsm/fsm.cpp:84-123 | such a line holds no CR, LF or NUL and is accepted in every state |
| `Requests.ExampleLine` | chap8/code/fsm/fsm.cpp:84-123 | "GET\t/index.html\tHTTP/1.1" is accepted |
| `Requests.ExampleHeader` | chap8/code/fsm/fsm.cpp:132-135 | "Host:\texample.com" is a non-empty header line |
| `Requests.ExampleRequestAnySplit` | chap8/code/fsm/fsm.cpp:227-250 | "GET\t/index.html\tHTTP/1.1\r\nHost:\texample.com\r\n\r\n" gives GET_REQUEST however it is split into non-empty chunks |
| `Requests.RequestLineAloneWaits` | chap8/code/fsm/fsm.cpp:153-183 | "GET\t/\tHTTP/1.1\r\n" alone gives NO_REQUEST in the header state |
| `Requests.LineThenBlank` | chap8/code/fsm/fsm.cpp:227-250 | an accepted request line in one chunk and the empty line in the next give GET_REQUEST |
| `Requests.RequestLineThenBlank` | chap8/code/fsm/fsm.cpp:227-250 | the same for "GET\t/\tHTTP/1.1\r\n" then "\r\n" |
| `Requests.BareLfExample` | chap8/code/fsm/fsm.cpp:61-71 | "GET\t/\tHTTP/1.1\n" gives BAD_REQUEST |
| `Parser.RequestParser.constructor` | chap8/code/fsm/fsm.cpp:219-226 | a zero-filled 4096-byte buffer, all cursors 0, expecting the request line: the initial state of the value model |
| `Parser.RequestParser.Receive` | chap8/code/fsm/fsm.cpp:228-237 | the received bytes grow by the chunk, `read_index` by its length, and the bytes after it stay as they were |
| `Parser.RequestParser.Terminate` | chap8/code/fsm/fsm.cpp:53-66 | the two bytes of a terminator become NUL and nothing else changes |
| `Parser.RequestParser.ParseLine` | chap8/code/fsm/fsm.cpp:40-76 | the verdict, cursor and buffer are exactly `LineScanner.ScanLine` of the old received bytes and cursor; the bytes at and after `read_index` are untouched |
| `Parser.RequestParser.InterpretLine` | chap8/code/fsm/fsm.cpp:154-176 | code, buffer, line start and state are exactly `Content.Step` of the old state, the request line's NUL writes included |
| `Parser.RequestParser.ParseContent` | chap8/code/fsm/fsm.cpp:144-184 | code, buffer, cursors and state are exactly `Content.Drive` of the old state; the cursor ordering is kept and the bytes at and after `read_index` are untouched |
| `Parser.RequestParser.Feed` | chap8/code/fsm/fsm.cpp:228-238 | one turn of the receive loop: the result is `Content.Drive` over the old bytes plus the chunk |

## Left out

- `main` (lines 187-254) does socket setup, `bind`/`listen`/`accept`, `send` of the two reply messages, `close` and argument parsing. This is I/O and is not modelled. What `recv` returns is a parameter: a chunk in `Connection.Session` and `Parser.RequestParser.Receive`.
- A `recv` failure (returning -1, lines 229-232) is not modelled because it is I/O. An empty chunk stands for the peer closing the connection (lines 233-236).
- The `printf` diagnostics (lines 91, 119, 135, 138) are output only. The normalised URL and the Host value are returned as values instead.
- A full buffer (`read_index == BUFFER_SIZE`) is not modelled. There the program calls `recv` with a length of 0 (line 228), and the 0 it returns ends the loop as a closed connection (lines 233-236). `Connection.Session` has no 4096-byte bound and keeps accepting chunks. `Parser.RequestParser.Receive` requires the chunk to fit in the room left.
- FORBIDDEN_REQUEST and CLOSED_CONNECTION are declared but never produced by the parser, so the model never produces them either.
- The `default: return INTERNAL_ERROR` branch (lines 173-174) is left out. The state is a closed two-value datatype, so the branch cannot be reached.
- The BAD_REQUEST test after `parse_headers` (lines 166-168) is left out. `Headers.ParseHeaders` is proved never to return BAD_REQUEST, so the test never fires.
- Strings are ASCII text in the C locale. `tolower` changes only 'A' to 'Z'. Locale-dependent case folding and multi-byte text are not modelled.
- The value model carries only the received bytes `buffer[0 .. read_index)`. The parser never reads or writes beyond them, which `Parser.RequestParser` proves for the array.
- `Connection.SessionMatchesOneShot` requires non-empty chunks, because an empty chunk ends the loop as a closed connection.
