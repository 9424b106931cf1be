# A Dafny model of the webserver's HTTP connection parser and thread pool

This project models two parts of a small C++ epoll web server.

- **`http_conn`** is one client connection. It has a fixed 2048-byte read
  buffer and the indices of a line-oriented HTTP request parser:
  - the read index, i.e. the bytes received so far;
  - the checked index, i.e. how far line scanning has got;
  - the start of the current line.

  `read()` drains a non-blocking socket into the buffer. `parse_line()`
  finds the next CRLF and overwrites it with NULs. `parse_request_line()`
  splits `METHOD TARGET VERSION` at blanks and checks each part.
  `process_read()` is the main state machine over the request-line, header
  and content states. Nothing sets the content state: `parse_request_line`
  moves only to the header state (`webserver/http_conn.cpp:236`), and
  `parse_headers` has an empty body. So the content branch runs only
  through the header case's missing `break`.
- **`Threadpool<T>`** is the request queue shared by the worker threads. It
  has a list of request pointers, a semaphore counting posted work and a
  stop flag. `append` queues a request, unless the queue is over its limit.
  Each iteration of a worker's `run` loop takes the front request and calls
  its `process()`.

The model has six modules:

| file | module | form |
|---|---|---|
| `wrappers.dfy` | `Wrappers` | `Option` |
| `cstring.dfy` | `CString` | bytes, and the C string routines the parser calls (`strpbrk`, `strchr`, `strcasecmp`, `strncasecmp`) over NUL-terminated byte sequences |
| `http_parser.dfy` | `HttpParser` | the parser as pure functions over a value snapshot `ConnState` of a connection, with the lemmas about them |
| `http_conn.dfy` | `HttpConnection` | `class HttpConn`: the same operations in place, on an `array<byte>` buffer and mutable fields; each method is proved equal to its function in `HttpParser` |
| `request_queue.dfy` | `RequestQueue` | the pool's queue, semaphore and stop flag as a value `PoolState`, one function per operation, runs over arbitrary event sequences, and lemmas about them |
| `threadpool.dfy` | `WorkerPool` | `class Threadpool<T>` with those fields updated in place; each method is proved equal to its function in `RequestQueue` |

Some functions the parser calls have no usable body. `parse_headers`,
`parse_content` and `do_request` have empty bodies
(`webserver/http_conn.cpp:241-252`). `get_line` is called at line 125 but
defined nowhere. All four are parameters of the model, the four fields of a
`Handlers` value. The socket's
`recv` is a parameter too: a function from the call number and the room
offered to an outcome. `RecvContract` constrains it: a call that delivers
bytes delivers at least one and no more than it was offered.

`http_conn.h` declares only part of the class. The parser's members
(`m_check_state`, `m_checked_index`, `m_start_line`, `m_url`, `m_version`,
`m_method`, `m_linger`) and `get_line` are used in `http_conn.cpp` but not
declared in the header. The model takes their types from that use.

### Behaviour of the code as written

The model follows the code wherever the code and its documentation differ.

- **The version literal is `"HTTP/1,1"`, with a comma**
  (`webserver/http_conn.cpp:222`). So the standard request line
  `GET / HTTP/1.1` is rejected with BAD_REQUEST, and `GET / HTTP/1,1` is
  accepted. `HttpParser.VersionLiteralHasComma` proves both.
- **The scheme check calls `strcasecmp` with three arguments**
  (`webserver/http_conn.cpp:227`). Its evident meaning is
  `strncasecmp(url, "http://", 7)`. That is how it is modelled: `CasePrefix`
  tests a case-insensitive 7-byte prefix.
- **A request line without a blank walks into a NULL pointer.**
  `strpbrk` returns NULL there, and line 206 writes through the result.
  `ReadLoop` returns the outcome `NullDeref` in that case.
  `HttpConn.ProcessRead` and `Process` demand, as a precondition, that the
  loop does not reach it.
- **A malformed line is not an error.** When `parse_line` returns LINE_BAD,
  the loop ends and `process_read` returns NO_REQUEST (line 163), just as
  for an incomplete line.
- **The HEADER case has no `break`** (lines 137-145). Unless
  `parse_headers` returns BAD_REQUEST or GET_REQUEST, `parse_content` runs
  on the same line.
- **The LF branch of `parse_line` tests `m_checked_index > 1`**
  (line 183). So an LF at index 1 after a CR at index 0 is LINE_BAD when a
  scan starts on it (`ScanBareLf`). No scan reachable from `init()` starts
  there, though. A CR read as the last byte at index 0 leaves the index on
  the CR (`ScanCrAtEnd`). The next scan then takes the CR branch and
  completes the line (`ScanCrThenLf`). So the `> 1` test never decides the
  outcome.
- **`m_start_line` is never advanced.** `init()` is the only place that
  sets it, to 0.
- **The queue bound uses `>` rather than `>=`** (`webserver/threadpool.h:79`).
  So the queue can hold `max_request + 1` entries.
  `RequestQueue.AppendAdmitsOneOverLimit` shows the bound is reached, and
  `RequestQueue.RunKeepsBound` shows it is never exceeded.
- `process()` re-arms the socket through an identifier `e_epollfd` (line 275)
  that appears nowhere else. It is modelled as the re-arm the surrounding
  code evidently means: the result `rearm`.

## Model

| member | source | states |
|---|---|---|
| CString.Strpbrk | webserver/http_conn.cpp:203-206 | the result is the first position of the C string holding an accepted byte, with none before it; or no position, when the string has none |
| CString.LowerAll | webserver/http_conn.cpp:209 | every byte passed through ASCII tolower, the comparison key of strcasecmp |
| CString.CaseEqLowered | webserver/http_conn.cpp:209 | the case-insensitive equality used for the method and version checks holds exactly when the lowered strings are equal (both directions), as strcasecmp compares them |
| CString.CasePrefixLowered | webserver/http_conn.cpp:227 | the 7-byte scheme check holds exactly when the string is at least as long as the literal and its lowered prefix equals the lowered literal, as strncasecmp(…, 7) compares them |
| CString.CaseInsensitiveLiterals | webserver/http_conn.cpp:209 | "get" passes the method check and "HTTP://h" the scheme check, but "GETS" and the short "http:/" do not |
| CString.StrpbrkSuffix | webserver/http_conn.cpp:216 | strpbrk reads only from its start on: sequences that agree from there give the same answer |
| HttpParser.Reset | webserver/http_conn.cpp:62-74 | the state init() leaves is well formed: a full-size buffer and indices in order |
| HttpParser.ScanLine | webserver/http_conn.cpp:167-192 | parse_line keeps the buffer size, never moves the checked index past the read index and only forward, and changes the buffer only on LINE_OK, when it NULs exactly the two bytes before the new index |
| HttpParser.ScanSkips | webserver/http_conn.cpp:170-171 | bytes other than CR and LF are stepped over without effect |
| HttpParser.ScanNoTerminator | webserver/http_conn.cpp:170-192 | with no CR or LF before the read index: LINE_OPEN, the index at the read index, the buffer unchanged |
| HttpParser.ScanCrAtEnd | webserver/http_conn.cpp:172-174 | a CR as the last byte read: LINE_OPEN with the index left on the CR |
| HttpParser.ScanCrLf | webserver/http_conn.cpp:175-178 | the first terminator is CR LF: LINE_OK, both bytes NUL, the index just past the LF |
| HttpParser.ScanCrWithoutLf | webserver/http_conn.cpp:172-180 | a CR followed by anything but LF: LINE_BAD with the index on the CR |
| HttpParser.ScanBareLf | webserver/http_conn.cpp:181-189 | an LF not preceded by CR, or at index 0 or 1: LINE_BAD with the index on the LF |
| HttpParser.ScanLfAfterCr | webserver/http_conn.cpp:183-187 | a scan starting on an LF after a CR past index 1: LINE_OK, both NUL, the index past the LF |
| HttpParser.ScanOpenStops | webserver/http_conn.cpp:173-174 | an incomplete scan saw no terminator, and stopped at the read index or on a final CR |
| HttpParser.ScanBadStops | webserver/http_conn.cpp:180 | a failed scan stops on its first CR or LF |
| HttpParser.ScanResumes | webserver/http_conn.cpp:170 | partial reads do not change line extraction: resuming where an incomplete scan stopped, after more bytes arrive, equals rescanning from the start |
| HttpParser.ScanCrThenLf | webserver/http_conn.cpp:181-187 | a CR left at the end is completed by an LF that arrives later |
| HttpParser.ScanStable | webserver/http_conn.cpp:120-121 | an incomplete or failed scan gives the same result when repeated with no new bytes |
| HttpParser.RequestLine | webserver/http_conn.cpp:200-238 | parse_request_line returns only NO_REQUEST or BAD_REQUEST; success sets the header state and both pointers; failure leaves the state; the text keeps its length |
| HttpParser.RequestLineAccepts | webserver/http_conn.cpp:203-237 | the request line is accepted exactly when the method token is GET, a version token follows and equals the literal, and the target starts with '/' or is "http://…" with a later '/', all up to ASCII case (both directions) |
| HttpParser.MethodToken | webserver/http_conn.cpp:206-209 | after the first blank becomes NUL, the method string is the bytes before it |
| HttpParser.TargetToken | webserver/http_conn.cpp:216-221 | after both blanks become NUL, the url string is the bytes between them |
| HttpParser.SchemeSlash | webserver/http_conn.cpp:227-232 | after "http://", strchr finds a '/' exactly when the target has one past the scheme |
| HttpParser.AfterVersionSplit | webserver/http_conn.cpp:221-237 | once both blanks are found, acceptance is the version and target checks |
| HttpParser.TargetPointer | webserver/http_conn.cpp:227-230 | m_url after the scheme check: null, the target's start, or a '/' at least 7 bytes past it when the target starts with "http://" |
| HttpParser.RequestLineUrl | webserver/http_conn.cpp:203-237 | on success m_url points at a '/' strictly between the two blanks, and its C string is the target from there to the second blank; it is the target's start unless the target begins with "http://", when it is the first '/' after the scheme |
| HttpParser.RequestLineVersion | webserver/http_conn.cpp:209-224 | once the method is GET and a second blank at v follows the first, m_version points at v + 1 and its C string is the version token of the original line, whatever the version and target checks then decide |
| HttpParser.AcceptedText | webserver/http_conn.cpp:203-224 | past a GET method and a second blank, the text keeps every byte except its two blanks, which become NUL, and m_version is set just past the second blank |
| HttpParser.AcceptedShape | webserver/http_conn.cpp:203-237 | an accepted line is split at its two blanks, with url from the scheme check, version past the second blank and the header state |
| HttpParser.TargetPointerFacts | webserver/http_conn.cpp:227-234 | a url that passes the '/' check lies inside the target, with the position the scheme rule gives |
| HttpParser.RequestLineNeedsVersion | webserver/http_conn.cpp:216-219 | a line with no second blank is BAD_REQUEST |
| HttpParser.VersionLiteralHasComma | webserver/http_conn.cpp:222 | "GET / HTTP/1,1" is accepted and "GET / HTTP/1.1" is rejected |
| HttpParser.LoopPass | webserver/http_conn.cpp:120-161 | a loop pass that goes round again lowers the variant (unscanned bytes, plus one for a pending content pass), so process_read terminates; the read index and line start never change, and the checked index only grows |
| HttpParser.Dispatch | webserver/http_conn.cpp:125-160 | the switch leaves the indices as they were; a pass that continues is in the header state or has set LINE_OPEN |
| HttpParser.ReadLoop | webserver/http_conn.cpp:114-164 | process_read leaves a well-formed state with the read index and line start unchanged and the checked index not decreased |
| HttpParser.ReadLoopStopsOnIncompleteOrBadLine | webserver/http_conn.cpp:120-163 | LINE_OPEN and LINE_BAD both give NO_REQUEST after one scan, and a repeat changes nothing |
| HttpParser.ReadLoopRejectsRequestLine | webserver/http_conn.cpp:129-133 | a rejected request line ends process_read with BAD_REQUEST, still in the request-line state |
| HttpParser.ReadLoopAcceptsRequestLine | webserver/http_conn.cpp:129-135 | an accepted request line moves to the header state and the loop goes on with the next line |
| HttpParser.ReadLoopHeaderFallsThrough | webserver/http_conn.cpp:137-155 | a header result other than BAD_REQUEST or GET_REQUEST falls into parse_content; the loop then returns do_request() or continues with LINE_OPEN |
| HttpParser.ReadLoopContentSkipsScan | webserver/http_conn.cpp:120-155 | in the content state with LINE_OK, parse_content runs without extracting a line |
| HttpParser.ReadLoopAfterReset | webserver/http_conn.cpp:114-164 | right after init(), process_read returns NO_REQUEST and changes nothing |
| HttpParser.Receive | webserver/http_conn.cpp:94-110 | the receive loop only moves the read index up, within the buffer, and keeps every byte before the old index and after the new one |
| HttpParser.Delivered | webserver/http_conn.cpp:96-108 | the bytes taken never exceed the room left in the buffer |
| HttpParser.FinalOutcome | webserver/http_conn.cpp:97-106 | the loop ends on a call that delivered no bytes |
| HttpParser.ReceiveCount | webserver/http_conn.cpp:108 | the read index advances by exactly the number of bytes delivered |
| HttpParser.ReceiveBytes | webserver/http_conn.cpp:96-108 | the delivered bytes land, in order, right behind the old read index, and no other byte changes |
| HttpParser.ReceiveOk | webserver/http_conn.cpp:97-110 | read() returns true exactly when its last recv call would block; an error or a zero-length read gives false |
| HttpParser.ReadBuffer | webserver/http_conn.cpp:85-111 | read() moves the read index only forward, within the buffer, keeps every byte outside the newly filled stretch, and fails at once without change on a full buffer (:88-90) |
| HttpParser.ReadBufferFails | webserver/http_conn.cpp:88-105 | a full buffer, an error other than EAGAIN/EWOULDBLOCK, or a closed peer makes read() return false |
| HttpConnection.Users.constructor | webserver/http_conn.cpp:4 | the user counter starts at zero |
| HttpConnection.HttpConn.constructor | webserver/http_conn.cpp:259-261 | a fresh connection with its own buffer of READ_BUFFER_SIZE bytes |
| HttpConnection.HttpConn.Open | webserver/http_conn.cpp:45-58 | init(sockfd, addr) takes the socket, counts one more user and leaves the reset state |
| HttpConnection.HttpConn.Init | webserver/http_conn.cpp:62-74 | init() leaves exactly the state Reset describes, including an all-NUL buffer, and keeps the socket |
| HttpConnection.HttpConn.CloseConn | webserver/http_conn.cpp:77-83 | the socket becomes -1; the user count drops by one only if the socket was open, so closing twice counts once |
| HttpConnection.HttpConn.Read | webserver/http_conn.cpp:85-111 | runs the receive loop in place; its result, read index and buffer are those of ReadBuffer |
| HttpConnection.HttpConn.Store | webserver/http_conn.cpp:96 | recv's write into the buffer at the read index: the delivered bytes land there in order and every other byte is kept |
| HttpConnection.HttpConn.ParseLine | webserver/http_conn.cpp:167-192 | scans the array in place with the result, checked index and buffer of ScanLine |
| HttpConnection.HttpConn.ParseRequestLine | webserver/http_conn.cpp:200-238 | splits the text in place with the result, text, pointers and state of RequestLine |
| HttpConnection.HttpConn.Dispatch | webserver/http_conn.cpp:125-160 | the switch, in place, with the outcome of HttpParser.Dispatch |
| HttpConnection.HttpConn.LoopBody | webserver/http_conn.cpp:120-160 | one pass of the loop, in place, with the outcome of LoopPass |
| HttpConnection.HttpConn.ProcessRead | webserver/http_conn.cpp:114-164 | process_read in place: its code and final state are those of ReadLoop |
| HttpConnection.HttpConn.Process | webserver/http_conn.cpp:268-281 | parses, and asks to re-arm the socket for input exactly when the request is incomplete (NO_REQUEST) |
| RequestQueue.Append | webserver/threadpool.h:77-88 | append keeps the queue's existing entries in front, adds at most one, never takes a queue within max_request + 1 past it, keeps the semaphore's surplus over the queue length, and leaves the stop flag |
| RequestQueue.WorkerStep | webserver/threadpool.h:98-116 | one iteration of run() removes nothing or exactly the front entry, never raises the semaphore, keeps semaphore and queue length equal when they were, and exits exactly when stopped |
| RequestQueue.AppendEffect | webserver/threadpool.h:77-88 | append refuses exactly when the queue holds more than max_request entries, and then changes nothing; otherwise it adds the request at the back and posts the semaphore once |
| RequestQueue.AppendAdmitsOneOverLimit | webserver/threadpool.h:79 | a queue of exactly max_request entries still accepts one more, reaching max_request + 1 |
| RequestQueue.WorkerStepTakesFront | webserver/threadpool.h:99-114 | a worker iteration takes a request exactly when not stopped, the semaphore is positive and the queue is non-empty; it removes exactly the front entry and processes it unless it is null; on an empty queue nothing is removed |
| RequestQueue.NonNullFromQueue | webserver/threadpool.h:110-112 | the requests that can reach process() are no more than the queued entries, and each of them was a queued non-null entry |
| RequestQueue.NonNullConcat | webserver/threadpool.h:84-108 | the non-null requests of two queue stretches are those of each, in order |
| RequestQueue.RunKeepsBound | webserver/threadpool.h:79-84 | over any interleaving of appends and worker iterations, the queue never exceeds max_request + 1 entries |
| RequestQueue.RunKeepsBalance | webserver/threadpool.h:84-108 | the semaphore's count equals the queue's length over any run that starts with them equal |
| RequestQueue.ApplyIsFifo | webserver/threadpool.h:84-114 | a single append or worker iteration keeps the queue first-in first-out |
| RequestQueue.RunIsFifo | webserver/threadpool.h:84-114 | the non-null requests queued or accepted during a run are exactly those processed, in the same order, followed by those still queued |
| RequestQueue.FifoFromEmpty | webserver/threadpool.h:84-114 | from an empty queue, requests reach process() in the order append accepted them |
| WorkerPool.Threadpool.constructor | webserver/threadpool.h:36-41 | a pool with the given sizes, an empty queue, a zero semaphore and no stop |
| WorkerPool.Threadpool.CreateDefault | webserver/threadpool.h:17 | the default arguments, 8 threads and 10000 requests, pass the check and give a fresh, empty pool |
| WorkerPool.Threadpool.Create | webserver/threadpool.h:36-44 | the constructor throws, here None, exactly when the thread number or the maximum is not positive; otherwise a fresh, empty pool |
| WorkerPool.Threadpool.Append | webserver/threadpool.h:77-88 | append in place, with the result and new state of RequestQueue.Append; it keeps the class invariant that the semaphore equals the queue length and the queue holds at most max_request + 1 entries |
| WorkerPool.Threadpool.RunOnce | webserver/threadpool.h:98-116 | one iteration of run() in place, with the step and new state of WorkerStep; it keeps the same class invariant |
| WorkerPool.Threadpool.Stop | webserver/threadpool.h:71-74 | the destructor raises the stop flag and changes nothing else |

## Left out

- Sockets, epoll and signals are not modelled: `setnonblocking`, `addfd`,
  `removefd`, `modfd`, `setsockopt` and the socket address. File descriptors
  are plain integers.
- `recv` is a parameter constrained by `RecvContract`, not a system call.
  `errno` is folded into its outcome.
- The `printf` calls and `write()` are not modelled. `write()` only prints
  and returns true.
- `webserver/main.cpp` is not part of this model. It builds the pool with
  its default arguments (line 44), which `WorkerPool.Threadpool.CreateDefault`
  covers. It then allocates the connection table and binds and listens on a
  socket. It stops after `listen()` without an event loop and returns 0.
- `webserver/locker.h` is not part of this model. It holds the mutex,
  condition and semaphore wrappers, and locking is left out.
- `webserver/threadpool.cpp` is not part of this model. It is a second copy
  of the template definitions and would not compile: it misspells
  `m_max_request`, `m_thread` and `threadpoll`. It also inverts the
  allocation check (`if (m_threads)` at line 15). The model follows the
  header `webserver/threadpool.h`, which is what `main.cpp` includes.
- Concurrency is not modelled. Locking, blocking on the semaphore, thread
  creation and detachment are left out, along with the `worker` trampoline
  and the thread array. Each pool operation is one atomic step, and a
  blocked `wait()` is the step `Blocked`. Interleavings are sequences of
  `Submit`/`Work` events, and `Run` covers all of them.
- RequestQueue.RunKeepsBalance: the semaphore equals the queue length only
  in this atomic reading. In the source, `post()` follows the unlock, so the
  two differ for a moment.
- `run()`'s outer `while (!m_stop)` loop need not end: a worker waits on
  the semaphore until more work arrives. So it is not a looping method.
  One iteration is `RunOnce`, and `Run` covers any sequence of them.
- `RecvContract` and `Handlers` replace the realistic inputs.
  `parse_headers`, `parse_content` and `do_request` have empty bodies
  (lines 241-252), and `get_line` is called at line 125 but defined nowhere.
  So their results are arbitrary parameters (`Handlers`).
  `get_line` would evidently return `m_read_buf + m_start_line`. The model
  keeps its text in a separate field `line`, which the request-line parser
  edits. So the model does not capture that those NUL writes land in the
  read buffer.
- HttpConnection.HttpConn.ProcessRead: requires that no request line lacks
  a blank. In the source, such a line makes `parse_request_line` write
  through a NULL pointer (`webserver/http_conn.cpp:203-206`). The function
  `HttpParser.ReadLoop` models that path as the outcome `NullDeref`.
- HttpConnection.HttpConn.Process: has the same precondition as
  ProcessRead, for the same reason.
- HttpConnection.HttpConn.ParseRequestLine: requires a blank in the line,
  for the same reason.
- The `default: return INTERNAL_ERROR` branch of `process_read`
  (lines 157-159) is not modelled. It cannot be reached with a main state
  of one of the three kinds, and `CheckState` has exactly three.
- HttpConnection.Users: `m_user_count` is a C `int`. The model's counter is
  unbounded, so its 32-bit wrap-around is not modelled.
- The empty bodies of `http_conn()` and `~http_conn()` are not modelled
  beyond allocating the buffer.
- `m_address` is not modelled.
