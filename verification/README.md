# Request queue, dispatch and admission of a small threaded file server

This project models the sequential logic of `src/request.c`, a static-file
HTTP/1.0 server with a fixed pool of worker threads. The threading is
removed. What remains:

- **The request buffer** (`RequestQueue`). It is an ordered, bounded
  sequence of `Request {fd, filesize, filename}`. Enqueue appends at the
  tail. Removal takes one entry out and keeps the survivors in order. Each
  wait on a condition variable becomes a precondition.
- **The dispatch policy** (`Dispatch`). It selects an index:
  - FIFO takes 0.
  - Smallest-file-first takes the first strict minimum.
  - Random takes `r % count`. Here `r` is a parameter standing for `rand()`.
- **The worker** (`Worker`). A worker has a private gate counter
  (`thread_count`). It may dequeue only when `count > 0` and
  `count >= gate`. Each dequeue lowers the gate by one.
- **Target resolution** (`Uri`). `request_parse_uri` sorts a target into
  static or CGI, builds the file path and splits off CGI arguments.
  `request_get_filetype` picks the Content-Type.
- **The admission decision** (`Admission`). This is the branching of
  `request_handle`: 501 for a non-GET method, 404 when `stat` fails, 403
  for a static target that is not a readable regular file, 501 for an
  existing CGI target, and otherwise a request to enqueue.
- **Response composition** (`Http`). It builds the `request_error` page and
  the header of `request_serve_static`. The Content-Length values are shown
  to read back as the length of the body.
- **Helpers**. `CStrings` holds `strstr`, `index` and `strcasecmp` over
  `string`. `Decimal` holds `%d` / `%lu` and their parsers.

Inputs the code gets from outside are parameters:
- `stat` is a map from path to `FileMeta(isRegular, userReadable, size)`.
  A path missing from the map is one on which `stat` fails.
- `rand()` is a natural number `r`.
- The compile-time buffer size `DEFAULT_BUFFER_SIZE` is the parameter
  `capacity`. Its value is set in `request.h`, which is not part of this
  model.

Behaviour of the code that the model keeps on purpose:
- The buffer bound is `DEFAULT_BUFFER_SIZE`, not the configurable
  `buffer_max_size`. `Enqueue` takes the compile-time capacity, and
  `buffer_max_size` plays no part in the model.
- The file type is found by substring (`strstr`), not by suffix. A path
  such as `./a.html.bak` is served as text/html.
- The method comparison ignores case. Eight spellings of GET pass.
- `stat` runs before the static/dynamic branch. A CGI target whose file is
  missing gets 404, not 501.
- The gate counter has no floor and is never reset. It goes negative.
- `filesize` is a C `int` filled from `st_size`. `ToInt32` reduces it
  modulo 2^32 into the signed range, following GCC's rule for an
  out-of-range signed conversion. Sizes of 2^31 bytes or more are stored
  wrongly, and smallest-file-first then compares the wrapped values.
- An empty regular file passes admission and is queued. Serving it maps
  zero bytes (src/request.c:141), the mapping fails, and the process ends
  before anything is written. `StaticResponse` therefore takes only a
  positive size, and no empty-file response exists in the model.
- The `count <= 0` test in the random branch (src/request.c:198-201) can
  never fire. The worker only leaves its waiting loops with `count > 0`.
  If `gate <= 0`, the busy-wait loop is never entered. If `gate >= 1`, it
  exits only with `count >= gate >= 1`. So `MayDequeue` includes `|q| > 0`
  and the model has no such branch.

## Model

| member | source | states |
|---|---|---|
| `CStrings.ContainsIsSubstring` | src/request.c:93 | the left-to-right `strstr` scan succeeds exactly when the pattern occurs at some position of the string |
| `CStrings.IndexOf` | src/request.c:103 | `index` finds nothing exactly when the character is absent; otherwise the position holds the character and no earlier position does |
| `CStrings.IndexOfFirst` | src/request.c:103 | any position that holds the character with none before it is the one `index` returns |
| `CStrings.NoFirstCharNoSubstring` | src/request.c:93 | a string that lacks the first character of a pattern does not contain the pattern |
| `Decimal.NatToDecimal` | src/request.c:63 | `%lu` gives a non-empty run of digits with no leading zero unless the value is 0 |
| `Decimal.ParseNatToDecimal` | src/request.c:63 | reading the `%lu` rendering as a number gives the value back |
| `Decimal.IntToDecimal` | src/request.c:148 | `%d` puts a minus sign first exactly for negative values, then digits |
| `Decimal.ParseIntToDecimal` | src/request.c:148 | the `%d` rendering is a well-formed signed decimal that reads back as the value |
| `RequestQueue.ToInt32` | src/request.c:15 | storing into the `int` field gives a value in the 32-bit signed range, congruent to the input modulo 2^32, and equal to it when it fits |
| `RequestQueue.MakeRequest` | src/request.c:267-270 | the stored record carries the socket and the path; the size is `ToInt32(st_size)`: exact below 2^31 and never equal to `st_size` at 2^31 and above |
| `RequestQueue.HugeFilesWrap` | src/request.c:269 | a file of 2^32 + 10 bytes is recorded as 10 bytes and one of 2^31 bytes as -2^31, so smallest-file-first compares the wrapped sizes |
| `RequestQueue.Enqueue` | src/request.c:262-271 | allowed only when the count is below capacity; the request lands at index `count`, earlier entries are unchanged, the count grows by one and stays within capacity |
| `RequestQueue.RemoveAt` | src/request.c:205-209 | the count drops by one; entries before `idx` stay put; later ones move one slot left; the multiset loses exactly the chosen entry |
| `RequestQueue.ShiftOut` | src/request.c:205-209 | the in-place left shift followed by dropping the last slot returns the saved entry at `idx` and leaves exactly `RemoveAt` |
| `RequestQueue.EnqueueKeepsInvariant` | src/request.c:262-271 | appending a request on a socket not already queued keeps the count within capacity and the sockets distinct |
| `RequestQueue.RemoveAtKeepsInvariant` | src/request.c:205-209 | removing any entry keeps the count within capacity and the sockets distinct |
| `Dispatch.PolicyOf` | src/request.c:187-203 | `scheduling_algo` 1 selects smallest-file-first, 2 selects random, every other value FIFO |
| `Dispatch.ScanSmallest` | src/request.c:188-195 | continuing the strict-`<` scan from a first minimum of a prefix ends at the first minimum of the whole buffer |
| `Dispatch.SelectSmallest` | src/request.c:187-195 | the chosen entry's size is at most every present size, and every earlier entry is strictly larger (ties go to the lowest index) |
| `Dispatch.FirstMinimumUnique` | src/request.c:187-195 | at most one index satisfies the smallest-file-first choice, so the choice is determined by the buffer |
| `Dispatch.SelectIndex` | src/request.c:184-203 | the index is within `[0, count)`: 0 under FIFO, `r % count` under random, the first minimum under smallest-file-first |
| `Dispatch.RandomReachesEveryIndex` | src/request.c:202 | every present entry is the random choice for some draw |
| `Worker.GateOpenAtOne` | src/request.c:172-181 | once the gate is at most 1, the worker waits only for a non-empty buffer |
| `Worker.Dequeue` | src/request.c:170-213 | only with `count > 0` and `count >= gate`; the served entry is the one at the chosen index, the rest keep their order, the count and the gate each drop by exactly one |
| `Worker.GateGoesNegative` | src/request.c:210 | the gate has no floor: a dequeue at gate 0 leaves it at -1 |
| `Worker.Drain` | src/request.c:168-212 | a worker emptying the buffer with no admissions in between serves every queued request exactly once, the gate never blocks it, and its gate ends exactly `|q|` lower than it began |
| `Worker.GateOpensAfterStart` | src/request.c:168-210 | a worker started with `num_threads` that has drained at least that many requests has gate `num_threads - |q|` <= 0 and from then on waits only for a non-empty buffer |
| `Worker.FifoServesInOrder` | src/request.c:184 | under FIFO, a single worker serves requests in admission order |
| `Worker.SmallestFirstServesSorted` | src/request.c:187-209 | under smallest-file-first, a draining worker serves requests in non-decreasing size |
| `Worker.SmallestFirstScenario` | src/request.c:187-195 | with sizes 100 then 10 queued and the gate satisfied, the 10-byte request is served first |
| `Worker.SmallerSecondIsChosen` | src/request.c:187-209 | with a smaller entry behind a larger one, smallest-file-first serves the second entry, leaves the first, and lowers the gate from 2 to 1 |
| `Uri.ParseUri` | src/request.c:90-113 | static exactly when "cgi" does not occur. Static: no CGI args, path is "." + target, plus "index.html" exactly when the target ends in '/'. Dynamic: path is "." + text before the first '?' (no '?' in it), CGI args are the text after it (or empty) |
| `Uri.FileType` | src/request.c:118-127 | text/html exactly when ".html" occurs anywhere; otherwise image/gif when ".gif" occurs; otherwise image/jpeg when ".jpg" occurs; otherwise text/plain |
| `Uri.FileTypeIgnoresSuffix` | src/request.c:119-120 | a path containing ".html" anywhere, not only at the end, is typed text/html |
| `Uri.FileTypeHtmlFirst` | src/request.c:119-124 | ".html" beats ".gif" and ".jpg" whatever their positions |
| `Uri.DirectoryTargetIsHtml` | src/request.c:97-98 | a static target ending in '/' resolves to its index page, which is typed text/html |
| `Http.Serialize` | src/request.c:57-67 | the output starts with `HTTP/1.0 <code> <reason>` and CRLF, every header line `name: value` CRLF occurs before the body, the head ends with an empty line, and the final `|body|` bytes are exactly the body |
| `Http.ErrorBodyMentionsAll` | src/request.c:45-54 | the error page contains the status code, the short message, the long message and the cause |
| `Http.ErrorResponse` | src/request.c:41-67 | status line from the code and short message, Content-Type text/html, Content-Length made of digits that read back as the body's length |
| `Http.ErrorResponseOnWire` | src/request.c:57-67 | on the wire, the head of an error response carries `Content-Type: text/html` and `Content-Length: n` with `n` the length of the body that follows, and the body follows it |
| `Http.StaticResponse` | src/request.c:132-157 | for a positive size, a 200 OK whose Content-Type is the label chosen for the path and whose Content-Length reads back as the size of the mapped view sent as the body |
| `Http.StaticResponseOnWire` | src/request.c:145-155 | the bytes written are the format string of the source: `HTTP/1.0 200 OK`, `Server: OSTEP WebServer`, `Content-Length: %d`, `Content-Type: %s`, an empty line, then the file |
| `Admission.IsGetSpellings` | src/request.c:237 | the method test accepts exactly the eight upper/lower-case spellings of GET |
| `Admission.Admit` | src/request.c:237-278 | a non-GET method gets the 501 method page; an accepted request carries the connection's socket and an existing path; every refusal is 403, 404 or 501 |
| `Admission.AcceptedExactly` | src/request.c:244-271 | a request is queued exactly when the method is GET, "cgi" does not occur in the target, and the path names a regular, user-readable file. The queued record is built from the socket, `st_size` and the path |
| `Admission.MissingIsNotFound` | src/request.c:247-250 | a GET whose path `stat` cannot find gets 404 with the path as cause, static and dynamic alike |
| `Admission.UnreadableIsForbidden` | src/request.c:253-257 | a static GET on an existing path that is not a regular file, or lacks the owner-read bit, gets 403 |
| `Admission.ExistingDynamicIsNotImplemented` | src/request.c:276-277 | a GET on an existing CGI target gets the 501 dynamic-content page |
| `Admission.StaticPathOf` | src/request.c:96 | a static target not ending in '/' resolves to "." followed by the target |
| `Admission.DynamicPathOf` | src/request.c:103-111 | a CGI target whose first '?' is at `k` resolves to "." + the text before `k`, with the text after `k` as CGI args |
| `Admission.MissingPageScenario` | src/request.c:247-249 | GET "/missing.html" with no such file is refused with a 404 whose short message is "Not found" |
| `Admission.IndexPageScenario` | src/request.c:96-98 | GET "/" with a readable "./index.html" queues a request for "./index.html" with its size, typed text/html |
| `Admission.CgiScenario` | src/request.c:103-111 | GET "/script.cgi?x=1" has CGI args "x=1"; it gets 404 when "./script.cgi" is missing and 501 when it exists |
| `Admission.Handle` | src/request.c:225-279 | a refused request gets exactly the error page of its refusal (403, 404 or 501) and leaves the buffer unchanged; an accepted one appends exactly the admitted record at the tail; the buffer never exceeds capacity |
| `Admission.HandleKeepsInvariant` | src/request.c:244-271 | handling a connection whose socket is not queued keeps the buffer within capacity with distinct sockets, whether it is refused or queued |
| `Admission.NonGetNeverQueued` | src/request.c:237-240 | a non-GET request never reaches the buffer and always gets the 501 page |

## Left out

- Mutex, condition variables and `pthread_once` (src/request.c:23-25, 31-36, 165-166, 170-174, 213-214, 259-274). Their only purpose is concurrency. Each wait is a precondition (`Enqueue`: count below capacity; `Dequeue`: `MayDequeue`). Signals are not modelled.
- The `usleep` busy-wait (src/request.c:177-181). Only its exit condition is kept, inside `MayDequeue`.
- Socket and file I/O: `readline_or_die`, `write_or_die`, `open_or_die`, `mmap_or_die`, `munmap_or_die`, `close_or_die`, and `request_read_headers` (src/request.c:76-84). These are foreign calls that end the process on failure. The mapped file is the `view` parameter of `StaticResponse`.
- `stat()` and `rand()`. They are replaced by the file-system map and the draw `r`.
- `sscanf` splitting of the request line (src/request.c:233). Method and target come in already split.
- `printf` debugging output (src/request.c:192, 234).
- `MAXBUF` fixed buffers and their overflow (src/request.c:6, 16, 42, 228-229). Strings are unbounded, and the only demand kept is that the target is non-empty once the method is GET. A C string is modelled by its characters before the terminator. `sscanf` never yields a NUL inside a token.
- The values of `DEFAULT_THREADS`, `DEFAULT_BUFFER_SIZE` and `DEFAULT_SCHED_ALGO`. `request.h` is not part of this model, so they are the parameters `numThreads`, `capacity` and `algo`.
- Worker.Dequeue: `thread_count` is an unbounded integer. The C `int` would overflow only after about 2^31 dequeues by one worker, and that is not modelled.
- `Dispatch.SelectIndex`: `rand()` is any natural number. Its range `[0, RAND_MAX]` and its distribution are not modelled. Uniformity is therefore not stated; only that every index can be chosen.
- Several workers taking turns, and admissions between dequeues, are not modelled as one trace. Each step is proved to keep `QueueInvariant`, and `Drain` covers one worker emptying the buffer.
