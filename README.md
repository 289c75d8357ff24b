# FIFO filter server and client: a Dafny model

The system is a small client/server pair that talks over two named pipes.
The client sends a request on the request pipe. A request is a filter name
(`upper`, `lower` or `null`), one newline, and then the input string. The
server reads one request per session, applies the named case mapping to the
payload, and writes the result to the response pipe.

This project models the part of that exchange that carries the logic:

- `read_string`, the server's session: the byte-at-a-time filter scan, the
  single payload read, NUL termination, the early returns on a read error,
  and the write of `strlen(buffer)` bytes.
- `process_string` and its in-place case mapping.
- `handle_arguments`, the client's argument check.
- the `-f` option, which copies the filter name with `strncpy`.
- the three writes that put the request on the pipe.

The modules follow the program's structure:

| module | file | what it holds |
|---|---|---|
| `Wrappers` | `wrappers.dfy` | `Option`, used for NULL pointers and for "no filter decoded" |
| `CStrings` | `cstrings.dfy` | bytes; NUL-terminated strings; `strlen`, `strcpy` and `strncpy` as array methods |
| `Transform` | `transform.dfy` | `toupper`/`tolower`; `process_string` as a loop over an array; its specification `Apply`/`Processed` |
| `Channel` | `channel.dfy` | a named pipe as a class `Fifo` with `Read` and `Write`; `ReadCount`, the value `read` returns |
| `Server` | `server.dfy` | `read_string` as methods over arrays and pipes; the specification functions `FilterScan`, `Decode` and `Serve` |
| `Client` | `client.dfy` | `handle_arguments`, the `-f` copy, the request writes; lemmas joining the client's encoding to the server's decoding |

Modelling choices:

- `FILTER_SIZE` and `BUFFER_SIZE` come from a header that is not part of
  this model. They are the parameters `filterSize` and `bufferSize`
  (`filter.Length` and `buffer.Length` inside methods). The only constraint
  is `2 <= filterSize <= bufferSize`, which the code needs because the
  filter loop writes `buffer[FILTER_SIZE - 1]`.
- A pipe holds every byte ever written to it (`contents`). Readers consume
  it from `pos` on.
- The kernel decides how many bytes one `read` hands over. The model makes
  that choice a parameter, `ready`: a read that finds bytes delivers between
  1 and `count` of them. A read at the end of the data returns 0, or -1 when
  the pipe `fails`. A write to a pipe with no reader (`broken`) appends
  nothing and returns -1, the `EPIPE` result. Neither program changes the
  default action for `SIGPIPE`, under which that write would kill the
  writer instead; see "## Left out".
- `filter[FILTER_SIZE]` in `read_string` is not initialised. The model
  takes its initial bytes as a parameter `stale`.
- Each method is proved against a function of its inputs:
  - `Server.ReadString` against `Server.Serve`.
  - `Server.ReadFilter` against `Server.FilterScan`.
  - `Transform.ProcessString` against `Transform.Processed`.
  - `Client.SetFilterOption` against `Client.OptionFilter`.
  - `Client.SendRequest` against `Client.Encode`.
- The properties are proved as lemmas about those functions.
- `Server.FilterScan` follows the loop step by step. `Server.WindowScan` is
  an independent closed-form statement of the framing rule, and
  `Server.FilterScanIsWindowScan` proves the two equal.

Behaviour of the code that the model keeps as written:

- An over-long filter name is not truncated and used. When no newline
  appears within `FILTER_SIZE - 1` bytes, `buffer` is terminated but never
  copied into `filter`, and `process_string` then compares whatever
  `filter` held before. The model says so: the decoded filter is `None`,
  and `Server.FilterSeen` falls back to `stale`.
- The code looks for the newline only among the first `FILTER_SIZE - 1`
  bytes of the request, so a decoded name has at most `FILTER_SIZE - 2`
  bytes. The client's `-f` copy keeps up to `FILTER_SIZE - 1` bytes, and a
  name of exactly that length is never decoded
  (`Client.LongestFilterNotDecoded`).
- The request carries no length, and the payload read takes whatever is
  queued, up to `BUFFER_SIZE - 1` bytes. A second request already in the
  pipe when the first payload is read is swallowed into the first payload
  and echoed back filtered (`Client.QueuedRequestSwallowed`). After an
  empty input string the payload read likewise runs on into what follows
  (`Client.EmptyPayloadRunsOn`).
- With `-s ""` the client writes the filter and the newline and nothing
  else, and keeps the request pipe open until after its response read
  (client.c:83, 96). The server's payload read (server.c:155) then blocks,
  because a writer is still attached, and client and server wait on each
  other until another client writes; that client's request becomes the
  payload (`Client.EmptyPayloadRunsOn`). The empty request gets an empty
  answer (`Client.RoundTrip`) only once the client's end has been closed.

## Model

| member | source | states |
|---|---|---|
| `CStrings.StrLen` | source/src/server.c:167 | `strlen` on an array returns the index of the first NUL, which is the length of the C string the array holds |
| `CStrings.StrCpy` | source/src/server.c:138 | `strcpy(dst, src)` puts the C string of `src` followed by a NUL at the front of `dst` and leaves the rest of `dst` as it was |
| `CStrings.StrNCpy` | source/src/client.c:120 | `strncpy(dst, src, n)` leaves `dst` holding the first `n` bytes of the C string of `src`, padded with NUL up to `n`; bytes from `n` on are unchanged |
| `Transform.ToUpper` | source/src/server.c:194 | `toupper` in the C locale: lower-case ASCII letters become upper case, every other byte is kept, and the result is never lower case |
| `Transform.ToLower` | source/src/server.c:201 | `tolower` in the C locale: upper-case ASCII letters become lower case, every other byte is kept, and the result is never upper case |
| `Transform.UpperAll` | source/src/server.c:192-195 | the result has the same length and byte `k` is `toupper` of byte `k` |
| `Transform.LowerAll` | source/src/server.c:199-202 | the result has the same length and byte `k` is `tolower` of byte `k` |
| `Transform.ApplyUpper` | source/src/server.c:190-196 | the filter `"upper"` keeps the length, upper-cases every byte and leaves non-lower-case bytes unchanged |
| `Transform.ApplyLower` | source/src/server.c:197-203 | the filter `"lower"` keeps the length, lower-cases every byte and leaves non-upper-case bytes unchanged |
| `Transform.ApplyOther` | source/src/server.c:188-204 | any filter name other than `"upper"` and `"lower"` leaves the string unchanged |
| `Transform.ApplyNull` | source/src/server.c:188-204 | the filter `"null"` leaves the string unchanged |
| `Transform.ApplyIdempotent` | source/src/server.c:188-204 | filtering twice with the same name gives the same result as filtering once |
| `Transform.ApplyUpperThenLower` | source/src/server.c:190-203 | lower-casing an upper-cased string equals lower-casing the original, and the reverse |
| `Transform.ApplyKeepsNul` | source/src/server.c:192-202 | no filter changes the length, creates a NUL or removes one |
| `Transform.ApplySameName` | source/src/server.c:190-197 | `strcmp` sees only the C string: two filter buffers holding the same string select the same filter |
| `Transform.ProcessedString` | source/src/server.c:188-204 | after `process_string` the buffer keeps its length and the position of its first NUL, and the string it holds is the filtered string |
| `Transform.ProcessString` | source/src/server.c:188-204 | the in-place loops leave the array equal to `Processed`: the filtered string, then the NUL and the untouched rest of the buffer |
| `Channel.ReadCount` | source/src/server.c:132-161 | `read` returns -1 only at the end of a failing pipe, a positive count exactly when bytes are left, never more than requested or available, and `min(ready, count)` when the kernel has `ready` bytes |
| `Channel.Fifo.Read` | source/src/server.c:132-161 | `read(fd, &dst[off], count)` returns `ReadCount`, advances the reader by the bytes read, copies them to `dst[off..]` and leaves the other bytes of `dst` unchanged |
| `Channel.Fifo.Write` | source/src/server.c:167 | `write` appends all the bytes and returns their number, or, when no reader is attached, appends nothing and returns -1, the `EPIPE` result |
| `Server.Window` | source/src/server.c:132-147 | at most `FILTER_SIZE - 1` bytes of the request are examined for the filter |
| `Server.ScanFromIsWindowScan` | source/src/server.c:132-147 | from any point reached without a newline, the loop's outcome equals the closed-form framing rule on the first `FILTER_SIZE - 1` bytes |
| `Server.FilterScanIsWindowScan` | source/src/server.c:132-147 | the filter loop computes the framing rule: the name is what precedes the first newline in the window, otherwise nothing is decoded |
| `Server.ScanBounded` | source/src/server.c:132-147 | whatever the input, the scan reads at most `FILTER_SIZE - 1` bytes; a filter is decoded exactly when a newline was found; a decoded filter has at most `FILTER_SIZE - 2` bytes and no NUL, so `strcpy` stays in bounds; a read error needs a failing pipe |
| `Server.ScanFindsDelimiter` | source/src/server.c:135-141 | a newline at index `j <= FILTER_SIZE - 2` ends the scan after `j + 1` bytes, and the decoded filter is the C string of the `j` bytes before it; when they hold no NUL it is exactly those bytes |
| `Server.ScanWithoutDelimiter` | source/src/server.c:142-146 | without a newline in the window no filter is decoded: the scan stops full after `FILTER_SIZE - 1` bytes, or at the end of the stream with end of file or a read error |
| `Server.ReadErrorWritesNothing` | source/src/server.c:148-160 | a session writes no response if and only if the pipe fails and the filter scan ran to the end of the data, so one of the two reads returned -1 |
| `Server.PayloadBounded` | source/src/server.c:155-161 | the payload has at most `BUFFER_SIZE - 1` bytes, so `buffer[bytes_read] = 0` is in bounds; it is the next bytes after the filter, at least one when any remain, all of them when they fit and the kernel hands them over; the session consumes the scan and the payload |
| `Server.ResponseIsFilteredString` | source/src/server.c:161-167 | the response is the filtered payload up to its first NUL: its length is the payload's `strlen`, and a NUL in the payload cuts it short |
| `Server.ServeAborted` | source/src/server.c:148-160 | a read error in the scan or in the payload read ends the session with no response |
| `Server.SaveFilter` | source/src/server.c:135-139 | on a newline the bytes read so far are NUL-terminated and copied, and `filter` then holds their C string |
| `Server.ReadFilter` | source/src/server.c:131-147 | the byte-at-a-time loop consumes exactly what `FilterScan` prescribes, returns -1 exactly on a read error, and leaves in `filter` the decoded name or, if none, its earlier content |
| `Server.ReadPayload` | source/src/server.c:154-161 | one read of `BUFFER_SIZE - 1` bytes returns `ReadCount`; on success `buffer` is NUL-terminated and holds the C string of the bytes consumed |
| `Server.ProcessAndWrite` | source/src/server.c:163-167 | the output pipe receives the filtered string of the buffer, `strlen` bytes of it, unless no reader is attached |
| `Server.ServePayload` | source/src/server.c:154-167 | a failed payload read changes nothing; otherwise the reader advances by the bytes read and the output pipe receives their filtered C string |
| `Server.ReadString` | source/src/server.c:119-181 | one session consumes exactly the bytes `Serve` says and appends exactly its response to the output pipe, or nothing on a read error or with no reader attached |
| `Client.HandleArguments` | source/src/client.c:138-151 | returns 0 or -1, and 0 exactly when an input string is given and the filter is `"upper"`, `"lower"` or `"null"` |
| `Client.AcceptedFilterSelects` | source/src/client.c:138-151 | an accepted filter has at most 5 bytes and no newline, and it selects `toupper`, `tolower` or the identity on the server |
| `Client.OptionFilterTruncates` | source/src/client.c:118-122 | after `-f arg` the filter array holds at most `FILTER_SIZE - 1` bytes of `arg`, its last byte is NUL, an argument that fits is kept whole, and a longer one is cut to `FILTER_SIZE - 1` bytes |
| `Client.SetFilterOption` | source/src/client.c:118-122 | the `strncpy` and the final NUL leave the filter array equal to `OptionFilter(optarg, FILTER_SIZE)` |
| `Client.SendRequest` | source/src/client.c:62-80 | the request pipe receives the filter's C string, a newline and the input's C string, and the writes report no error, so the result is 0 and `retval` stays 0 until the response read; with no reader attached nothing is written and it returns -1, as on an `EPIPE` result |
| `Client.ScanOfRequest` | source/src/client.c:62-74 | the server's filter scan of an encoded request whose name fits and has no newline decodes exactly that name and consumes it with its newline |
| `Client.RoundTrip` | source/src/client.c:62-74 | at any point in the stream, an encoded request whose name has no newline and at most `FILTER_SIZE - 2` bytes, and whose input fits the payload read, decodes to exactly that filter string and input string and consumes exactly the request |
| `Client.RoundTripServed` | source/src/client.c:62-74 | under the same conditions the server answers with the input string filtered by the client's filter |
| `Client.BackToBack` | source/src/client.c:62-74 | two requests written one after the other are served in turn when the first payload read returns exactly the first input string: the first session then consumes exactly the first request |
| `Client.QueuedRequestSwallowed` | source/src/server.c:154-161 | when a second request is queued and the payload read hands it over with the first input string, the first session consumes both requests, takes the second as part of its payload and answers with all of it filtered by the first filter |
| `Client.EmptyPayloadRunsOn` | source/src/client.c:74 | after an empty input string the payload read takes at least one byte of whatever follows, so it consumes more than the request |
| `Client.LongestFilterNotDecoded` | source/src/client.c:118-122 | a `-f` argument of `FILTER_SIZE - 1` or more bytes with no newline among the first `FILTER_SIZE - 1` yields a filter string the server never decodes: the scan stops full and the payload is filtered with the stale `filter` |
| `Client.AcceptedRequestServed` | source/src/client.c:17-74 | when `handle_arguments` accepts the array `-f arg` produced and `FILTER_SIZE >= 7`, `arg` is one of the three names and the server answers with the input string filtered by it |

## Left out

- The server's `main` (server.c:12-117), `read_string_wrapper` (server.c:183-186) and the signal handling (server.c:206-240) are left out. They create, open and unlink the pipes, create and join threads, and react to signals, with nothing to state beyond the order of the calls.
- The write-error branch of `read_string` (server.c:168-178) only prints a message, and the model leaves the message out. `Server.ReadString` models the write and ignores its result.
- The `perror` messages on the early returns (server.c:150, 158) are left out: they are output only.
- In the client's `main`, the argument-count and missing-string checks, the `open` calls, the response read and the `printf` (client.c:19-31, 42-59, 82-101) are left out, and so is `usage` (client.c:153-165). These are I/O and exit codes.
- The `getopt` loop itself, `-s` and `-h` (client.c:103-117, 124-136) are left out. Only the effect of `-f` on `filter` is modelled (`Client.SetFilterOption`).
- The client's `filter` array is not initialised when `-f` is absent (client.c:7). `Client.SendRequest` requires a NUL in the array, which `-f` always provides.
- Channel.ReadCount: a read that finds no bytes while a writer still holds the pipe open blocks until bytes arrive or every writer closes; the model returns 0 (end of file) at once instead. Blocking, and which processes hold which end open, are not modelled.
- Kernel buffering is left out. How many bytes a read hands over is the parameter `ready`; the filter loop's one-byte reads always get their byte when one is left.
- Channel.Fifo.Write: a write either appends all its bytes or fails. Partial writes are not modelled.
- Channel.Fifo.Write: a write to a pipe with no reader returns -1, which stands for the `EPIPE` result. Neither program ignores or handles `SIGPIPE` (the server installs a handler for `SIGINT` only, server.c:206-228), so under the default action the writing process is terminated instead. That termination is not modelled; what holds either way is that nothing is appended.
- Server.ReadString: with no reader on the response pipe the session is modelled as appending nothing and returning. The server process is really killed by `SIGPIPE` at server.c:167, so the branch at server.c:170-173 cannot run; the model does not capture that termination.
- Client.SendRequest: with no reader on the request pipe the model returns -1 at client.c:63-68. The client is really killed by `SIGPIPE` at client.c:62 and does not return; the model does not capture that termination.
- Client.SendRequest: a reader cannot go away between the three writes, because `broken` is fixed for the whole request. The case where the filter write succeeds and the input write fails is therefore not modelled.
- Concurrent writers on the same pipe and interleaved sessions are not modelled. A pipe is a single ordered byte sequence.
- Server.FilterSeen: when no filter is decoded, `strcmp` reads the uninitialised `filter`, past its end if it holds no NUL. The model takes the C string of the `stale` bytes and ends it at the array's end.
- Locales other than "C" are left out: `toupper` and `tolower` move only the ASCII letters.
- The concrete values of `FILTER_SIZE` and `BUFFER_SIZE` are left out, because the header defining them is not part of this model. The lemmas hold for every pair of sizes their preconditions allow.
