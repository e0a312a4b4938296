# Verified model of the ip_project HTTP client core

This project models, in Dafny, the buffer handling at the centre of a small
IPv6 HTTP client written in C:

- `receive` (src/shared.c) drains a connected socket into a growable heap
  buffer. The buffer starts at 256000 bytes and grows by another 256000 bytes
  each time it becomes exactly full. The loop stops when the peer closes,
  when `recv` fails, or, for a non-zero `num_bytes`, once at least that many
  bytes have arrived.
- `split_http_response` (src/shared.c) cuts a response in place at its first
  empty line, the `"\r\n\r\n"` that separates the headers from the entity body
  (section 4.1 of RFC 1945). The headers start at offset 0 and the content
  starts 4 bytes after the cut.
- The client's `main` and `get_ipv6_addrstr` (src/client.c) supply:
  - host selection from an index argument;
  - the first IPv6 address that converts to text;
  - the empty-response guard;
  - the `host.html` output file name.
- The constant destination table (src/destinations.c) is what host selection
  indexes.

`recv` and `realloc` are foreign calls. They are modelled as oracles: the
`Socket` and `Heap` classes in `transport.dfy`.

- A `Socket` holds the bytes the peer still has to deliver, plus a script
  with one decision per `recv` call:
  - `Fail` makes `recv` return -1.
  - `Chunk(k)` hands over `k` bytes, clamped to between 1 and what was asked
    for and is available.
  - A request for 0 bytes, or a drained stream, returns 0.
- A `Heap` holds, for each `realloc`, whether it is granted.

`Receive` is an imperative method over an `array<byte>`. It is proved to
compute exactly `Drain`, a pure function that runs the loop one `Iteration`
at a time. The properties are proved as lemmas about `Drain`.

`SplitHttpResponse` works in place on an `array<byte>`. It is proved to agree
with the pure function `Split`.

Modules: `Wrappers` (Option, Result), `Transport` (oracles), `Receiver` and
`Splitter` (src/shared.c), `Destinations` (src/destinations.c), `Client`
(src/client.c).

The model keeps these behaviours of the source as written:

- `receive` does not truncate to `num_bytes`. The last chunk may overshoot it,
  and `Receiver.NoTruncation` shows a case.
- `receive` does not NUL-terminate its buffer. The model returns the buffer
  together with the count of valid bytes.
- `split_http_response` returns two pointers into the caller's buffer, 0 and
  just past the delimiter. It ignores its `len` argument.
- A missing delimiter, a failed `recv`, or no convertible address ends the
  process in the source. Here each is an error result.
- A failed `realloc` is not an allocation error. The next request asks for 0
  bytes, `recv` returns 0, and the loop ends as if the peer had closed.
  `Receiver.RecvKeeps` and `Receiver.PassKeeps` state that the buffer grows
  exactly when a full buffer's `realloc` succeeds. `Receiver.StopsOnlyWhenFull`
  states that a loop ending with bytes still pending ended on a full buffer.

## Model

| member | source | states |
|---|---|---|
| `Transport.Delivered` | src/shared.c:22 | The `recv` oracle returns -1 exactly on a scripted failure. It returns 0 exactly when asked for 0 bytes or when nothing is pending. Otherwise it returns a count between 1 and both the request and the bytes available. |
| `Transport.Socket.Recv` | src/shared.c:22 | A call writes the bytes it hands over at `buf[off..]` and nowhere else, in stream order. They leave the pending stream, and one script decision is used up. It requires `off + len <= buf.Length`, so no call can write past the buffer. |
| `Transport.Heap.Realloc` | src/shared.c:32-40 | On success it returns a fresh block of the requested size that starts with the old contents. On refusal it returns null. |
| `Receiver.Initial` | src/shared.c:7-11 | Before the loop the buffer is empty, its capacity is 256000, and no chunk has arrived. |
| `Receiver.Iteration` | src/shared.c:14-42 | A pass that loops again leaves the buffer within capacity and strictly shortens the pending stream, so the loop terminates. |
| `Receiver.AfterRecv` | src/shared.c:22-41 | After a recv of `n` bytes the valid prefix is the old prefix followed by the `n` delivered bytes. |
| `Receiver.RecvKeeps` | src/shared.c:22-41 | After a recv: total stays within capacity, and no byte is lost or reordered. The chunk joins the log, and the buffer still equals the concatenation of the log. `realloc` is called exactly when the buffer is full. Capacity grows by exactly one step exactly when that call succeeds, and stays a multiple of 256000. |
| `Receiver.PassKeeps` | src/shared.c:16-41 | When the target is already reached, a pass issues no recv and changes nothing. Otherwise a pass issues one recv for the free space `len_rx - total_bytes_rx`, fails exactly when that recv returns -1, and keeps every invariant of `RecvKeeps`: no byte lost or reordered, the chunk logged, one realloc decision used exactly when the buffer is full, and growth by one step exactly when that realloc succeeds. |
| `Receiver.Drain` | src/shared.c:14-42 | The whole loop: result within capacity, no byte lost, duplicated or reordered, buffer equal to the concatenation of all chunks whatever their sizes, capacity never shrinking and staying a multiple of the step. |
| `Receiver.DrainStopsAtTarget` | src/shared.c:16-18 | With a non-zero `num_bytes` and at least that many bytes in, the loop ends at once with the state unchanged. |
| `Receiver.DrainAfterRecv` | src/shared.c:22-42 | A recv result of -1 ends in an error, 0 ends normally after the realloc check, and a positive count runs the loop again. |
| `Receiver.DrainsToTargetOrEof` | src/shared.c:14-42 | If no recv fails and every realloc is granted, the loop ends normally. It ends with the stream drained, or with at least `num_bytes` bytes in. |
| `Receiver.ReadsWholeStream` | src/shared.c:14-42 | With `num_bytes == 0`, no recv failure and no refused realloc, the buffer holds exactly the whole stream, for every chunking. |
| `Receiver.ReadsAtLeast` | src/shared.c:16-18 | With `num_bytes != 0` and nothing failing, the result is a prefix of the stream. It has at least `num_bytes` bytes when the stream is that long, and is the whole stream otherwise. |
| `Receiver.NoRecvPastTarget` | src/shared.c:16-22 | With `num_bytes != 0`, fewer than `num_bytes` bytes were in before every recv call in the log. No call is issued once the target is reached. |
| `Receiver.StopsOnlyWhenFull` | src/shared.c:31-42 | With `num_bytes == 0` and no recv failure, a loop that ends while bytes are still pending ended on a full buffer. Its byte count is a positive multiple of 256000. The capacity equals that count, or exceeds it by one step when the realloc re-tried on the 0-byte pass succeeded. |
| `Receiver.NoTruncation` | src/shared.c:16-28 | Asked for 1 byte of a 3-byte stream delivered in one chunk, `receive` returns all 3 bytes. |
| `Receiver.PrefixOfStream` | src/shared.c:22-28 | From the initial state, the bytes received are the stream's first `total` bytes and the rest remain pending. |
| `Receiver.RecvAndGrow` | src/shared.c:22-41 | One recv into the free space at `cursor == total_bytes_rx`, then the realloc check. The new buffer, counters and oracle state are exactly `AfterRecv`'s. |
| `Receiver.Receive` | src/shared.c:3-55 | The array method computes `Drain`. It fails exactly when `Drain` errs. Otherwise it returns a fresh buffer whose capacity is a positive multiple of 256000, with `buf[0..total)` equal to the first `total` stream bytes. `cursor == total_bytes_rx <= len_rx` holds at every iteration. |
| `Splitter.StrLen` | src/shared.c:76 | `strlen` is the position of the first NUL. |
| `Splitter.FindEmptyLine` | src/shared.c:61 | `strstr(buf, "\r\n\r\n")` returns the first position where the delimiter occurs, or none when it occurs nowhere. |
| `Splitter.Split` | src/shared.c:57-81 | A missing delimiter is an error, in both directions. Otherwise headers ++ `"\r\n\r\n"` ++ content equals the input, the headers contain no delimiter, and no delimiter starts before the cut. |
| `Splitter.SplitAtFirst` | src/shared.c:61-76 | The split is at the position `strstr` finds. |
| `Splitter.SplitIsFirst` | src/shared.c:61 | Any decomposition whose delimiter is the first occurrence is the one `Split` returns, so the split is unique. |
| `Splitter.SplitExample` | src/shared.c:60-79 | `"HDR\r\n\r\nBODY"` splits into `"HDR"` and `"BODY"`. |
| `Splitter.CutAtDelimiter` | src/shared.c:73-76 | Writing NUL over the delimiter's first byte ends the header string just before it. The string 4 bytes later reads to the original end. |
| `Splitter.SplitHttpResponse` | src/shared.c:57-81 | With no delimiter it returns an error and leaves the buffer unchanged. Otherwise only the byte at the delimiter position changes, to NUL, and the result is offsets 0 and `pos + 4`. The two C strings there are `Split`'s headers and content. |
| `Destinations.TableSize` | src/destinations.c:5-26 | The table has 22 entries, `DEST_MAX + 1` with `DEST_MAX = 21`. |
| `Destinations.LocalhostFirst` | src/destinations.c:3-5 | Entry 0 is `"localhost"`. |
| `Destinations.EntriesAreHostnames` | src/destinations.c:5-26 | Every entry is a non-empty hostname of lower-case letters, digits, hyphens and dots that neither starts nor ends with a dot, and is at most 18 characters long. |
| `Client.SelectHost` | src/client.c:63-73 | No argument selects `"google.com"`. An index in `[0, DEST_MAX]` selects `destinations[i]`. An index outside it is reported and leaves the default host. |
| `Client.SelectedHostFitsBuffer` | src/client.c:58-67 | For every argument, the host is the default or a table entry and is a hostname. Followed by `".html"` (line 131) and a NUL, it fits the 64-byte `calloc`'d host buffer. |
| `Client.OutputFileName` | src/client.c:131 | The output file name is the host followed by `".html"`. |
| `Client.OutputFileNameInjective` | src/client.c:131 | Different hosts give different file names. |
| `Client.GetIpv6AddrStr` | src/client.c:26-53 | It returns the text of the first result that converts, after exactly that many conversions, so no later result is examined. It fails, after examining every result, exactly when none converts. |
| `Client.MeasuredLength` | src/client.c:110 | `strlen` on the received bytes is defined by them only when they contain a NUL. It is then the position of the first NUL. |
| `Client.ReportsEmptyAsWritten` | src/client.c:110-122 | The "Empty response!" test as written is decided by the received bytes exactly when they hold a NUL. It reports empty exactly when the first received byte is NUL. |
| `Client.MeasuredLengthCounterexamples` | src/client.c:110-122 | For `"HTTP"`, neither `strlen` nor the guard as written is determined by the received bytes. A 2-byte response starting with NUL measures 0 and the guard as written reports it empty, while the corrected `HandleResponse` does not. |
| `Client.HandleResponse` | src/client.c:119-131 | The corrected guard (see Findings). A zero-length response is reported as empty, exactly, before any split. A response with no delimiter is malformed, exactly. Otherwise the saved file is `host.html`, and the headers and content recompose the response around its first empty line: no delimiter starts before the cut, and the pair is exactly `Splitter.Split`'s. |
| `Client.HandleResponseCoversAll` | src/client.c:124-131 | For a response without NUL bytes, headers, delimiter and content recompose every received byte. |

## Left out

- Sockets, name resolution and output are not modelled:
  - `getaddrinfo`, `socket`, `connect`, `send`, `close`, `freeaddrinfo` and `inet_ntop` are foreign I/O. Only `recv`, `realloc` and `inet_ntop` appear, as oracle inputs (a scripted stream, scripted grants, a list of conversion outcomes).
  - `get_ipv6_addrinfo`'s resolver call is not modelled.
  - All `printf`, `debug`, `error` and `perrno` output is left out; it changes no state the core reads.
- `save_file` (src/shared.c:83-91) is file I/O. `HandleResponse` returns the content and the file name it would be written to.
- `exit(1)` is not modelled as process termination. Each fatal path is an error value instead: `ReceiveError`, `MissingDelimiter`, `NoValidAddress`, `EmptyResponse`, `MalformedResponse`.
- `atoi(argv[1])` is not modelled. The argument is taken as an already-parsed integer (`Option<int>`, with `None` for no argument).
- destinations.h is not part of this model. `DEST_MAX = 21` is an assumption, matching the table's 22 initialisers.
- Receiver.Receive: the counters are unbounded naturals. The source's `int` counters would overflow past 2^31 - 1 bytes (about 8388 growth steps); that is not modelled. Neither is the unsigned comparison with `num_bytes`.
- Receiver.Receive: the source adds a final -1 from `recv` to `total_bytes_rx` and `cursor` before exiting. The model stops at the error instead, since nothing reads those counters afterwards.
- Transport.Heap.Realloc: `realloc` may move the block and frees the old one. The model always copies into a fresh array and never uses the old array again. Freeing and in-place growth are not modelled.
- Receiver.Receive: its contracts use `old`, `fresh` and `modifies`. What it computes is stated through `Drain` and the lemmas about `Drain`.
- Splitter.SplitHttpResponse: the input must hold a NUL terminator. `strstr`, and the content pointer, read up to the first NUL. A buffer without one is undefined behaviour in the source, and the finding below shows `main` passes such a buffer.
- src/main.c, an earlier one-shot client, is not modelled: a single `recv` into a fixed buffer, with nothing to prove beyond the I/O.
- src/server.c is not modelled: it only sets up a socket and accepts once, and its command handling is unwritten.

## Findings

| source | as written | input that shows it | evidently intended | confidence | as-written member | corrected member |
|---|---|---|---|---|---|---|
| src/client.c:110 | `main` measures the response with `strlen(buf)` and tests that value against 0 (lines 119-122). But `receive` (src/shared.c:11,54) never writes a NUL after the bytes it received, so the measurement depends on memory `recv` never wrote. A full buffer has no byte after it at all. | The 4 received bytes `"HTTP"` contain no NUL, so `strlen` reads past them. A 2-byte response `"\0H"` measures 0 and is reported as an empty response. | The guard tests the number of bytes received. The response is read as a string that ends right after them. | high; not executed | `Client.MeasuredLengthCounterexamples` | `Client.HandleResponse` |
