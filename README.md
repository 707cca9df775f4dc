# Echo-framing server: the per-connection protocol

The server accepts one TCP client at a time and runs `serve_connection` on it. The
function first sends a single `*` byte (the handshake). It then reads the stream in
buffers of up to 1024 bytes and walks each buffer byte by byte through a two-state
machine (`ProcessingState`):

- In `WAIT_FOR_MSG`, a `^` opens a message. Every other byte is dropped.
- In `IN_MSG`, a `$` closes the message. Every other byte is incremented in place as a
  `uint8_t`, so 0xFF wraps to 0x00, and sent on its own.

The state carries over from one buffer to the next. A `recv` of 0 bytes ends the
connection successfully, and the function returns the socket. A failed `recv`, a failed
handshake send or a failed echo send returns -1 at once.

The project has three modules.

- `Framing` (framing.dfy) is the pure specification:
  - `Step` is one pass of the switch.
  - `Process` folds `Step` over a byte string.
  - `Rewrite` is what the in-place increments leave in a buffer.
  - `Echo` is an independent, span-based description of the output: the payload of
    every `^ … $` span, incremented, plus a trailing unclosed span. Its helper
    `FirstIndex` finds the first delimiter in a byte string; the code itself never
    searches ahead, and `FirstIndex` has no counterpart in it.
  - Lemmas connect these, and worked examples check them.
- `Sockets` (connection.dfy) is the accepted socket, as a class `Connection`:
  - What `recv` delivers is a script of chunks.
  - After the last chunk, `recv` reports either an orderly close or an error.
  - Which sends go through is decided by a `SendLimit`.
  - Every byte sent so far is recorded in a ghost trace `sent`.
- `Server` (server.dfy) holds the imperative code:
  - `ServeConnection` is the handshake, followed by `ReadLoop`.
  - `ReadLoop` is the `while` loop: one `recv` per iteration.
  - `ProcessChunk` is the `for` loop over one `array<uint8>` buffer.
  - `HandleByte` is the body of that loop, the `switch`.
  - `HandleByte` is proved against `Step`. `ProcessChunk` is proved against `Process`
    and `Rewrite` over its buffer. `ReadLoop` is proved against the read-loop function
    `ServeLoop`, and `ServeConnection` against the session function `Serve`, which sends
    `*` and then runs `ServeLoop`.
  - `ServeLoop` is proved to send the echo of the whole stream, cut at the first refused
    send. That echo is `Process` over the concatenated chunks. `ServeLoop` succeeds
    exactly when all of the echo went out and the stream closed in order. `Serve` sends
    `*` before that, and neither depends on how the stream was split into reads.

The session's result is an integer, as in the code: the socket descriptor itself on
success and -1 on every failure (`rc == conn.fd` or `rc == -1`). There is no typed error
telling a refused handshake from a failed read or a refused echo.

## Model

| member | source | states |
|---|---|---|
| Framing.Increment | src/main.c:171 | `b += 1` on a byte: one more below 255, and 255 wraps to 0 |
| Framing.Step | src/main.c:160-178 | a byte is echoed iff it arrives inside a message and is not `$`, and the echo is its increment; the state changes iff the byte is `^` while waiting or `$` inside a message |
| Framing.Process | src/main.c:159-179 | at most one byte goes out per byte received, so the output is never longer than the input |
| Framing.ProcessConcat | src/main.c:148-180 | one state variable lives across all reads, so processing a and then b from the state a left gives the same state and output as processing a + b |
| Framing.ProcessPrefix | src/main.c:159-179 | output leaves as input arrives: the echo of a prefix of the input is a prefix of the echo of the whole |
| Framing.Rewrite | src/main.c:159-171 | the buffer left by the in-place increments has the length of the input; which positions change, and to what, is stated by `Framing.RewriteAt` |
| Framing.EchoCutAt | src/main.c:172-174 | when the byte at position i is echoed, the echo of the bytes before i is a strict prefix of the whole echo |
| Framing.RewriteAt | src/main.c:159-171 | buffer position j ends up incremented exactly when it was processed inside a message and is not `$`; every other position keeps its byte |
| Framing.WaitDropsNoise | src/main.c:161-165 | while waiting, a run of bytes without `^` sends nothing and stays waiting, whatever `$` it holds |
| Framing.MessageEchoesPayload | src/main.c:167-177 | inside a message, a run of bytes without `$` (repeated `^` included) is echoed byte for byte, each incremented, and the state stays inside the message |
| Framing.ProcessMatchesEcho | src/main.c:159-179 | the state machine's output equals the span-based reference: the payload of every `^ … $` span, incremented, in order, with delimiters and bytes outside every span never sent |
| Framing.UnclosedSpanEchoed | src/main.c:167-177 | a `^` that is never closed: every byte after it is echoed, incremented, and the connection stays inside the message |
| Framing.EmptyMessage | src/main.c:161-170 | `^$` sends nothing and returns to waiting |
| Framing.WrapAround | src/main.c:171 | `^`, 0xFF, `$` sends exactly the byte 0x00 |
| Framing.StateConfinement | src/main.c:159-179 | `a^bc$d^e` sends `c`, `d`, `f`: bytes outside every span are dropped, and the trailing open span is echoed |
| Sockets.Connection.Send | src/main.c:172 | `send` of one byte returns 1 and appends the byte to the trace when the limit allows it, and otherwise returns -1 and changes nothing |
| Sockets.Connection.Recv | src/main.c:150-156 | `recv` copies the next chunk to the front of the buffer and returns its length; with no chunk left it returns 0 on an orderly close and -1 on an error, and leaves the buffer alone |
| Server.ServeLoop | src/main.c:149-180 | the read loop as a function of the chunk script, the end of the stream and the send limit; what it sends and when it succeeds is stated by `Server.ServeLoopMatchesStream` |
| Server.Serve | src/main.c:142-183 | the whole session: the handshake byte, then the read loop from the waiting state; its outcome is stated by `Server.ServeMatchesStream` |
| Server.ServeLoopMatchesStream | src/main.c:149-180 | the read loop sends the echo of the whole stream, cut at the first refused send; it succeeds iff every echo went out and the stream closed in order |
| Server.ServeMatchesStream | src/main.c:142-183 | a connection sends `*` and then the echo of the whole stream, cut at the first refused send; the first byte sent is always `*`; a refused handshake sends nothing and fails |
| Server.SameStreamSameOutcome | src/main.c:148-149 | how the client's stream was split into reads changes neither what is sent nor whether serving succeeds |
| Server.ClosedAtOnce | src/main.c:155-156 | a client that closes at once gets just `*`, and serving succeeds, with nothing sent on close |
| Server.FailedSendCut | src/main.c:172-174 | when the send at position i is refused, the limit was exactly the echo of the bytes before i, so what went out is the whole buffer's echo cut there, and no sends are left |
| Server.ProcessChunk | src/main.c:159-179 | the `for` loop over one buffer sends the buffer's echo, or its echo cut at the refused send, and carries the state on. It stops right after the payload byte whose send failed, with no sends left. Positions it went through hold their rewritten value, and the rest of the buffer is untouched |
| Server.HandleByte | src/main.c:160-178 | one pass of the switch: the next state is `Step`'s, only position i of the buffer changes (to its increment, when echoed), and a send is attempted exactly when a byte is echoed |
| Server.ServeConnection | src/main.c:142-183 | the bytes sent are exactly `Serve`'s: the handshake, then the echo of the stream. The function returns the socket on success and -1 on a refused handshake, a failed `recv` or a refused echo. Each byte sent uses up one send of the limit. A refused handshake returns before anything is read, and success comes only once every chunk has been read. The connection ends with every chunk read or with no sends left |
| Server.ReadLoop | src/main.c:148-182 | the `while` loop sends exactly `ServeLoop`'s bytes from the state it is entered in, with one send of the limit used per byte. It returns the socket when `ServeLoop` succeeds and -1 otherwise. Success comes only once every chunk has been read, and an early end leaves no sends |

## Left out

- `main` (src/main.c:31-73): the accept loop, `listen`, `inet_ntop`, closing the client
  socket and console logging. These are operating-system plumbing around one call to
  `serve_connection`.
- `create_listener_socket` (src/main.c:79-125): address resolution and socket set-up
  through foreign calls whose results are not modelled. One point is noted but not
  modelled: when `setsockopt` fails, the function returns -1 without closing the socket
  or freeing the address list (src/main.c:103-106).
- `get_in_addr` (src/main.c:130-136): address-structure casting with no behaviour of its
  own.
- Real `send`/`recv` behaviour (blocking, timeouts) is not modelled.
  - A `recv` is a scripted chunk of 1 to 1024 bytes, so reads of any size the buffer
    allows are covered.
  - A `send` either sends its one byte or fails with -1, as the `SendLimit` says. A
    `send` that returns 0 is not modelled; the code would treat it as a failure through
    its `< 1` test, as it does -1.
  - The script is finite, so a client that never closes its stream is not modelled.
- SIGPIPE is not modelled. Both `send` calls pass flags 0 (src/main.c:143, 172), and no
  signal handler is installed. A send to a peer that has gone away therefore raises
  SIGPIPE, which by default ends the process instead of returning -1. A refused `Send`
  in the model stands only for a send that returns an error.
- `perror` diagnostics are not modelled. They write to the console and do not affect
  what the function sends or returns.
- Server.ProcessChunk: the state it returns is stated only when every send went through.
  After a refused send, the caller returns -1 and never uses that state.
