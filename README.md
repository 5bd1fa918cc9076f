# Serial-bridging chat client, modelled in Dafny

The program is the Boost.Asio chat client, rewired to bridge a serial port:
- chat frames received over TCP are written to standard output and to the serial port;
- bytes polled from the serial port are sanitised, wrapped in a chat frame and queued for the server.

This project models the three pieces of logic in that plumbing and proves what they promise:

- **Serial capture** (the body of the `while(1)` loop in `main`), in module `Bridge`:
  - the poll result lands in a persistent 4096-byte `array`;
  - `SanitiseInPlace` writes the terminator at `buf[n]` and rewrites every byte below 32 other than CR and LF to `'*'`, in a loop with invariants;
  - `StrLen` is `strlen` over that array;
  - `BuildMessage` sets the body length, copies the body and encodes the header;
  - `PollOnce` and `ServeSerial` hand the result to the client's `write`.
  - Module `Sanitiser` states the pure specification. Because NUL is itself rewritten, `strlen` of the sanitised buffer is exactly the poll count. A second pass changes nothing.
- **Outbound write queue** (`write`, `do_write` and the write handler):
  - module `Outbound` gives the queue as a step function over the events the I/O context serialises: an enqueue, a write completion (ok or error), and the socket being closed;
  - it proves single-flight, "enqueue starts a write only on an empty queue", "a failure closes the socket and does not pop", and first-in-first-out delivery over every run of events;
  - it also proves that after a failed write the queue is stuck for good.
- **Receive state machine** (`do_connect` → `do_read_header` → `do_read_body` → …), in module `Inbound`:
  - a transition function over completion events, whose effects are: close the socket, or deliver a body to the two sinks;
  - a proof that a stream of well-framed messages reaches standard output byte for byte, in order.
- **The client object**, in module `Client`:
  - class `ChatClient` holds the fields the source mutates: `write_msgs_` as a `seq`, the socket's closed state, the receive state, the header and body regions of `read_msg_`, and the two output sinks;
  - it has one method per posted task and completion handler;
  - each posted task and completion handler is proved against the `Outbound` or `Inbound` step function and keeps an object invariant, which includes the FIFO accounting `sent + writeMsgs == enqueued`.

`chat_message` (in `chat_message.hpp`) is not part of this model. Its header width, its maximum body length, `encode_header`, `decode_header` and the `body_length` setter are the parameters of a `Framing.Codec` value. The only thing assumed of them is that the setter never stores more than it is asked for. That is what clamping to a capacity means, and it keeps the `memcpy` out of the serial buffer in bounds.

Four behaviours of the code that the model keeps:
- A failed connect does not call `socket_.close()`. The receive chain just ends (`Stopped`, effect `Nothing`).
- The serial port gets the body through `RS232_cputs(str.data())`, a C-string write. So it receives the body only up to its first NUL byte. Standard output receives all `body_length()` bytes.
- `write` after `close` is not a no-op. The message is still queued. If the queue was empty, a write is still started on the closed socket. If a write has failed before, the message stays queued forever and nothing is ever sent again (`FailedWriteStallsQueue`).
- The serial path asks for up to 4095 bytes per poll. If the body capacity is smaller, the setter's clamp drops the rest of the poll: the message carries only a prefix of the sanitised bytes (`MessageFor`).

## Model

| member | source | states |
|---|---|---|
| Bytes.CStrLen | chat_client.cpp:246 | the length `strlen` reports is the index of the first NUL: no NUL before it, a NUL at it (or the end) |
| Bytes.CStringPrefix | chat_client.cpp:104-108 | what a C-string consumer receives from the body: a NUL-free prefix that stops at the first NUL, the whole body when it has no NUL |
| Bytes.CStrLenAt | chat_client.cpp:246 | any index holding a NUL with no NUL before it is the `strlen` result |
| Bytes.StrLen | chat_client.cpp:246 | `strlen` over an array holding a terminator returns the first NUL's index, equal to CStrLen of the contents |
| Sanitiser.IsUnreadable | chat_client.cpp:234 | the bytes the loop rewrites: NUL is among them, CR, LF and '*' are not |
| Sanitiser.SanitiseByte | chat_client.cpp:234-237 | a byte is kept exactly when it is not unreadable, otherwise it becomes '*'; the result is never unreadable and never NUL |
| Sanitiser.Sanitised | chat_client.cpp:232-238 | sanitising keeps the number of polled bytes |
| Sanitiser.SanitisedBuffer | chat_client.cpp:230-238 | after the loop body: the first n bytes sanitised, a NUL at n, every byte beyond n unchanged |
| Sanitiser.SanitisedHasNoNul | chat_client.cpp:232-238 | no sanitised byte is NUL |
| Sanitiser.StrLenIsPollCount | chat_client.cpp:230-246 | `strlen` of the terminated, sanitised buffer equals the poll count n, whatever stale bytes lie beyond |
| Sanitiser.SanitisedIdempotent | chat_client.cpp:234-236 | sanitising sanitised bytes changes nothing |
| Sanitiser.SanitisedBufferIdempotent | chat_client.cpp:230-238 | running the terminate-and-sanitise step twice with the same n leaves the buffer as one run did |
| Outbound.Step | chat_client.cpp:47-137 | the queue invariant is kept; single flight on the front; `write` appends and starts a write iff the queue was empty; success pops and chains; failure closes without popping; close only sets the closed flag, while `write` and a successful write keep it; what is sent plus what is queued is what was queued before plus what was enqueued |
| Outbound.RunIsFifo | chat_client.cpp:118-132 | over any run of events, messages are handed to async_write and sent in enqueue order, each at most once, and the unsent ones stay queued in that order |
| Outbound.StalledStep | chat_client.cpp:52-57 | on a queue whose write failed, no event starts or completes a write and `write` only lengthens the queue |
| Outbound.FailedWriteStallsQueue | chat_client.cpp:133-136 | after a failed write nothing is ever written or sent again, and every later message just accumulates behind the failed one |
| Inbound.Receive | chat_client.cpp:67-116 | connect ok starts a header read, connect failure ends the chain without closing; a header that arrives and decodes moves to reading the body it announces, any other header outcome closes; a body that arrives is delivered in full, exactly the announced length, then the next header is read; a failed body read closes |
| Inbound.SerialGetsWholeBodyWithoutNul | chat_client.cpp:104-108 | a body without NUL reaches the serial port whole |
| Inbound.FramesAreDelivered | chat_client.cpp:79-116 | reading well-framed messages delivers their bodies in order to standard output, their C-string prefixes to the serial port, never closes, and ends awaiting a header |
| Inbound.HelloReachesSerial | chat_client.cpp:96-110 | a header decoding to 5 followed by "hello" writes exactly "hello" to both sinks |
| Inbound.StoppedIsFinal | chat_client.cpp:89-92 | a sanity check of the completion model: once the chain has stopped no further completion is admitted |
| Client.ChatClient.constructor | chat_client.cpp:39-45 | a new client is connecting, with an empty queue and nothing written |
| Client.ChatClient.Write | chat_client.cpp:47-59 | the posted task is the Outbound enqueue step: the message goes to the back and a write starts only if none was in progress |
| Client.ChatClient.DoWrite | chat_client.cpp:118-122 | hands the front of the queue to async_write and marks a write outstanding |
| Client.ChatClient.OnWriteCompleted | chat_client.cpp:123-137 | the write handler is the Outbound completion step: success pops and chains, failure closes the socket |
| Client.ChatClient.Close | chat_client.cpp:61-64 | the posted task closes the socket and changes nothing else |
| Client.ChatClient.OnConnected | chat_client.cpp:67-77 | the connect handler is the Inbound connect step |
| Client.ChatClient.OnHeaderRead | chat_client.cpp:79-94 | the header handler is the Inbound header step; a close also closes the writer's socket |
| Client.ChatClient.OnBodyRead | chat_client.cpp:96-116 | the body handler is the Inbound body step; the delivered bytes are appended to standard output and the serial port |
| Bridge.MessageFor | chat_client.cpp:245-248 | the message built from a poll: body length as the setter stores it for the poll count, body a NUL-free prefix of the sanitised poll, header encoding that length |
| Bridge.MessageKeepsEveryByte | chat_client.cpp:245-247 | when the poll fits the body, the message carries every polled byte, sanitised |
| Bridge.Poll | chat_client.cpp:226 | the polled bytes land at the front of the buffer and the rest keeps earlier contents |
| Bridge.SanitiseInPlace | chat_client.cpp:230-238 | the in-place loop leaves exactly SanitisedBuffer of the old contents |
| Bridge.BuildMessage | chat_client.cpp:230-248 | the value passed to `body_length` is the poll count n, and the message is MessageFor the polled bytes |
| Bridge.PollOnce | chat_client.cpp:224-252 | a poll that returned bytes queues exactly its message through `write`; a poll that returned none changes nothing |
| Bridge.MessagesFor | chat_client.cpp:224-253 | a run of polls yields exactly one message per poll that returned bytes and none for the others: as many messages as such polls, one per poll iff every poll returned bytes, none iff none did, and each message built from one such poll |
| Bridge.ServeSerial | chat_client.cpp:224-253 | over a run of polls, each poll that returned bytes is queued as one message, in poll order |

## Left out

- Boost.Asio transport (`async_connect`, `async_read`, `async_write`, `tcp::resolver`, `socket_.close`): a foreign library. Only its completions are modelled, as events carrying ok or error and the bytes read. The model does not decide when a closed socket fails a pending operation; the caller of the handler methods supplies the outcome.
- `boost::asio::post`, the `io_context.run()` thread and `t.join()`: concurrency machinery. Every posted task and handler is a method call on one context, and a run of the client is any sequence of such calls.
- RS232 driver (`RS232_OpenComport`, `RS232_PollComport`, `RS232_cputs`): a foreign serial driver. The poll result is an input n ≤ 4095 with its bytes. The open call and its failure exit are left out. `RS232_cputs` is modelled as appending the C-string prefix of its argument to a sink.
- `chat_message` internals (header format, `max_body_length`, the clamp in the `body_length` setter, the header-to-length parse): they live in `chat_message.hpp`, which is not part of this model. They are the parameters of `Framing.Codec`.
- Console output through `std::cout`: modelled as a byte sink. The `fflush`/`std::flush` calls and the `printf` diagnostics are left out.
- The usage table, `argc` checking, `atoi` of the port number and baud rate, and the exception handler: console and argument handling with no logic to prove.
- The `while(1)` loop never ends. `ServeSerial` models any finite run of its iterations. The `c.close(); t.join();` after it is unreachable and is left out.
- Bridge.PollOnce: states the queue and accounting effect of the `write` it performs, not the write-start decision. That decision is the contract of Client.ChatClient.Write, which PollOnce calls.
