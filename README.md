# kilimandjaro secure proxy server — verified model

kilimandjaro is a small TLS-terminating server built on non-blocking
sockets. A reactor thread accepts connections, reads and writes through a
socket handler, and hands each decoded request to a pool of workers. The
workers run a Groovy script over the request and queue the script's answer
for the peer. This project models the two classes that hold the
repository's own logic and proves properties of the model:

- `SSLSocketHandler` (module `SecureSession`, file `ssl_socket_handler.dfy`).
  It holds the four per-connection byte buffers, the grow-or-reset policy
  for `BUFFER_OVERFLOW` and `BUFFER_UNDERFLOW`, and the handshake loop over
  the engine's handshake status. It also holds the read/decode
  accumulation, the write/encode loop and the shutdown loop.
  - It is a class whose fields are reassigned and mutated in place, as in
    the source.
  - Each loop is a `while` loop that carries its invariants.
- `Server` (module `Dispatch`, file `server.dfy`). It holds the reading
  queue, the per-peer write queues and the get-or-create on them, and the
  worker pass. It also holds the reactor's handling of one selected key,
  the script-refresh change detector and the active flag.
  - The peer-address key format is in `address_key.dfy`.
  - The bounded FIFO queues are in `bounded_queue.dfy`.

Supporting modules model what the two classes use but do not define:
- `ByteBuffers` (`byte_buffer.dfy`): `java.nio.ByteBuffer`, with a backing
  array, position, limit and mark, and only the operations the handler
  calls: `clear`, `flip`, `compact`, `mark` and `put`.
- `Engines` (`engine.dfy`):
  - `SSLEngine` as a nondeterministic oracle. Each `wrap` or `unwrap` picks
    a status, a handshake status and consumed/produced counts, and moves
    that many bytes between the buffers.
  - `SocketChannel` as a byte source and sink. Reads and writes may be
    short; a read returns -1 at end of stream.
  - The engine and the channel keep logs of every byte they took in and
    gave out. This lets contracts say which bytes went where.
  - The engine also logs every answer `wrap` and `unwrap` gave and every
    handshake status it reported. The handler's contracts are stated over
    these logs: when a call throws, which status ended the handshake.
  - A channel read returns -1 only at end of stream with room left in the
    destination. A full destination reads 0, as `SocketChannel.read` does.
- `Outcomes` (`outcomes.dfy`):
  - Java's exceptions as values.
  - `Outcome<T>`, which is returned, threw or stalled. Stalled means the
    fuel bound of a loop ran out.

Behaviour of the source that the model keeps, because the code does it:
- One `SSLSocketHandler` instance serves every connection of a server.
  `accept` replaces its engine and buffers, so all peers share them.
- `readAndDecode` appends the whole backing array of `peerAppData` after
  every `OK` unwrap, not just the plaintext. The result is the
  concatenation of those arrays, and each of them is at least as long as
  `peerAppData` was when the read began (`LengthsWithin`). Only their
  first bytes are the plaintext the engine produced, which
  `ReadAndDecode`'s contract states with `ConcatPrefixes`.
- `read` and `close` of the handler only delegate to `readAndDecode` and
  `shuttingDownSSLConnection` (SSLSocketHandler.java:86-88 and 105-108).
  They are the same members in the model.
- The worker catches only `InterruptedException` and `IOException`
  (Server.java:160).
  - An `IOException` raised while the script runs is caught. The key has
    been taken and nothing is queued, and the worker goes on to the next
    key (`Recovered`). Groovy does not enforce checked exceptions, so the
    script can raise one.
  - Any other exception from the script, or a null result given to the
    queue's `put`, ends the worker (`Died`).
- A failed refresh still records the new timestamp, so the same file is
  not read again until its timestamp changes (`FailedCopyNotRetried`).

## Model

| member | source | states |
|---|---|---|
| SecureSession.WriteFully | src/main/java/kilimandjaro/SSLSocketHandler.java:204-206 | The write loop ends exactly when the buffer has nothing remaining; the channel receives exactly the bytes between the old and the new position, in order; when the fuel bound runs out first, it reports so |
| SecureSession.SSLSocketHandler.CreateBuffers | src/main/java/kilimandjaro/SSLSocketHandler.java:110-116 | Four fresh buffers with distinct backing arrays; appData and peerAppData have the session's application buffer size, netData and peerNetData its packet buffer size |
| SecureSession.SSLSocketHandler.ClearBuffers | src/main/java/kilimandjaro/SSLSocketHandler.java:154-157 | All four buffers have position 0 and limit equal to capacity |
| SecureSession.SSLSocketHandler.HandleBufferOverflow | src/main/java/kilimandjaro/SSLSocketHandler.java:241-249 | The capacity becomes max(old capacity, application buffer size); a new buffer only when the advertised size is larger, otherwise the same buffer cleared |
| SecureSession.SSLSocketHandler.HandleBufferUnderflow | src/main/java/kilimandjaro/SSLSocketHandler.java:257-270 | When the packet size exceeds the capacity, a new buffer of that size whose first bytes are the old buffer's bytes before its position, with position equal to the old position; otherwise the same buffer cleared |
| SecureSession.SSLSocketHandler.UnwrapPeerNetData | src/main/java/kilimandjaro/SSLSocketHandler.java:177-179 | Flip, one logged unwrap, compact: the bytes peerNetData held before its position are the ciphertext the engine took followed by the bytes left before the new position; overflow and underflow take nothing |
| SecureSession.SSLSocketHandler.HandshakeUnwrap | src/main/java/kilimandjaro/SSLSocketHandler.java:166-195 | A read of -1 is end of stream: no unwrap, SSLException exactly when the engine is inbound-done and outbound-done, otherwise the outbound side is closed. Otherwise exactly one unwrap is logged, and the outcome follows its answer: CLOSED throws IOException; OK marks peerNetData; underflow clears it; overflow applies the grow-or-reset policy; any other answer returns the handshake status the engine reported. Except on underflow, the bytes peerNetData held before the read followed by the bytes read are the ciphertext the engine took followed by what is left in peerNetData |
| SecureSession.SSLSocketHandler.HandshakeWrap | src/main/java/kilimandjaro/SSLSocketHandler.java:197-215 | Exactly one wrap is logged. CLOSED throws IOException; overflow and underflow send nothing and return the reported status; on OK the produced ciphertext is written completely, and exactly it, before the status is returned |
| SecureSession.SSLSocketHandler.RunDelegatedTasks | src/main/java/kilimandjaro/SSLSocketHandler.java:217-223 | Every pending delegated task is submitted, none is left, and the submitted count grows by exactly the pending count |
| SecureSession.SSLSocketHandler.HandshakeStep | src/main/java/kilimandjaro/SSLSocketHandler.java:164-230 | The branch follows the status, as `PassDid` states it. NEED_UNWRAP at end of stream unwraps nothing, never stalls, and throws exactly when the engine is inbound-done and outbound-done, and then only SSLException, and when it does not throw the engine's outbound side is closed. NEED_UNWRAP otherwise unwraps once and throws exactly when that answer is CLOSED, and then only IOException. NEED_WRAP wraps once and throws IOException exactly when that answer is CLOSED. NEED_TASK submits every pending task and returns. NEED_UNWRAP_AGAIN is IllegalStateException with nothing logged. A returned status is the one the engine reported during the step |
| SecureSession.SSLSocketHandler.DoHandshake | src/main/java/kilimandjaro/SSLSocketHandler.java:153-233 | Starts from a cleared appData and the polled status, with peerNetData's room cleared for the first read. The passes recorded lead from that start to the final state, each switching on the status the previous one returned and doing what `PassDid` gives that status. It throws exactly when its last pass threw, and only for that pass's reason (`ThrewBecause`); when it does not throw, no wrap or unwrap of the call answered CLOSED. On return the last status is FINISHED or NOT_HANDSHAKING, none before it is, and the result is true exactly when it is FINISHED. The channel receives exactly the ciphertext the engine produced during the handshake, in order |
| SecureSession.SSLSocketHandler.HandshakeLoop | src/main/java/kilimandjaro/SSLSocketHandler.java:161-232 | Loops only while the status is neither FINISHED nor NOT_HANDSHAKING. Pass i switches on the i-th status reported from the start and does what `PassDid` gives that status; each returned status is the next one switched on. It throws exactly when the last pass threw, for that pass's reason; when it does not throw, no answer during the loop was CLOSED. On return the result is true exactly when the status it stopped on is FINISHED; the plaintext the engine took in is appData's, from index 0 |
| SecureSession.SSLSocketHandler.HandshakePass | src/main/java/kilimandjaro/SSLSocketHandler.java:164-230 | One pass of the loop is appended to the pass trace (`HandshakeRunStep`): it switched on the last reported status and did what `PassDid` gives it; a pass that throws does so for the reason `ThrewBecause` gives; all ciphertext produced so far has been written, in order |
| SecureSession.HandshakeRunStep | src/main/java/kilimandjaro/SSLSocketHandler.java:161-232 | A pass that switches on the last reported status and does what `PassDid` gives it extends the pass trace; a pass that throws does so for the reason `ThrewBecause` gives, and one that does not keeps the no-CLOSED-answer property from the start |
| SecureSession.SSLSocketHandler.AppendDecoded | src/main/java/kilimandjaro/SSLSocketHandler.java:289-292 | peerAppData is flipped, and its whole backing array, not only the bytes up to the new limit, is appended to the accumulated bytes |
| SecureSession.SSLSocketHandler.DecodeStep | src/main/java/kilimandjaro/SSLSocketHandler.java:285-305 | One pass of the decode loop logs one unwrap, throws exactly when it answered CLOSED, and otherwise keeps the accumulation invariant. While no unwrap of the loop has answered underflow, peerNetData is still the buffer the loop started on, with the same bytes and limit, and the engine has taken exactly its bytes from the loop's start position to the current one |
| SecureSession.SSLSocketHandler.DecodeOnce | src/main/java/kilimandjaro/SSLSocketHandler.java:286-304 | Exactly one unwrap is logged. It throws ClosedChannelException exactly when that answer is CLOSED. On OK the whole backing array of peerAppData is appended. Overflow and underflow append nothing. On overflow, peerAppData becomes handleBufferOverflow's result: position 0, limit at capacity, capacity max(old capacity, application buffer size), a new buffer only when that size is larger. On underflow, peerNetData becomes handleBufferUnderflow's result: a new buffer of the packet size holding the old bytes before the position when the packet size exceeds the capacity, else the same buffer cleared. Each buffer is otherwise the same object. Unless the answer is underflow, peerNetData keeps its bytes and limit, its position moves on by the bytes consumed, and the engine's ciphertext input grows by exactly the bytes it moved over; on underflow the engine takes no ciphertext |
| SecureSession.SSLSocketHandler.DecodeAvailable | src/main/java/kilimandjaro/SSLSocketHandler.java:283-306 | The loop decodes while peerNetData has bytes remaining; on return it has none. While no unwrap answered underflow, peerNetData is the same buffer with the same bytes and limit, and the engine has taken exactly its bytes from the starting position to the current one, so on return it has taken every byte that remained. It throws ClosedChannelException exactly when an unwrap of this call answered CLOSED, and that is the last unwrap. Each accumulated chunk is at least as long as peerAppData was at the start, and the chunk count and prefix sizes are those of the OK answers. The result is the concatenation of the chunks, and the plaintext the engine produced is the concatenation of their prefixes. When the fuel bound runs out, exactly that many unwraps were made |
| SecureSession.SSLSocketHandler.ReadAndDecode | src/main/java/kilimandjaro/SSLSocketHandler.java:279-308 | Null exactly at end of stream with room to read; an empty array when no bytes were read and the stream is not at its end. When bytes were read and it returns, peerNetData has nothing remaining. The result is the concatenation of the whole backing arrays appended after each OK unwrap, and the engine's plaintext is the concatenation of their prefixes. It throws ClosedChannelException exactly when an unwrap answered CLOSED. When nothing was read from the channel, nothing is unwrapped. When it returns and no unwrap answered underflow, the engine's ciphertext input grew by exactly the bytes read from the channel. Nothing is written to the channel |
| SecureSession.SSLSocketHandler.EncodeOnce | src/main/java/kilimandjaro/SSLSocketHandler.java:322-340 | Exactly one wrap is logged; overflow, underflow and CLOSED throw ClosedChannelException, and only they; on OK the produced ciphertext is written completely before the next wrap |
| SecureSession.SSLSocketHandler.EncodeAll | src/main/java/kilimandjaro/SSLSocketHandler.java:321-341 | It throws ClosedChannelException exactly when a wrap of this call answered other than OK, and that is the last wrap. On return appData has nothing remaining, the engine took in exactly the data, and the channel received exactly the ciphertext produced, in order |
| SecureSession.SSLSocketHandler.WriteAndEncode | src/main/java/kilimandjaro/SSLSocketHandler.java:317-342 | Data longer than appData's capacity is BufferOverflowException, and only then, with no wrap; ClosedChannelException exactly when a wrap answered other than OK; otherwise the same guarantees as the encode loop |
| SecureSession.SSLSocketHandler.Write | src/main/java/kilimandjaro/SSLSocketHandler.java:91-103 | Null data wraps nothing and changes nothing. appData is replaced by a buffer of exactly the data's length only when it was too small. No exception escapes, including when a wrap answered other than OK. When every wrap answered OK, the engine took in the data and the channel received its ciphertext |
| SecureSession.SSLSocketHandler.Accept | src/main/java/kilimandjaro/SSLSocketHandler.java:74-83 | A new engine with the handshake begun, appData and netData of the session's sizes, peerNetData of the packet size and peerAppData at least the application size. Any exception surfaces as IOException. The recorded passes start from the fresh engine with empty logs, each doing what `PassDid` gives its status; it throws exactly when the last pass threw, for that pass's reason, and otherwise no wrap or unwrap answered CLOSED. On return the last status the engine reported is FINISHED or NOT_HANDSHAKING, none before it is, and the result is true exactly when it is FINISHED. The channel receives exactly the engine's ciphertext |
| SecureSession.SSLSocketHandler.FlushAsWritten | src/main/java/kilimandjaro/SSLSocketHandler.java:357-360 | Models the shutdown flush as written: the first write sends bytes from netData's position onwards, which lie after the bytes a wrap has just produced |
| SecureSession.SSLSocketHandler.KeepFlushingAsWritten | src/main/java/kilimandjaro/SSLSocketHandler.java:357-360 | After a compact, the as-written loop ends only when netData has no room left |
| SecureSession.SSLSocketHandler.UnflippedWriteMissesCiphertext | src/main/java/kilimandjaro/SSLSocketHandler.java:359 | A concrete case: after a wrap leaves one byte 7 in a four-byte buffer, an unflipped write sends only zeros, never the 7 |
| SecureSession.SSLSocketHandler.FlushCiphertext | src/main/java/kilimandjaro/SSLSocketHandler.java:357-360 | The corrected flush: the channel receives exactly the bytes the wrap produced, and netData is left empty for the next wrap |
| SecureSession.SSLSocketHandler.ShuttingDownSSLConnection | src/main/java/kilimandjaro/SSLSocketHandler.java:350-364 | closeOutbound comes before the first wrap of this call, unless the outbound side was already closed; at least one wrap is made exactly when the engine was not already outbound-done and the fuel bound allows one; it returns only once the engine reports outbound-done; the channel is closed last, and only then; no inbound state changes |
| AddressKeys.NatString | src/main/java/kilimandjaro/Server.java:261 | Decimal digits of the port, without leading zeros |
| AddressKeys.IntString | src/main/java/kilimandjaro/Server.java:261 | The rendering of an int is non-empty, contains no colon, and starts with a digit exactly when the value is not negative |
| AddressKeys.ParseIntString | src/main/java/kilimandjaro/Server.java:261 | Reading back an int's decimal rendering gives the int |
| AddressKeys.AddressKey | src/main/java/kilimandjaro/Server.java:260-262 | The key is the host name, a colon, and the port's decimal rendering |
| AddressKeys.AddressKeyRoundTrip | src/main/java/kilimandjaro/Server.java:260-262 | Splitting a key at its last colon gives back the host name and the port |
| AddressKeys.AddressKeyInjective | src/main/java/kilimandjaro/Server.java:260-262 | Two peers get the same key exactly when their host names and ports are equal |
| BoundedQueues.Put | src/main/java/kilimandjaro/Server.java:159 | Appends at the tail exactly when there is room; otherwise it would block; capacity is kept |
| BoundedQueues.Poll | src/main/java/kilimandjaro/Server.java:210 | Removes and gives the head, or nothing when the queue is empty |
| BoundedQueues.PollAfterPut | src/main/java/kilimandjaro/Server.java:159 | A put does not change which item the next poll gives when the queue is non-empty |
| BoundedQueues.PutAllThenDrain | src/main/java/kilimandjaro/Server.java:159 | FIFO: items put while there is room come out after those already queued, in the order they were put |
| Dispatch.Refresh | src/main/java/kilimandjaro/Server.java:227-242 | A missing file is NullPointerException; the script is reloaded only when no timestamp is stored or the timestamp differs; the timestamp is stored before the copy; a size mismatch is IOException, keeps the old script and records the new timestamp |
| Dispatch.RefreshIdempotent | src/main/java/kilimandjaro/Server.java:233-241 | Refreshing twice from the same file leaves the state of one refresh, and the second refresh of a present file succeeds |
| Dispatch.FailedCopyNotRetried | src/main/java/kilimandjaro/Server.java:233-239 | After a size mismatch, a refresh from a file with the same timestamp keeps the old script and succeeds |
| Dispatch.WithWritingQueue | src/main/java/kilimandjaro/Server.java:139-149 | After get-or-create for an address, the map has a queue for it; an existing queue is never replaced; a new queue is empty with capacity 1000; other entries are unchanged |
| Dispatch.WithWritingQueueIdempotent | src/main/java/kilimandjaro/Server.java:139-149 | A second get-or-create for the same address changes nothing |
| Dispatch.Server.constructor | src/main/java/kilimandjaro/Server.java:105-109 | For a positive size, the reading queue is empty with that capacity; no write queues and no script yet |
| Dispatch.Server.Create | src/main/java/kilimandjaro/Server.java:105-109 | A size of 0 or less is IllegalArgumentException, as the reading queue's constructor throws; otherwise a fresh server with an empty reading queue of that capacity |
| Dispatch.Server.ServeAndRecord | src/main/java/kilimandjaro/Server.java:135-162 | One worker pass extends the trace by the key it took and what became of it |
| Dispatch.Server.GetOrCreateWritingQueue | src/main/java/kilimandjaro/Server.java:139-149 | The write-queue map becomes the get-or-create result for the address |
| Dispatch.Server.ServeOne | src/main/java/kilimandjaro/Server.java:136-162 | Takes the head of the reading queue, or would block when it is empty. It runs the script over the key's current attachment and puts the result at the tail of that peer's queue. A script raising IOException is caught: nothing is queued and the worker goes on. The worker dies when the script raises anything else or returns null |
| Dispatch.Server.RunWorker | src/main/java/kilimandjaro/Server.java:134-163 | An inactive server's worker takes nothing. Otherwise the worker takes keys from the head of the reading queue, one per pass. For each key taken, the trace records the pass of that key's script result over the write queues, from the old map to the new one. Every pass but the last continued, and the worker stops only when the queue is empty, a put would block, or the script killed the thread. When it stops for none of these reasons on an active server, it has served exactly as many keys as its fuel |
| Dispatch.Server.ReadThenWrite | src/main/java/kilimandjaro/Server.java:197-214 | The readable branch, then the writable one: the handling reaches the writable branch exactly when the key is not readable, or the read was empty, or it was non-empty and its put found room; a null read skips the rest, a read that threw or stalled ends it |
| Dispatch.Server.HandleKey | src/main/java/kilimandjaro/Server.java:186-217 | A socket is registered only when accept returned true; an accept that threw or stalled ends the key's handling. A null read skips the rest of the key; a read that threw ends it with that exception; a non-empty read is attached and queued, or ends the handling when the queue is full. The handling reaches the writable branch (`Handled`) exactly when accept returned or the key is not acceptable, and the key is not readable or the read was empty or its put found room (`ReadGoesOn`). A writable key then sends at most one message, the head of its peer's queue |
| Dispatch.Server.RefreshGroovyScript | src/main/java/kilimandjaro/Server.java:227-242 | The stored timestamp, the script and the outcome are those of `Refresh` |
| Dispatch.Server.Start | src/main/java/kilimandjaro/Server.java:124 | isActive becomes true, so workers take keys |
| Dispatch.Server.Close | src/main/java/kilimandjaro/Server.java:250-252 | isActive becomes false, which workers test before each take |

## Findings

| source | as written | input that shows it | evidently intended | confidence | as-written member | corrected member |
|---|---|---|---|---|---|---|
| src/main/java/kilimandjaro/SSLSocketHandler.java:357-360 | During shutdown, after a wrap that does not report CLOSED, netData is written from its position with no flip, then compacted, in a loop that continues while netData has room | A wrap that produces k > 0 bytes into the cleared netData of capacity c > k leaves position k and limit c. The write then sends bytes k to c of netData, none of the k produced. After compact the loop goes on until a write at position 0 sends nothing. `UnflippedWriteMissesCiphertext` is a concrete case with one produced byte | Flip before writing, as the handshake (lines 203-206) and writeAndEncode (lines 326-330) do, so that the produced ciphertext is what is sent | medium, not executed | SecureSession.SSLSocketHandler.FlushAsWritten | SecureSession.SSLSocketHandler.FlushCiphertext |

`ShuttingDownSSLConnection` uses the corrected flush.

## Left out

- TLS cryptography and record framing inside `SSLEngine`. The engine is an oracle for status, handshake status and byte counts, and the bytes it produces are unconstrained.
- Exceptions raised inside the foreign calls: `SSLEngine.wrap` and `unwrap` (SSLException, including SSLHandshakeException and a bad record MAC) and `SocketChannel.read` and `write` (IOException on a reset connection, ClosedChannelException on a closed channel) never fail in the model. The handler lets them propagate from doHandshake and readAndDecode, `accept` turns them into IOException, `write` swallows them, and the reactor logs them (Server.java:215). Every "throws exactly when" in the contracts and the rows of `HandshakeStep`, `HandshakeLoop`, `DoHandshake`, `Accept`, `DecodeOnce`, `DecodeAvailable`, `ReadAndDecode`, `EncodeOnce`, `EncodeAll` and `WriteAndEncode` covers only the exceptions the handler raises itself.
- `createSSLEngine` (SSLSocketHandler.java:118-144): keystore and truststore loading and `SSLContext` setup are foreign, file-based credential handling. `Accept` takes the session's buffer sizes as parameters instead, and the failures of that setup are not modelled.
- Running delegated tasks and the thread pools: `RunDelegatedTasks` only counts how many delegated tasks were submitted.
- The refresh `Timer`, `Server.start`'s bind and its selector loop (Server.java:116-221 outside the per-key body and the flag set at line 124, which `Start` models): these are scheduling and I/O.
- Blocking in `LinkedBlockingQueue`: a take from an empty queue or a put into a full one is reported (`Idle`, `QueueFull`, `Waiting`, or `Put` giving None) instead of waiting.
- Concurrency between the reactor and the workers, and the `synchronized` block: get-or-create is one sequential step.
- Queue identity: the write queues are values in a map that the methods reassign, so aliasing between the worker's reference and the map entry is not modelled.
- Groovy parsing and execution (Server.java:152-158): the script is a function parameter from the script text, the attachment and the peer to a result, null, or a raised exception.
- Decoding the script file from UTF-8: the script is kept as its bytes.
- `Thread.interrupted()` in the worker and reactor loop conditions.
- Logging, `printStackTrace` and `System.out`.
- The `default` branches of the status switches in readAndDecode and writeAndEncode (SSLSocketHandler.java:302-303, 338-339): the status type has exactly the four statuses, so they are unreachable. The handshake switch's `default` is kept, since the handshake status type includes `NEED_UNWRAP_AGAIN`.
- A null from `ServerSocketChannel.accept()` in non-blocking mode, and a call to the handler's read or write before any accept: both are NullPointerExceptions caught around the key. In the model, `HandleKey` receives the handler's answers as parameters, and the handler methods require an accepted session.
- Termination of the spin loops (SSLSocketHandler.java:161, 204, 285, 321, 354, and Server.java:134, 181-182): each loop has a fuel parameter and reports `Stalled` when the fuel runs out, and termination is not claimed.
- SecureSession.SSLSocketHandler.DoHandshake: the clearing of peerAppData and netData at SSLSocketHandler.java:155-156 is not visible in its postcondition, which states appData's and, through the start state of the pass trace, that peerNetData has room for the first read; `ClearBuffers`, which it calls first, states all four.
- Dispatch.Server.ServeOne: `getRemoteAddress()` (Server.java:138) is taken to succeed, because the server never closes a client socket; its `IOException` would take the same caught path as the script's.
- Dispatch.Server.constructor: requires a positive size; `Create` models the `IllegalArgumentException` that `LinkedBlockingQueue` throws for the others.
- SecureSession.SSLSocketHandler.ReadAndDecode: once an unwrap answered BUFFER_UNDERFLOW, which ciphertext the later unwraps take is not stated. handleBufferUnderflow either clears peerNetData, so the loop goes on over the whole buffer from position 0, bytes already consumed included, or copies the bytes before the position into a larger buffer and goes on after them. The same holds for DecodeAvailable and DecodeStep.
- SecureSession.SSLSocketHandler.ShuttingDownSSLConnection: does not state which bytes reach the channel beyond that the sent log only grows, because wraps that report CLOSED produce ciphertext that is not written.
