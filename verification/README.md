# aesdchar, its server and its queues: a verified model

This project models, in Dafny, the parts of the repository that keep state over whole
runs, and proves what they keep.

- **The aesdchar device** (`aesd-char-driver/`). Writes gather in a pending entry; when it
  holds a newline it is committed to a fixed ring that evicts the oldest entry. Reads, seeks
  and the seek ioctl present the ring as one flat byte stream. The capacity is any `n` from
  1 to 255 (the indices are 8 bits wide); the program uses 10.
- **The intrusive queues** (`server/queue.h`): SLIST, STAILQ, LIST and TAILQ, as pointer
  programs over one class of cells.
- **The server** (`server/aesdsocket.c`): how a connection's bytes are cut into messages,
  what the threads do under the mutex in every interleaving, and how `main` registers,
  reaps and shuts down the threads.

## Layout

| file | contents |
|---|---|
| `Bytes.dfy`, `Modulo.dfy` | byte strings, concatenation, the last `n` items; wrapping indices |
| `CircularBuffer.dfy` | the ring: class `Ring` |
| `DeviceSpec.dfy` | the device as values: commands committed and bytes pending, reads, seeks |
| `Driver.dfy` | the file operations and their memory: class `Device`, proved against `DeviceSpec` |
| `DriverRuns.dfy` | whole runs of driver calls |
| `Links.dfy`, `SinglyLinkedList.dfy`, `SinglyLinkedTailQueue.dfy`, `DoublyLinkedList.dfy`, `TailQueue.dfy` | the four queues |
| `QueueRuns.dfy` | whole runs of tail queue operations on two queues |
| `Framing.dfy`, `SeekCommand.dfy` | receiving messages; the textual seek command |
| `ServerProtocol.dfy` | the threads as interleaved steps over `DeviceSpec`, and their invariant |
| `ServerTheorems.dfy`, `ServerMessages.dfy`, `ServerProgress.dfy` | what holds in every interleaving; what becomes of each connection's messages; what is achieved when nothing fails |
| `ServerCalls.dfy` | the steps' system calls, made on `Driver.Device` |
| `ServerProcess.dfy` | the server as a program over `Driver.Device`: class `Process`, proved against `ServerProtocol` |
| `Registry.dfy` | the thread registry over `SinglyLinkedList` |

The device has two descriptions. `DeviceSpec.Dev` is a value: the commands committed so far
and the pending bytes. `Driver.Device` is an object with slots, offsets, a heap of blocks
and a pending entry; each of its methods states its result as a function of that value, so
what is proved about the value holds of the object. The server likewise: `ServerProtocol` gives
its runs as values, and `ServerProcess.Process` is an object with the threads' variables, the
mutex and the descriptor, which makes the system calls on the device object and stands, after
any schedule, as the run with the same steps.

A queue is described by the sequence of its cells, head first. The address of a "next" field
is the cell that holds it, so `TAILQ_LAST` and `TAILQ_PREV` read as `back.back.next`.

What the environment decides is a parameter or a nondeterministic choice: whether a wait for
the driver's lock is interrupted, how many bytes a copy leaves out, whether memory is found
and where, what a new block contains, how many bytes a recv finds, when threads finish.

## Where the code departs from its intent

- The seek ioctl counts commands from slot 0, not from the oldest command. `SeekExactly`
  gives the exact condition under which the two agree on every request;
  `SeekTurnedCounterexample` gives, for every capacity above one, commands and a request on
  which they differ. A successful seek still always leaves something to read (`SeekThenRead`).
- A write whose newline is not its last byte commits an entry that is not a line.
  `LinesExactly` says that this is the only way the entries differ from the lines.
- The pointer handed back for an evicted entry is freed only when it is NULL, a write that
  copies nothing leaves a block that the next write forgets, a failed krealloc forgets one,
  and the pending entry is not freed at unload. `RunAndUnload` states, from the calls made and
  their results, exactly when unloading leaves no block behind; `OneWrite`, `CopiedNothing` and
  `TooManyLines` show runs of both kinds.
- A failed `krealloc` clears the pointer of the pending entry and keeps its size. The model
  does the same (`Device.Lost`): the next successful write starts with arbitrary bytes, which
  is what `Device.Write` states. `Run` states, from the calls made and their results, exactly
  when this has happened: a write returned -ENOMEM while bytes were pending. In all other runs
  no byte is lost. `LosingRun` and `HarmlessFailure` are runs of both kinds.
- `aesd_llseek` sums the stream length into a variable that it does not initialise. The model
  starts from any value; `SeekEndThenRead` states that SEEK_END tells the length exactly when
  the variable happens to hold 0.
- `realloc` does not zero the tail that it adds to the receive buffer. The model lets it hold
  anything; `GrowthNeedsZeros` and `ReceiveChunk` show that the framing is right exactly when
  its first 127 bytes are zero (the program clears the last one itself).
- The C string functions stop at a NUL: `ReceiveAll` states exactly when no byte is lost, and
  `LosesBehindNul` receives a stream of which bytes are lost.
- After a seek, later plain messages on the connection are answered from the position behind
  the message just written, so the reply leaves out as many bytes as the message has
  (`RepliesAreLastMessages`).
- Four error returns keep the mutex, and so does a seek command without a comma, at which the
  program reads through an invalid pointer, which ends the whole process; the model stops the
  thread alone, and what it says of other threads after that does not apply to the program. `KeptExactly` says that the mutex is kept for good
  exactly after one of these, `StuckRun` is such a run, and `HeldForever` states the
  consequence. The safety theorems include these runs.

## Model

| member | source | states |
|---|---|---|
| `Bytes.Characters` | server/aesdsocket.c:143-145 | what a newline and a NUL are |
| `CircularBuffer.AtUnique` | aesd-char-driver/aesd-circular-buffer.c:44-55 | an offset names at most one byte of one entry, zero-size entries included |
| `CircularBuffer.AtExists` | aesd-char-driver/aesd-circular-buffer.c:44-57 | an offset names a byte exactly when it is below the total size |
| `CircularBuffer.Ring.constructor` | aesd-char-driver/aesd-circular-buffer.c:96-99 | a cleared ring is a reachable one, with nothing in it |
| `CircularBuffer.Ring.NextSlot` | aesd-char-driver/aesd-circular-buffer.c:82-83 | on every reachable ring `in_offs` is the number of entries added, modulo the capacity |
| `CircularBuffer.Ring.FindEntryOffsetForFpos` | aesd-char-driver/aesd-circular-buffer.c:31-58 | on every reachable ring: NULL exactly when the offset is at least the total; otherwise the entry `k` and byte `b` with sizes before `k` plus `b` equal to the offset, in slot `out_offs + k` wrapped |
| `CircularBuffer.AddedInOrder` | aesd-char-driver/aesd-circular-buffer.c:76-88 | storing at `in_offs` and advancing keeps the newest entries in read order, for every rotation |
| `CircularBuffer.OldestNext` | aesd-char-driver/aesd-circular-buffer.c:76-82 | on a full ring the slot about to be overwritten holds the oldest entry |
| `CircularBuffer.Ring.AddEntry` | aesd-char-driver/aesd-circular-buffer.c:67-91 | the ring stays reachable and shows the last entries added, in order; the result is the block of the oldest entry when full, and over a run of the first, second, ... entry added |
| `CircularBuffer.Ring.WalkTotal` | aesd-char-driver/main.c:174-208 | the SEEK_END loop terminates and adds the flat length to what the sum starts from, on empty, partly filled and full rings |
| `DeviceSpec.AcceptedInOrder` | aesd-char-driver/main.c:126-165 | committed commands and pending bytes are the accepted bytes, in order |
| `DeviceSpec.Conservation` | aesd-char-driver/main.c:97-169 | for every chunking: accepted bytes = evicted commands, ring in read order, pending |
| `DeviceSpec.Grouping` | aesd-char-driver/main.c:149-165 | every run of chunks splits into one group per command whose only chunk with a newline is its last, and a rest without newlines, which is pending |
| `DeviceSpec.LinesUnique` | aesd-char-driver/main.c:153-165 | a byte stream has one decomposition into complete lines and a rest |
| `DeviceSpec.LinesExactly` | aesd-char-driver/main.c:126-165 | the commands are the lines of the byte stream if and only if no chunk has a newline before its final byte |
| `DeviceSpec.ChunkingIrrelevant` | aesd-char-driver/main.c:126-165 | two such chunkings of one byte stream leave the same commands and pending bytes |
| `DeviceSpec.ReadInEntry` | aesd-char-driver/main.c:72-90 | a read at byte `b` of entry `k` returns that entry's bytes from `b`, at most `count` and never past its end |
| `DeviceSpec.ReadIsSlice` | aesd-char-driver/main.c:72-94 | a read is a slice of the flat stream at the position, at most `count` long, empty only at the end or for count 0 |
| `DeviceSpec.ReadsEntry` | aesd-char-driver/main.c:72-90 | a read with a large enough count leaves fewer entries unread |
| `DeviceSpec.SlotsHoldStream` | aesd-char-driver/main.c:266-269 | the slots hold as many bytes as the stream, whatever the rotation |
| `DeviceSpec.SeekThenRead` | aesd-char-driver/main.c:259-271 | a successful seek leaves the position below the stream length, and the next read is not empty |
| `DeviceSpec.SeekExactly` | aesd-char-driver/main.c:259-271 | the ioctl resolves every request as counting from the oldest command would, if and only if the ring is not full or its sizes are unchanged by turning it by `out_offs` |
| `DeviceSpec.SeekUnturned` | aesd-char-driver/main.c:259-271 | when `out_offs` is 0, a read after a seek returns the bytes of the command named, from the byte named |
| `DeviceSpec.SeekTurnedCounterexample` | aesd-char-driver/main.c:259-271 | for every capacity above one: n + 1 writes after which asking for the second oldest command leads into the oldest |
| `Driver.Device.constructor` | aesd-char-driver/main.c:314-316 | a zeroed device has an empty history, nothing pending and no blocks |
| `Driver.Device.Reserve` | aesd-char-driver/main.c:126-147 | after a successful allocation the pending block has room and still holds the pending bytes; exactly which block becomes unreachable, on success and on failure |
| `Driver.Device.CopyIn` | aesd-char-driver/main.c:149-151 | the copied bytes follow the pending ones; no committed entry changes |
| `Driver.Device.Commit` | aesd-char-driver/main.c:153-165 | the pending entry becomes the newest command; no block is freed; all blocks stay accounted for |
| `Driver.AccountsCommit` | aesd-char-driver/main.c:155-162 | moving the pending block into the log keeps committed, pending and dropped blocks pairwise distinct and exhaustive |
| `Driver.Device.Write` | aesd-char-driver/main.c:97-169 | every outcome: return value, effect on commands and pending bytes, file position, the pending block, blocks dropped; the content and ownership invariants are kept, after failed allocations too |
| `Driver.Device.SeekFinds` | aesd-char-driver/main.c:259-271 | when `out_offs` is 0, the position a seek leads to is byte `write_cmd_offset` of entry `write_cmd`, which is what find returns there |
| `Driver.Device.Read` | aesd-char-driver/main.c:47-95 | the bytes and count returned, with short copies, and the new position, as a read of the flat stream |
| `Driver.Device.Llseek` | aesd-char-driver/main.c:171-226 | SEEK_SET, SEEK_CUR and SEEK_END relative to 0, the position and the stream length (plus what the uninitialised variable holds); -EINVAL for a bad origin or a negative target, position unchanged |
| `Driver.Device.Ioctl` | aesd-char-driver/main.c:228-275 | every error case; on success the position is the byte named, counting from slot 0 |
| `Driver.EvictedNotHeld` | aesd-char-driver/main.c:155-160 | the block of an evicted entry is in no slot and belongs to no other entry |
| `Driver.Device.FreeSlots` | aesd-char-driver/main.c:336-339 | the loop frees each block held by a slot, and never one twice |
| `Driver.CleanupLeaves` | aesd-char-driver/main.c:336-339 | nothing is left if and only if nothing was evicted, dropped or pending |
| `Driver.Device.Cleanup` | aesd-char-driver/main.c:327-344 | exactly the ring's blocks are freed; what is left are the evicted, dropped and pending blocks, so none if and only if there are none of these |
| `DriverRuns.ReadMore` | aesd-char-driver/main.c:72-94 | a fully copied read returns between 1 and `count` bytes, the next ones, until the end, and then 0 |
| `DriverRuns.Drain` | aesd-char-driver/main.c:72-94 | reading with any positive counts until 0 terminates and yields the stream from the starting position |
| `DriverRuns.SeekEndThenRead` | aesd-char-driver/main.c:174-225 | SEEK_END with offset 0 returns the stream length if and only if the uninitialised variable holds 0; the next read then returns 0, also when it holds more |
| `DriverRuns.SeekToThenRead` | aesd-char-driver/main.c:228-275 | a seek request with the request number of the server succeeds if and only if the slot and the byte exist; it is then followed by a read that finds something, and what was asked for when `out_offs` is 0 |
| `DriverRuns.ForgetsAppend` | aesd-char-driver/main.c:126-147 | the calls that make the driver forget a block, told from calls and results: asking for memory while a block is held, with nothing pending or without getting any |
| `DriverRuns.Perform` | aesd-char-driver/main.c:47-275 | each call, from its own arguments, the device and the position of its file: what it returns, the bytes it hands over, where the file is then, and its effect on commands, pending block and forgotten blocks |
| `DriverRuns.LosesAppend` | aesd-char-driver/main.c:138-147 | the calls that lose pending bytes, told from calls and results: a write that finds no memory while bytes are pending |
| `DriverRuns.Run` | aesd-char-driver/main.c:47-275 | for every run of calls from init, through any files: every call returns, hands over and moves what its arguments, the device and the position then ask for; pending bytes have been lost if and only if the calls and results say so; if not, the accepted bytes are evicted commands, ring and pending bytes in order; the ring's blocks hold the last `n` commands; forgotten and held blocks are those that calls and results tell |
| `DriverRuns.RunAndUnload` | aesd-char-driver/main.c:97-344 | after any run of calls, unloading leaves no block behind if and only if no call forgot a block, none is held, and at most `n` commands were committed: all told from the calls and their results |
| `DriverRuns.OneWrite` | aesd-char-driver/main.c:126-165 | a run of one full write is tidy if and only if it brings a newline |
| `DriverRuns.CopiedNothing` | aesd-char-driver/main.c:126-151 | a write that copies nothing, followed by one that copies, is not tidy |
| `DriverRuns.TooManyLines` | aesd-char-driver/main.c:155-160 | n + 1 commands are not tidy |
| `DriverRuns.LosingRun` | aesd-char-driver/main.c:138-147 | a write that finds no memory after one that left bytes pending loses them |
| `DriverRuns.HarmlessFailure` | aesd-char-driver/main.c:126-147 | one that finds no memory on a new device loses nothing |
| `SinglyLinkedList.InsertHead` | server/queue.h:224-227 | insertion at the front; two cells change |
| `SinglyLinkedList.InsertAfter` | server/queue.h:219-222 | insertion behind an element |
| `SinglyLinkedList.RemoveHead` | server/queue.h:250-252 | removal of the first element |
| `SinglyLinkedList.RemoveAfter` | server/queue.h:245-248 | removal of the next element |
| `SinglyLinkedList.Remove` | server/queue.h:231-243 | removal of any element; the walk terminates and reads no freed cell; only the cell before it changes |
| `SinglyLinkedList.Swap` | server/queue.h:254-258 | the two lists exchange their elements |
| `SinglyLinkedTailQueue.Last` | server/queue.h:346-349 | the final element, NULL when empty |
| `SinglyLinkedTailQueue.Init` | server/queue.h:323-326 | an empty queue whose tail cell is its head |
| `SinglyLinkedTailQueue.InsertHead` | server/queue.h:334-338 | insertion at the front keeps the tail cell right |
| `SinglyLinkedTailQueue.InsertTail` | server/queue.h:340-344 | appends, without a walk |
| `SinglyLinkedTailQueue.InsertAfter` | server/queue.h:328-332 | insertion behind an element keeps the tail cell right |
| `SinglyLinkedTailQueue.RemoveHead` | server/queue.h:373-377 | removal of the first element keeps the tail cell right |
| `SinglyLinkedTailQueue.RemoveAfter` | server/queue.h:367-371 | removal of the next element keeps the tail cell right |
| `SinglyLinkedTailQueue.Remove` | server/queue.h:353-365 | removal of any element keeps the tail cell right |
| `SinglyLinkedTailQueue.Concat` | server/queue.h:291-297 | concatenation that empties the second queue |
| `SinglyLinkedTailQueue.Swap` | server/queue.h:379-390 | the two queues exchange their elements; both tail cells are right |
| `DoublyLinkedList.Prev` | server/queue.h:505-508 | the previous element, NULL for the first |
| `DoublyLinkedList.PrevNextInverse` | server/queue.h:503-508 | LIST_PREV and LIST_NEXT undo each other |
| `DoublyLinkedList.InsertHead` | server/queue.h:495-501 | insertion at the front keeps forward and back links; three cells change |
| `DoublyLinkedList.InsertAfter` | server/queue.h:478-485 | insertion behind an element, without a walk |
| `DoublyLinkedList.InsertBefore` | server/queue.h:487-493 | insertion before an element, without a walk and without the head |
| `DoublyLinkedList.Remove` | server/queue.h:510-521 | removal of an element, without a walk and without the head |
| `DoublyLinkedList.Swap` | server/queue.h:523-531 | the two lists exchange their elements; the first elements' back links are right |
| `TailQueue.Last` | server/queue.h:710-711 | the double indirection reaches the final element, NULL when empty |
| `TailQueue.Prev` | server/queue.h:715-716 | the double indirection from element i reaches element i - 1, NULL from the first |
| `TailQueue.Init` | server/queue.h:656-660 | an empty queue |
| `TailQueue.InsertHead` | server/queue.h:687-698 | insertion at the front keeps forward, back and tail links |
| `TailQueue.InsertTail` | server/queue.h:700-708 | appends, without a walk |
| `TailQueue.InsertAfter` | server/queue.h:662-675 | insertion behind an element |
| `TailQueue.InsertBefore` | server/queue.h:677-685 | insertion before an element, without the head |
| `TailQueue.Remove` | server/queue.h:718-734 | removal of an element, without a walk |
| `TailQueue.Concat` | server/queue.h:601-610 | concatenation that empties the second queue |
| `TailQueue.Swap` | server/queue.h:736-751 | the two queues exchange their elements |
| `TailQueue.Foreach` | server/queue.h:616-619 | visits the elements in order and terminates |
| `TailQueue.ForeachReverse` | server/queue.h:636-639 | visits exactly the reverse of the forward traversal and terminates |
| `QueueRuns.EffectDoes` | server/queue.h:219-751 | the operations on sequences do what the macros are for, told by what stands before and behind the elements |
| `QueueRuns.DoesOne` | server/queue.h:219-751 | that leaves no choice of result |
| `QueueRuns.Chained` | server/queue.h:291-751 | a run is a chain of such operations, each on one of the two queues |
| `QueueRuns.EffectSeparate` | server/queue.h:601-751 | separate queues stay separate under every operation |
| `QueueRuns.StailqRun` | server/queue.h:291-390 | after any legal run of operations on two queues, both are well formed and are what a chain of operations, each doing what its macro is for, makes of two sequences; nothing else is touched |
| `QueueRuns.TailqRun` | server/queue.h:601-751 | the same for TAILQ |
| `Framing.Recv` | server/aesdsocket.c:113 | is only ever called with room for a byte, and never reaches the last byte of the buffer; writes the received bytes and nothing else |
| `Framing.Grow` | server/aesdsocket.c:124-136 | the old bytes, then whatever the allocator left in the new tail |
| `Framing.GrowthNeedsZeros` | server/aesdsocket.c:124-145 | the string functions see exactly the received bytes, however many arrive, if and only if the first 127 bytes of the added tail are zero |
| `Framing.ReceiveChunk` | server/aesdsocket.c:113-143 | a turn of the loop leaves the received bytes at the front, for every tail; followed by zeros if and only if the buffer did not grow or the tail is harmless |
| `Framing.ReceiveMessage` | server/aesdsocket.c:90-149 | the buffer starts with the bytes received since the last message; with harmless tails zeros follow, and the loop ends with a message only when the C string has a newline and goes on only when it has none; it ends without one exactly when an exit is due, and takes something in each turn that finds something |
| `Framing.ReceiveAll` | server/aesdsocket.c:88-176 | over a connection: raw messages and buffered bytes are the received stream, up to the turn at which an exit is due; every message has a newline and no NUL; with harmless tails no byte is lost if and only if no NUL was received before the buffered bytes, and none from NUL-free input |
| `Framing.LosesBehindNul` | server/aesdsocket.c:145-176 | a line, a NUL and a byte in one recv: bytes are lost |
| `SeekCommand.AtoiDecimal` | server/aesdsocket.c:159-162 | atoi reads back decimal notation |
| `SeekCommand.AtoiSigned` | server/aesdsocket.c:159-162 | atoi skips white space, heeds a sign, and stops at the first byte that is no digit |
| `SeekCommand.CommandCharacters` | server/aesdsocket.c:28-162 | the characters of a command: its first 19, the comma, signs, digits and white space |
| `SeekCommand.DecimalPrints` | server/aesdsocket.c:159-162 | decimal notation is written with the characters 0 to 9 |
| `SeekCommand.RoundTrip` | server/aesdsocket.c:155-162 | for all X and Y below 2^31 the text "AESDCHAR_IOCSEEKTO:X,Y" and a newline is recognised and parsed back |
| `SeekCommand.ParseExactly` | server/aesdsocket.c:155-160 | a message is data if and only if it does not begin with "AESDCHAR_IOCSEEKTO:", and malformed if and only if it does and has no comma |
| `ServerProtocol.WriteKeeps` | server/aesdsocket.c:176 | a message copied in full is committed as one command, and the position left is inside the stream |
| `ServerProtocol.ReadOnTrack` | server/aesdsocket.c:222-235 | each read of the reply loop is the next slice of the stream; nothing to read means the end |
| `ServerProtocol.StepKeepsInv` | server/aesdsocket.c:88-250 | every step of every thread, failures included, keeps the invariant |
| `ServerProtocol.RunKeepsInv` | server/aesdsocket.c:88-250 | every interleaving of any number of threads keeps it |
| `ServerTheorems.RunConn` | server/aesdsocket.c:83-187 | over every run a thread's `ioctlCmdRecv` says whether one of its commands so far was a seek, and each reply is filed under its command |
| `ServerTheorems.MutualExclusion` | server/aesdsocket.c:151-249 | in every reachable state, error returns included, at most one thread is in the locked section |
| `ServerTheorems.Replies` | server/aesdsocket.c:151-249 | every reply, finished or broken off, is a prefix of the stream from the command's start offset as it stood after that command, and all of it when the loop ends cleanly; the start offset is where a seek command leads, and 0 when no seek was among the connection's messages so far |
| `ServerTheorems.RepliesAreLastMessages` | server/aesdsocket.c:174-249 | with full copies, a whole reply on a connection without seeks among its messages is the last min(k, n) messages, k being this message's place; after a seek it leaves out as many bytes as the message has |
| `ServerTheorems.KeptExactly` | server/aesdsocket.c:158-245 | over every run, the mutex belongs to a returned thread if and only if some step was a failed write, allocation, read or send, or a seek command without a comma |
| `ServerTheorems.StuckRun` | server/aesdsocket.c:178-184 | five steps after which it does |
| `ServerTheorems.HeldForever` | server/aesdsocket.c:178-245 | from then on device, position and replies never change again |
| `ServerMessages.ConnectionInOrder` | server/aesdsocket.c:88-250 | over every run, the messages that arrive for a thread are carried out and answered in their order, none twice and none left out: at most one has arrived and not been carried out, and at most one has been carried out and not answered |
| `ServerMessages.ReturnedExactly` | server/aesdsocket.c:105-245 | over every run, a thread has returned if and only if one of its steps was a failed recv, ioctl, seek to the end, write, allocation, read or send, a seek that leads nowhere, or a seek command without a comma |
| `ServerProgress.CompleteExactly` | server/aesdsocket.c:176-184 | over every run, every message was copied in full if and only if no step was a write that left bytes out |
| `ServerProgress.FaultlessRun` | server/aesdsocket.c:151-249 | in a run in which nothing fails, every message is copied in full and every reply is whole |
| `ServerProgress.FaultlessReplies` | server/aesdsocket.c:88-249 | so in such a run every reply is to a message that arrived on its connection; to data, on a connection without seeks, it is the last min(k, n) of the data messages carried out so far, after a seek it leaves out as many bytes as the message has, and to a seek it is those messages from where it leads |
| `ServerProgress.RunOn` | server/aesdsocket.c:88-250 | a run goes on from the state it has reached |
| `ServerProgress.OtherStep` | server/aesdsocket.c:88-250 | while a thread is at work on a message, a step of another thread, failing or not, changes nothing of it |
| `ServerProgress.Undisturbed` | server/aesdsocket.c:151-249 | in every interleaving: a message, data or a seek that leads somewhere, whose thread gets the mutex and takes 2 * (commands in the ring) + 9 steps of its own without a failure is carried out, answered in full from its start offset and on record for good, the mutex released and the thread receiving again, whatever the other threads do and whatever fails in them |
| `ServerCalls.Open` | server/aesdsocket.c:153 | a file at position 0 |
| `ServerCalls.WriteData` | server/aesdsocket.c:176 | the driver's write does to device and position what the step does |
| `ServerCalls.SeekCommanded` | server/aesdsocket.c:157-164 | the driver's ioctl, with the server's request number, does what the step does, and succeeds exactly when the step does |
| `ServerCalls.Tell` | server/aesdsocket.c:189 | the position the step reads |
| `ServerCalls.SeekEnd` | server/aesdsocket.c:196 | the end the step measures |
| `ServerCalls.SeekSet` | server/aesdsocket.c:208 | the position the step restores, also when the offset is -1 |
| `ServerCalls.ReadChunk` | server/aesdsocket.c:222 | the bytes and position of the step |
| `ServerProcess.Writes` | server/aesdsocket.c:176-184 | the write and what the thread makes of its result are one step, which fails when the driver says so |
| `ServerProcess.Seeks` | server/aesdsocket.c:155-171 | the same for the ioctl |
| `ServerProcess.Reads` | server/aesdsocket.c:222-235 | the same for the read |
| `ServerProcess.InsideTurn` | server/aesdsocket.c:151-249 | a turn of the thread that has the mutex: its variables, the mutex, the device, the position and the reply are those of the step |
| `ServerProcess.Process.constructor` | server/aesdsocket.c:75-86 | before the first connection all stands as at the start of a run |
| `ServerProcess.Process.Act` | server/aesdsocket.c:88-250 | each turn of each thread is a step of the run; only a write may fail that the environment let succeed |
| `ServerProcess.Schedule` | server/aesdsocket.c:88-250 | after any schedule of any threads on one device, device, position, mutex, variables, and replies sent to each client are those of a run with the same steps |
| `Registry.StayExactly` | server/aesdsocket.c:440-454 | a node stays exactly when its thread had not set its flag by the time the walk looked at it |
| `Registry.Connections.Accept` | server/aesdsocket.c:425-438 | the new node is first in the list and accounted for |
| `Registry.Connections.Join` | server/aesdsocket.c:444 | only a thread that has set its flag is joined, once, its node not freed |
| `Registry.Connections.Close` | server/aesdsocket.c:447 | only after the join, once, the node not freed |
| `Registry.Connections.Unlink` | server/aesdsocket.c:448 | the node leaves the list; the walk to it reads no freed node |
| `Registry.Connections.Free` | server/aesdsocket.c:449-452 | only after the close and out of the list, once; nothing is known of its fields afterwards |
| `Registry.Connections.Dispose` | server/aesdsocket.c:442-453 | a finished thread's node is joined, closed, unlinked and freed, in that order |
| `Registry.Connections.Visit` | server/aesdsocket.c:440-454 | one turn of the walk, with flags set meanwhile: the successor, read before the node may be freed, is the next node of the original list |
| `Registry.Connections.Reap` | server/aesdsocket.c:440-454 | the walk terminates, looks at every original node once, reads no freed node, and leaves those not seen complete, in order |
| `Registry.Connections.AcceptAndReap` | server/aesdsocket.c:425-454 | a new node comes first, and those that the walk then sees complete go |
| `Registry.ListedWhile` | server/aesdsocket.c:400-455 | over the accept loop, a connection whose flag was not set by the last walk is still listed, and one whose flag was set before the last walk is not |
| `Registry.Connections.TellAll` | server/aesdsocket.c:457-462 | exactly the listed threads are told to exit |
| `Registry.Connections.JoinAll` | server/aesdsocket.c:464-475 | a thread is waited for only when it has been told to exit or has set its flag; the list ends empty and every accepted connection is disposed of; no freed node is read |
| `Registry.Serve` | server/aesdsocket.c:400-475 | over every run of `main`'s loops as many connections come as were there; those the walks have left, and no others, are told to exit; each connection is joined, closed and freed, none twice, and the list ends empty |

## Assumptions

- `totalLength` in `aesd_llseek` (aesd-char-driver/main.c:174) is never initialised; the theorems on the driver are for every value it may hold, those on the server for 0.
- What a message is taken to be depends on the tail that `realloc` adds to the receive buffer (server/aesdsocket.c:126); the theorems on messages are for tails that do no harm, a condition stated in them, and those on the bytes received are for all.
- The position passed to read and write is the position of the open file, as the kernel passes it.
- The server is the only writer of the device, and `send` sends everything it is given.
- Integers are mathematical: stream lengths stay below 2^31 for the server's `int` and below 2^63 for `loff_t`.

## Left out

- Kernel registration, open and release, module plumbing: foreign calls without logic of their own.
- NULL checks of `filp`, `buf`, `f_pos`, `buffer` and `add_entry`: the model's references are never null.
- The server's own memory (receive and send buffers, including the pointer moved past the command prefix before it is freed): only the buffer contents are modelled.
- A seek command without a comma: the program then reads address 1 (server/aesdsocket.c:160-162), which ends the whole process; in the model the thread stops there, holding the mutex, and the other threads may still wait for it.
- Sockets, daemonising, signals, syslog, the timestamp code that is compiled out, fatal errors of `accept`, the per-thread exit mutex.
- Termination of the receive loop and of the shutdown: a thread may wait forever for bytes, and after end of stream it spins; a thread waiting on a mutex that is never released need not finish.
- After a failed write the server model keeps the device as it was; a failed `krealloc` would also lose the pending bytes, but the mutex is then held forever and no thread looks at the device again, as `ServerProcess.Schedule` shows.
- The FROM, SAFE and PREVPTR variants of the traversal macros, other than the SLIST_FOREACH_SAFE walk of `main`: they would repeat the loops that are here.
- Debugging macros and C++ variants of `server/queue.h`: they compile to nothing or repeat the C forms.
- `examples/`, `finder-app/`, scripts and tests: thin wrappers over the operating system.
