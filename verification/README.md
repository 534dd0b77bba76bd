# A verified model of ccml's channel, memory and threading core

ccml is a small C++ library for distributed training. This project models the parts of
it whose correctness is not visible in any one function body, and proves what they are
there for. The kernel, the underlying allocator and the thread scheduler are
nondeterministic: a result about a call holds whatever they do, and a result about a run
holds for every interleaving.

| file | what it models |
|---|---|
| `Basics.dfy`, `Bytes.dfy` | shared names, and what a failed check does; bytes, words, sums and concatenations |
| `Posix.dfy`, `Transfer.dfy` | process memory and a socket whose system calls stop short at any point; the vectored transfer that restarts them, shifting its buffer list in place |
| `Framing.dfy`, `Wire.dfy`, `Reading.dfy`, `SocketChannel.dfy` | the message format, byte by byte, and what reading a message does, as functions of the byte stream; the channel and message reader proved against them |
| `ProtoServer.dfy` | remote calls: request, dispatch, reply, the worker loop of a connection |
| `PoolModel.dfy`, `PoolAllocator.dfy`, `MemoryHandle.dfy` | the memory pool over all its runs, the pool and handle classes, request rounding |
| `Locks.dfy`, `Storage.dfy` | the reader-writer lock and the double-checked creation of the allocator |
| `Queue.dfy`, `ThreadWorker.dfy` | the blocking queue and the worker thread, with any number of clients |
| `Bits.dfy`, `ReadWriteBuffer.dfy` | mask arithmetic on words, and aligned blocks carved from a buffer |
| `StringUtils.dfy`, `CommandLineParser.dfy` | splitting, flag parsing, compaction of the argument vector |
| `InitFunctions.dfy` | prioritised functions that run once |

Methods are proved against functions of the old state (`Move`, `Step`, `ParseMessage`,
`Frame`, `Apply`, `Kept`, ...); the lemmas then say what those functions are good for.

## Where the code does not do what it is for

Where the code differs from what it is for, both forms are in the model, and the theorems
say exactly when the code as written works.

- `LOG(FATAL)` and every `CC_CHECK` expand to a plain `LogMessage` (src/utils/Logging.h:33-44),
  whose destructor only prints; `LogMessageFatal`, which aborts, is used by no macro. So a
  failed check prints and execution goes on. What a check does is a parameter (`Checks`):
  `Printing` is the code, `Stopping` what the checks are for. With printing checks:
  - a vectored transfer over a sound kernel completes if and only if the stream is long
    enough, and otherwise spins at the end of the stream (`ReadWriteV`);
  - a wrong total, and a table that the stream ends inside, are accepted
    (`ParsePrintingIff`; with stopping checks `ParseIff`);
  - a session stays in step if and only if each message is read up to blocks that hold no
    byte; stopping checks demand that no block is left at all (`StaysInStep`);
  - a server answers every request that it can look up, and stays in step with its client
    if and only if no request leaves a byte unread (`ServedIff`): an unknown name is answered
    with an empty message, a plain function answers a request with user blocks, and in both
    cases what was not read is taken for the next header. Stopping checks end the process
    there (`RequestAnswered`);
  - a service name registered again replaces the first function (`RegisterServiceFunction`);
  - an init function registered after the run is accepted and never run, so all of them run
    if and only if no registration follows the run (`AllHaveRunIff`, `Perform`).
- `get_block_length(i)` looks up entry `current + 1` instead of `current + i` (`Indexing`).
  As intended, every list of messages comes back (`MessagesRoundTrip`); as written, a reader
  can be drained if and only if its message has no blocks (`AsWrittenDrains`), and, with
  printing checks, the stream is left at the next header if and only if neither the first
  block nor those behind the lengths used hold a byte (`AsWrittenInStep`).
- The number of buffers is passed as an `int`. A message goes out whole if and only if all
  its bytes are in buffers that this count covers (`OnWireWhole`), which holds for every
  message of fewer than 2^31 - 2 blocks whose total fits a word (`SmallRepresentable`).
- A pool hit assigns the block size to the counter of pooled bytes. Both forms are in the
  model (`Accounting`). Ownership holds for both; with subtraction the memory held stays
  under the peak of live bytes plus the limit (`AlwaysBounded`). As written the counter stays
  right if and only if each hit takes half of the pool (`AccurateIff`), and the bound holds
  throughout a run if and only if each miss that keeps the pool finds room in it
  (`BoundedIff`); for every limit larger than some block there are runs that miss it by any
  amount (`BoundFailsAsWritten`), so that memory handles keep it in every run if and only if
  the limit is at most 256 (`HandlesBoundIff`). What holds without any counter is that blocks
  of one size never outnumber the most of them ever live at once (`BlocksBounded`).
- `ThreadWorker::_empty` can be set while a job is being added. It means throughout a run
  that every added job has finished, if and only if it is only set with no job queued and
  jobs are only queued while it is not set (`DoneIff`); runs in which no `add_job` overlaps
  the worker's test-then-set section are such runs (`WaitMeansDone`), and in others `wait` can
  return too early (`OverlapExample`). A worker that never gets a job never lets a waiter go,
  its own destructor included (`WaitNeedsAJob`), and `stop` leaves a waiter waiting for ever
  if and only if the worker exits with `_empty` not set (`WaiterOfStoppedWorker`).
- The compile-time check of `AlignElementCount` is always true where it matters; blocks are
  aligned for all sizes if and only if that count is a power of two
  (`AlignmentNeedsPowerOfTwo`).
- A buffer list with bytes in it, of which the first 1024 buffers are empty, offers the
  kernel nothing at first. That fails a check, which stops the process or else steps over
  the empty buffers (`Completes`, `StepDelivers`).
- A bare boolean argument is ambiguous exactly when one flag is named `no` plus the name of
  another (`BareAmbiguity`), and whether two boolean flags are so named decides whether the
  parse depends on the order of registration (`OrderIff`).
- With `argc` zero, `parse_commandline_flags` sets it to one.

## Model

| member | source | states |
|---|---|---|
| Posix.MoveCompose | src/core/SocketChannel.cpp:63-71 | Two successive short transfers equal one transfer of both address lists: no byte lost, repeated or reordered where a transfer is resumed. |
| Posix.Kernel.Transfer | src/core/SocketChannel.cpp:64-70 | A system call moves any non-empty prefix of the offered bytes, reports end of stream, which it does only if nothing is offered or the stream has ended, or reports an error. |
| Transfer.Remaining | src/core/SocketChannel.cpp:73-89 | The shifted list from the current entry on names exactly the bytes of the original list that have not moved yet. |
| Transfer.Offer | src/core/SocketChannel.cpp:64-89 | Each call is offered the next bytes in order, and at least one byte as soon as the leading entry is not used up. |
| Transfer.SkipCompleted | src/core/SocketChannel.cpp:78-84 | The inner loop stops at the entry in which the transferred length ends, with what is left of the length inside it. |
| Transfer.Reposition | src/core/SocketChannel.cpp:73-89 | Un-shifting, skipping and shifting turn a list correct for `size` moved bytes into one correct for `size + length`, with a non-empty leading entry. |
| Transfer.Round | src/core/SocketChannel.cpp:63-90 | One iteration keeps the tie between bytes moved, current entry and shifted list, also when nothing has moved and the check only prints. It is stuck only after an error, at the end of the stream, or, with stopping checks, if the first window is empty. |
| Transfer.ReadWriteV | src/core/SocketChannel.cpp:46-92 | For every kernel behaviour: on return exactly the concatenation of the original buffers has moved, in order, once, the total is returned and the list is as it was; otherwise exactly a prefix has moved. With a sound kernel it returns if and only if the stream is long enough and, with stopping checks, there is nothing to move or a byte in the first window; with printing checks it otherwise spins with the whole stream taken. |
| Transfer.VectoredIO | src/core/SocketChannel.cpp:94-100 | The same for a vector of buffers, of which it moves exactly those that the `int` count covers. |
| Transfer.IntCountIs | src/core/SocketChannel.cpp:50-58 | The count is the `int` that the size converts to, or 0 where that is negative. |
| Transfer.StarvedIff | src/core/SocketChannel.cpp:64-65 | One byte behind empty buffers is out of reach of the first system call if and only if there are at least 1024 of them. |
| Bytes.DecodeEncode | src/core/SocketChannel.h:48-52 | An integer laid out in memory as little-endian bytes reads back as itself. |
| Bytes.TableRoundTrip | src/core/SocketChannel.cpp:120-124 | The table of block lengths reads back as written. |
| Wire.ByteAt | src/core/SocketChannel.h:48-52 | Byte `i` of an integer in memory is its digit `i` to the base 256. |
| Wire.TableAt | src/core/SocketChannel.cpp:120-129 | Entry `i` of the table stands at byte `8 * i`. |
| Wire.FrameLayout | src/core/SocketChannel.cpp:116-137 | The bytes of a message: its length at 0, the number of blocks at 8, the length of block `i` at `16 + 8 * i`, and then the blocks in order, each right behind the ones before it. |
| Framing.FrameSize | src/core/SocketChannel.cpp:132-137 | The total length in the header is the number of bytes of the whole message. |
| Framing.OnWireWhole | src/core/SocketChannel.cpp:50-99 | Of a message that fits its types, what goes out is the frame if and only if all its bytes are in buffers that are counted. |
| Framing.SmallRepresentable | src/core/SocketChannel.cpp:50-99 | They are for every message of fewer than 2^31 - 2 blocks. |
| Framing.ParseFrame | src/core/SocketChannel.cpp:102-114 | Reading the header and table of a written message yields its block lengths, passes the total-length check and stops where the contents begin, whatever follows. |
| Framing.ParseIff | src/core/SocketChannel.cpp:102-114 | With stopping checks, input is accepted as a message if and only if it begins with the header and table of some list of lengths, and exactly these are consumed. |
| Framing.ParsePrintingIff | src/core/SocketChannel.cpp:102-145 | With printing checks, input is accepted with these lengths if and only if it begins with a header of any total and their table, or ends inside that table where only zeros are missing. |
| Framing.NotAccepted | src/core/SocketChannel.cpp:102-114 | Which other input is the end of the stream, a header used in part, or the end of the process. |
| Reading.StepDelivers | src/core/SocketChannel.cpp:147-166 | One read operation delivers exactly the next blocks to its buffers and leaves the stream at the block after them if and only if all bytes are in counted buffers and, with stopping checks, the first window is not empty; otherwise the process stops, or goes on out of place. |
| Reading.PastTable | src/core/SocketChannel.cpp:147-148 | Asking for more blocks than there are fails the check, which stops the process or lets the lookup leave the table. |
| Reading.StreamEnds | src/core/SocketChannel.cpp:147-166 | Where the stream ends inside the blocks asked for, stopping checks stop the process; otherwise a vectored read never returns, and a single one takes what there is for the block. |
| Reading.RunDelivers | src/core/SocketChannel.h:55-84 | Any mix of read operations on a prefix of a message delivers its blocks and leaves the stream right behind them. |
| Reading.MessagesRoundTrip | src/core/SocketChannel.cpp:102-166 | Of any list of messages written back to back, repeated reading recovers in order what each plan covers, and leaves the stream behind them, if each plan consumes its message. |
| Reading.AllTakenWhole | src/core/SocketChannel.h:59-61 | With stopping checks that is every message, whole. |
| Reading.StaysInStep | src/core/SocketChannel.h:59-61 | Every `read_message` of a session finds the stream at a header, and no check stops it, if and only if each plan consumes its message: no block, or where checks only print no byte, is left unread. |
| Reading.AsWrittenDrains | src/core/SocketChannel.h:76-78 | With the index as written some sequence of operations drains a reader if and only if the message has no blocks. |
| Reading.AsWrittenInStep | src/core/SocketChannel.h:59-78 | With the literal index and printing checks, reading some blocks of a message leaves the stream at the next header if and only if the first block and those behind the lengths used hold no byte. |
| Reading.AsWrittenExample | src/core/SocketChannel.h:76-78 | As written, the first read of the message [7], [8, 9] takes two bytes and the second looks beyond the table. |
| Channel.SocketChannel.Read | src/core/SocketChannel.cpp:20-31 | Fills the buffer with the next bytes of the stream, fewer only if the stream ends or, with printing checks, after an error. |
| Channel.SocketChannel.Write | src/core/SocketChannel.cpp:33-44 | Sends a prefix of the buffer in order, all of it if the kernel reports no error. |
| Channel.SocketChannel.ReadMessage | src/core/SocketChannel.cpp:102-145 | Agrees with `ParseMessage`, for either kind of checks, on end of stream, rejected input, a header read in part, and messages; consumes exactly header and table, and changes no other memory. |
| Channel.SocketChannel.PrepareMessage | src/core/SocketChannel.cpp:116-135 | The buffers listed for one message gather to exactly its frame. |
| Channel.SocketChannel.WriteMessage | src/core/SocketChannel.cpp:116-138 | Sends the frame of the callers' blocks, or, of more buffers than an `int` counts, the bytes that the count covers; with a sound kernel its check fails if and only if that is not the whole frame. |
| Channel.MessageReader.GetTotalLength | src/core/SocketChannel.h:69-75 | Sums the lengths of the blocks not read yet. |
| Channel.MessageReader.GetBlockLength | src/core/SocketChannel.h:76-78 | Looks up the entry that the chosen index form names, or finds it outside the table. |
| Channel.MessageReader.ReadNextBlock | src/core/SocketChannel.cpp:162-166 | Has exactly the outcome and effect of the step function on one buffer, for either kind of checks: past a printed check it still advances. |
| Channel.MessageReader.ReadBlocks | src/core/SocketChannel.cpp:147-160 | Has exactly the outcome and effect of the step function on a list of buffers, for either kind of checks. |
| Rpc.ProtoServer.RegisterServiceFunction | src/core/ProtoServer.cpp:38-41 | Registers a new name; a known one gets the new function if the check only prints, and keeps the old one if it stops the process. |
| Rpc.ProtoServer.HandleRequest | src/core/ProtoServer.cpp:15-36 | Sends the reply of the function's answer, or an empty message for an unknown name, and leaves exactly the unread blocks in the stream; the process ends at a check that stops it, or at a block that does not exist. |
| Rpc.ProtoServer.CallService | src/core/ProtoServer.h:82-125 | The wrapper hands the parsed request, or what a failed parse left, and all user blocks to the function and sends back its response and blocks; a plain function leaves user blocks in the stream, which a stopping check does not allow. |
| Rpc.ServeNext | src/core/LightServer.cpp:31-42 | One round of the worker loop handles exactly the next request or ends exactly at the end of the stream. |
| Rpc.Serve | src/core/LightServer.cpp:26-45 | Over a stream of any number of requests the replies come out in request order, up to the first request that ends the process or leaves bytes in the place of the next header. |
| Rpc.ServedIff | src/core/LightServer.cpp:26-45 | A session is served in step to its end if and only if every request is sound and every reply can be sent: registered, parsed and drained with stopping checks; with printing checks, no missing block looked up and no byte unread. |
| Rpc.ServedOutput | src/core/LightServer.cpp:26-45 | A session served to its end sends one reply a request, in order. |
| Rpc.ProtoClient.Send | src/core/ProtoServer.cpp:44-57 | Sends one message of name, encoded request and user blocks. |
| Rpc.ProtoClient.Recv | src/core/ProtoServer.cpp:59-70 | Returns the parsed first block and a reader standing at the user blocks of the reply. |
| Rpc.CString | src/core/ProtoServer.cpp:53 | The name sent is what precedes the first zero byte. |
| Rpc.RequestAnswered | src/core/ProtoServer.h:81-125 | A sent request reaches the function registered under its name with the same message and blocks, and its answer is the reply. With stopping checks there is a reply if and only if the name is registered and a plain function gets no blocks; with printing checks there always is one, and otherwise blocks stay unread. |
| Rpc.MessageTaken | src/core/ProtoServer.h:81-125 | How any message of a name, a text and user blocks is taken, also a text that does not parse: by what a failed parse left if checks only print, by the end of the process otherwise. |
| Rpc.ShortMessageTaken | src/core/ProtoServer.cpp:15-36 | A message of fewer than two blocks ends the process, except an unknown name alone with printing checks. |
| Rpc.RemoteCall | src/core/ProtoServer.h:62-77 | The first call on a connection, to a registered function, returns that function's response, and its output blocks through the reader, for any user blocks an extended function is given. |
| Rpc.PipelinedCalls | src/core/ProtoServer.cpp:15-70 | Any number of calls sent before a reply is read are answered in order, each with the response and the output blocks of its own function applied to its own message and blocks. |
| PoolModel.OwnedStep | src/math/PoolAllocator.cpp:26-65 | Every allocation and release keeps the outstanding blocks the disjoint union of live and pooled ones, each pooled once in the bucket of its size. |
| PoolModel.ReturnedIsFree | src/math/PoolAllocator.cpp:30-40 | No block is handed out while live, and a recycled block has exactly the requested size. |
| PoolModel.BalancedStep | src/math/PoolAllocator.cpp:26-55 | Hits and releases leave the outstanding blocks unchanged, so they conserve live plus pooled bytes; every step keeps that sum equal to the bytes outstanding. |
| PoolModel.AllocUndoesFree | src/math/PoolAllocator.cpp:35-55 | An allocation of the size just released returns that block and restores everything but the counter. |
| PoolModel.MissEffect | src/math/PoolAllocator.cpp:30-43 | A miss keeps the pool below the limit and otherwise returns every pooled block; without a limit calls go straight through. |
| PoolModel.MissBelowLimit | src/math/PoolAllocator.cpp:30-34 | Every miss leaves less than the limit in the pool, if the counter was accurate. |
| PoolModel.AccurateStep | src/math/PoolAllocator.cpp:38-63 | A step keeps the counter accurate if and only if it is not a hit as written, or that hit takes half of the pool. |
| PoolModel.AlwaysOwned | src/math/PoolAllocator.cpp:22-65 | Ownership and the byte balance hold after every run of client-correct calls, for either accounting. |
| PoolModel.AlwaysBounded | src/math/PoolAllocator.cpp:26-65 | With the intended accounting, after every run live plus pooled bytes are strictly below peak live bytes plus the limit. |
| PoolModel.AccurateIff | src/math/PoolAllocator.cpp:38 | As written the counter is accurate throughout a run if and only if every hit of the run takes half of the pool. |
| PoolModel.BoundedIff | src/math/PoolAllocator.cpp:26-65 | For either accounting, bytes outstanding stay strictly below peak live bytes plus the limit throughout a run if and only if each miss that keeps the pool finds it below the limit, or beyond it by no more than the live bytes are below their peak. |
| PoolModel.CounterFollowsSuffices | src/math/PoolAllocator.cpp:30-33 | The bound holds if the counter has reached the limit whenever a miss finds that the pool has. |
| PoolModel.BlocksBounded | src/math/PoolAllocator.cpp:26-65 | For either accounting the outstanding blocks of each size never outnumber the most of them live at once. |
| PoolModel.CounterNotShort | src/math/PoolAllocator.cpp:30-38 | Where no block is smaller than the limit, the counter is never short at a miss. |
| PoolModel.BoundFailsAsWritten | src/math/PoolAllocator.cpp:38 | As written, for every block size below the limit and every excess, some run of client-correct calls with this size and sizes above 2^16 exceeds peak plus limit by that excess. |
| PoolModel.HandlesBoundIff | src/math/MemoryHandle.cpp:19-40 | Used through memory handles, the pool as written keeps the bound in every run if and only if the limit is at most 256. |
| PoolAllocator.PoolAllocator.Alloc | src/math/PoolAllocator.cpp:26-44 | Performs exactly one allocation step of the model and returns its block. |
| PoolAllocator.PoolAllocator.Free | src/math/PoolAllocator.cpp:46-55 | Performs exactly one release step of the model. |
| PoolAllocator.PoolAllocator.FreeAll | src/math/PoolAllocator.cpp:57-65 | Returns every pooled block to the underlying allocator exactly once; only live blocks stay outstanding. |
| PoolAllocator.PoolAllocator.Destroy | src/math/PoolAllocator.cpp:22-24 | After destruction nothing but live blocks is outstanding, so nothing leaks once clients have released theirs. |
| PoolAllocator.CpuMemoryHandle.constructor | src/math/MemoryHandle.cpp:32-36 | A handle owns a block, nobody's before, of the least of the sizes 256, 512, the multiples of 1024 up to 65536 and all beyond, that holds the request. |
| PoolAllocator.CpuMemoryHandle.Destroy | src/math/MemoryHandle.cpp:38-40 | The block goes back to the bucket of the size it was allocated with. |
| MemoryHandle.LeastClass | src/math/MemoryHandle.cpp:19-30 | The allocated size is the least of these sizes that holds the request. |
| MemoryHandle.EnoughAndTight | src/math/MemoryHandle.cpp:26-29 | It wastes less than 1024 bytes for a non-empty request, and its mask form is division round-up. |
| MemoryHandle.Idempotent | src/math/MemoryHandle.cpp:19-30 | Rounding a rounded size changes nothing. |
| MemoryHandle.Monotone | src/math/MemoryHandle.cpp:19-30 | A larger request never gets a smaller block. |
| Storage.LockStep | src/core/Locks.h:23-70 | Every step keeps the lock held by many readers or one writer, and held by exactly the threads that are inside. |
| Storage.EntersIff | src/core/Locks.h:34-47 | A reader is let in if and only if nobody holds the lock for writing, a writer if and only if nobody holds it at all. |
| Storage.AllocatorStep | src/math/Storage.cpp:31-45 | Every step keeps at most one allocator made, only the writer making it, and every value looked at or about to be returned equal to it. |
| Storage.OneAllocator | src/math/Storage.cpp:31-45 | Under every interleaving of any number of threads at most one allocator is ever created and every finished call has returned it. |
| Storage.CallEnds | src/math/Storage.cpp:31-45 | A call is over exactly when it has returned the allocator, the only one ever made. |
| Storage.EveryCallReturns | src/math/Storage.cpp:31-45 | From every reachable state in which the others do not hold the lock, a call under way ends within eight steps of its own and returns the only allocator. |
| Storage.FastPath | src/math/Storage.cpp:32-37 | A call that sees the allocator returns it without the write lock. |
| Queue.Queue.Enqueue | src/core/Queue.h:23-34 | Appends the element and counts it, exactly as a thread entering the section does in the protocol. |
| Queue.Queue.Dequeue | src/core/Queue.h:36-50 | Removes and returns the oldest element, as in the protocol, and notifies exactly when that empties the queue. |
| Queue.StepInv | src/core/Queue.h:23-63 | Every step of any thread keeps the counter right, the order first in, first out, and every sleeper's condition false. |
| Queue.CallsGo | src/core/Queue.h:23-63 | `enqueue` is over at once, `dequeue` exactly when it finds an element, which is the front one, and `wait_empty` exactly when it finds none. |
| Queue.ReadyIsEnabled | src/core/Queue.h:23-63 | In every reachable state a thread whose condition holds can go on without being woken. |
| Queue.NoLostWakeup | src/core/Queue.h:23-63 | In every reachable state nobody sleeps in `dequeue` with an element there or in `wait_empty` with none, the two kinds never sleep together, and dequeued followed by queued elements are the enqueued ones. |
| ThreadWorker.HistoryStep | src/core/Thread.h:61-83 | Every step keeps finished, in-flight, dropped and queued jobs, in that order, equal to the jobs enqueued. |
| ThreadWorker.StopStep | src/core/Thread.h:56-83 | Every step keeps the stop protocol: the sentinel only after the flag, never run, and at most one body begun after the flag. |
| ThreadWorker.IdleStep | src/core/Thread.h:53-83 | Every step keeps an idle worker known to be idle, outside the stated exceptions. |
| ThreadWorker.FirstInFirstOut | src/core/Thread.h:56-83 | In every reachable state jobs have finished in enqueue order at most once, at most one was dropped, and at most one body began after stopping was announced. |
| ThreadWorker.NoStuckWaiter | src/core/Thread.h:53-83 | Whenever the worker sleeps after at least one job, with no stop requested and no job being added, `_empty` is set and nobody sleeps in `wait`. |
| ThreadWorker.EmptyMeansAJobFinished | src/core/Thread.h:76-81 | `_empty` implies that a job has finished. |
| ThreadWorker.WaitEnds | src/core/Thread.h:53-55 | A client leaves `wait` exactly by testing `_empty` and finding it set. |
| ThreadWorker.CallsGo | src/core/Thread.h:56-64 | `add_job` clears `_empty` and queues exactly its own job; `stop` announces itself, queues the sentinel and is over only after the worker's exit; nothing else is queued. |
| ThreadWorker.WaitNeedsAJob | src/core/Thread.h:43-55 | In every run without an `add_job`, `_empty` stays unset and no client in `wait` ever leaves it. |
| ThreadWorker.DoneStep | src/core/Thread.h:61-83 | A step keeps `_empty` implying that all added jobs have finished, if and only if it does not set it with a job queued and does not queue a job while it is set. |
| ThreadWorker.DoneIff | src/core/Thread.h:61-83 | Throughout a run `_empty` implies that all added jobs have finished, if and only if no step of the run sets it with a job queued or queues a job while it is set. |
| ThreadWorker.WaitMeansDone | src/core/Thread.h:61-83 | If no `add_job` overlaps the worker's test-then-set section, every step is in time, so `_empty` means that every job whose `add_job` completed has finished. |
| ThreadWorker.ReturnMeansDone | src/core/Thread.h:53-81 | A `wait` that returns in any reachable state finds `_empty` set and a job finished; without an overlap up to then every completed `add_job` has finished. |
| ThreadWorker.WaiterOfStoppedWorker | src/core/Thread.h:53-60 | A client in `wait` when the worker has exited can still return from it if and only if `_empty` is set then. |
| ThreadWorker.WorkerDrains | src/core/Thread.h:72-83 | From every reachable state the worker alone comes to rest within a bounded number of steps, having run everything and released all waiters, or having exited if a sentinel is queued. |
| ThreadWorker.WorkerExits | src/core/Thread.h:56-83 | Once the sentinel is queued the worker exits within six of its own steps under every interleaving with clients. |
| ThreadWorker.SentinelEndsWorker | src/core/Thread.h:56-83 | From every reachable state with a sentinel enqueued, every continuation with six worker steps, or at whose end the worker can take none, has ended the worker, so that `join` returns. |
| ThreadWorker.OverlapExample | src/core/Thread.h:79-81 | A run in which a job added between the two lines makes `wait` return before it has begun. |
| Bits.MaskDown | src/core/ParameterServer.h:101 | Masking with the complement of a power of two less one clears exactly the low bits. |
| Bits.BitAndBits | src/core/ParameterServer.h:101 | The conjunction has exactly the bits that both words have. |
| Bits.MaskIsRoundUp | src/core/ParameterServer.h:101 | The mask form rounds every word up to a multiple if and only if the unit is a power of two. |
| ReadWriteBuffer.ReadWriteBuffer.ResizeWithAlignHints | src/core/ParameterServer.h:84-90 | Makes the buffer exactly as large as the capacity formula says in `size_t` arithmetic and keeps its elements. |
| ReadWriteBuffer.ReadWriteBuffer.NextBlock | src/core/ParameterServer.h:96-105 | Returns the old offset, saying whether it is an element of the buffer, and advances past the block and its padding. |
| ReadWriteBuffer.OffsetBound | src/core/ParameterServer.h:84-105 | After any blocks whose room fits a word the offset is between their total and that room. |
| ReadWriteBuffer.RoomIsTight | src/core/ParameterServer.h:84-105 | Blocks one element longer than alignment units take exactly the capacity asked for, so less would not do. |
| ReadWriteBuffer.BlocksDisjointAndAligned | src/core/ParameterServer.h:84-105 | Any blocks within the announced number and total size lie inside the resized buffer, are pairwise disjoint and start on the alignment boundary. |
| ReadWriteBuffer.CarveBlocks | src/core/ParameterServer.h:84-105 | Resizing, resetting and taking blocks hands out exactly these offsets; non-empty blocks are inside, apart and aligned if the rounding works and the room fits a word. |
| ReadWriteBuffer.AlignmentNeedsPowerOfTwo | src/core/ParameterServer.h:78-80 | The compile-time assertion always holds where rounding is used, and all offsets are aligned if and only if the element count is a power of two. |
| StringUtils.StartsWith | src/utils/StringUtils.cpp:15-26 | True exactly for prefixes. |
| StringUtils.EndsWith | src/utils/StringUtils.cpp:28-35 | True exactly for suffixes. |
| StringUtils.Split | src/utils/StringUtils.cpp:37-55 | Leaves separator-free pieces whose join is the input less one final separator, and none for the empty input. |
| StringUtils.SplitUnique | src/utils/StringUtils.cpp:37-55 | That contract determines the pieces. |
| StringUtils.SplitOfJoin | src/utils/StringUtils.cpp:37-55 | Splitting a join of separator-free pieces returns them if and only if there are none or the last is not empty. |
| CommandLineParser.Parser.ParseArgument | src/utils/CommandLineParser.cpp:60-93 | Sets the first flag of a type that takes the argument to the conversion of its content, reports a bad value, or finds none and changes nothing. |
| CommandLineParser.Parser.ParseBoolArgumentExtra | src/utils/CommandLineParser.cpp:96-115 | Sets the first boolean flag that the bare argument names, or changes nothing. |
| CommandLineParser.Parser.ParseOne | src/utils/CommandLineParser.cpp:154-180 | Tries types, bare booleans and help in that order and does exactly what the first success decides. |
| CommandLineParser.Parser.ParseCommandlineFlags | src/utils/CommandLineParser.cpp:147-185 | Exits if and only if some argument is a bad value or asks for help; otherwise the vector is a permutation whose front is the program name and the kept arguments in order, and each flag holds the last value set or its default. |
| CommandLineParser.BoolTexts | src/utils/CommandLineParser.cpp:31-51 | A text converts to true exactly if it is 1 or spells true in any case, to false exactly if it is 0 or spells false. |
| CommandLineParser.ConvertIs | src/utils/CommandLineParser.cpp:22-57 | True and 1 set a boolean to true, false and 0 to false; a string gets the text and a number what the extraction for its type yields. |
| CommandLineParser.ContentIs | src/utils/CommandLineParser.cpp:67-82 | The content of an assignment is what follows the equals sign behind the name and one dash or two. |
| CommandLineParser.BareIs | src/utils/CommandLineParser.cpp:99-111 | `-name` and `--name` mean true, `-noname` and `--noname` mean false, and nothing else means anything. |
| CommandLineParser.AssignmentSets | src/utils/CommandLineParser.cpp:60-170 | An assignment to any of distinct flags sets its variable to the converted value or is an error. |
| CommandLineParser.BareSets | src/utils/CommandLineParser.cpp:96-175 | A bare boolean argument sets its flag to true or, with `no`, to false, where no two flags clash. |
| CommandLineParser.KeptIff | src/utils/CommandLineParser.cpp:153-181 | An argument is kept if and only if no flag takes it and it is no honoured request for help. |
| CommandLineParser.OneName | src/utils/CommandLineParser.cpp:67-82 | Two identifiers that take the same assignment are equal. |
| CommandLineParser.FirstFlagIff | src/utils/CommandLineParser.cpp:60-93 | With distinct identifiers the search finds a flag if and only if that flag takes the argument. |
| CommandLineParser.OrderIrrelevant | src/utils/CommandLineParser.cpp:165-170 | The flag that an assignment finds is independent of the order of registration and of types. |
| CommandLineParser.DecideIsEffect | src/utils/CommandLineParser.cpp:153-180 | What is decided about any argument is determined by the flag found, in any order of types, and is carried out on the first variable of its name and type. |
| CommandLineParser.ParseOrderIrrelevant | src/utils/CommandLineParser.cpp:147-185 | With distinct identifiers of which no boolean one is `no` and another, the exit, the kept arguments and the value of every flag are the same for any order of registration and of types. |
| CommandLineParser.OrderIff | src/utils/CommandLineParser.cpp:147-185 | With distinct identifiers the parse of every command line is the same under all rearrangements if and only if no boolean flag is named `no` and another one's name. |
| CommandLineParser.BareLookup | src/utils/CommandLineParser.cpp:99-111 | The lookup of the prefix by length accepts exactly what a search over all four prefixes accepts, with the same value. |
| CommandLineParser.BareAmbiguity | src/utils/CommandLineParser.cpp:99-111 | Two identifiers share a bare argument if and only if one is `no` followed by the other. |
| InitFunctions.EachRunsOnce | src/utils/Util.cpp:27-58 | Over any registrations and runs, everything registered before the first run runs exactly once, in non-increasing order of priority, and what comes later, where checks only print, stays pending. |
| InitFunctions.AllHaveRunIff | src/utils/Util.cpp:27-58 | Every registered function has run if and only if there was a run, or nothing to run, and no registration followed it. |
| InitFunctions.Perform | src/utils/Util.cpp:27-58 | Any sequence of calls on a registry survives if checks only print or no registration follows a run; what was registered before the first run has then run once, by priority, and exactly the late registrations have not. |
| InitFunctions.Registry.RegisterInitFunction | src/utils/Util.cpp:27-35 | Accepts a function before the run, and after it unless the check stops the process. |
| InitFunctions.Registry.RunInitFunctions | src/utils/Util.cpp:38-58 | Runs the pending functions in a sorted order the first time and does nothing afterwards. |

## Left out

- Queue, ThreadWorker, Storage and Locks are state machines on values, one step per critical section or unsynchronised access; object identity, memory-model effects of unsynchronised flags and real time are not captured. The critical sections of the queue are also a class.
- Rpc.ProtoServer.HandleRequest: uses the reader with the intended index; what reading does to the stream with the literal one is `Reading.AsWrittenDrains` and `Reading.AsWrittenInStep`.
- Transfer.ReadWriteV: an error that is only printed is counted as -1 bytes, after which position and count no longer agree; the model ends there (`Confused`).
- Rpc.Serve: a system call error, too, has to stop the process or not occur (`Reliable`); once a request has left unread bytes the model ends, since what they are as a header is up to the client.
- Posix.Kernel.Transfer: an error stands for every error number, and blocking is the stream being shorter than asked; both directions of one socket are independent.
- Sums of buffer lengths and the pool counter are unbounded; buffers and pooled blocks fit in one address space, so `size_t` does not wrap there. The check of the total, buffer capacities and offsets do wrap.
- A vector of lengths that is too large for memory but not for `std::vector` is taken to be allocated.
- ReadWriteBuffer.ReadWriteBuffer.NextBlock: the offset is an index, and the buffer's own start is taken to be aligned; using a buffer before its first reset is not modelled.
- CommandLineParser.Parser.ParseArgument: says nothing about a numeric variable after a bad value, since the process then exits; the extraction of numbers from text is a parameter.
- InitFunctions.Registry.RunInitFunctions: the functions run are opaque and register no further functions.
- Rpc.RemoteCall: the connection is new, or has no other reply outstanding, since the first reply to arrive is taken for the answer; calls with replies outstanding are those of `Rpc.PipelinedCalls`. Message encoding is an abstract pair of functions, lossless where a result says so; request and response share one message type.
- Rpc.ProtoServer.CallService: an extended function reads all its user blocks one by one and replies once, before it returns; a function that keeps the reader or the callback for later is not modelled.
- Channel.SocketChannel.WriteMessage: a message whose total does not fit a `size_t`, or whose buffer list does not fit a vector, is reported instead of being sent with its total wrapped or throwing an exception.
- `LockedCondition::notify_one` and `Queue::size`, which nothing here uses.
- Failure of the system allocator, after which an indeterminate pointer is used.
- Sockets, name resolution, the accept loop and `set_option` in `LightServer.cpp`.
- The remainder of `ParameterServer.h`, which is declared only, and the matrix and vector classes, whose kernels are stubs over floating point.
- Log output, stack traces, usage texts and thread-local storage.
