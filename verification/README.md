# Verification of the multiplexing transport and the step protocol

This project models the code under `proj1`, `proj2` and `proj3` in Dafny and proves what it promises. There are
three groups of modules.

**The multiplexing transport (proj3).** A sender cuts buffers into tagged blocks and deals them to the queues of
n connections; a receiver puts them back together and hands the buffers to a handler in tag order.

* `Standards`, `Messages`: blocks, tags, and what a sender may put on the wire.
* `Float`, `BlockSize`: single-precision rounding, and the divisor loop with every rounding it does; when its results
  are those of exact arithmetic, when the split loop ends and when its index overflows.
* `Writer`: the split loop and the choice of queue, as methods on a `MultiplexWriter`.
* `Framing`: the byte form of blocks, a connection whose reads may be short or fail, and the read loops.
* `Receiver`: `handle_block` and its helpers as functions on values. `Reader` has the same operations in place, on
  records (`BufferInfo`) in the hash table of `HashTable`; every method is proved equal to its function wherever the
  table has room for what it inserts (`Insertions`).
* `Delivery`, `Runs`: the receiver's invariant and what it means over every order of arrival. `Delivery` proves
  that each step keeps the invariant, `Runs` states the theorems about runs, and `TableRoom` bounds how full the
  receiver's table gets and says when there is room.
* `Handoff`: the condition-variable hand-off between the producers and the sender of one queue. `Senders` is that
  machine for one connection, given more to send as it runs.
* `Connections`, `EndToEnd`: writer, hand-off threads, byte streams whose reads are short or fail, and the receiver on
  its hash table, all together, under any scheduling.
* `Completion`: the part of `handle_block` that may run in several threads at once, byte by byte.
* `Overlap`: what the locks of this group and the next allow: lookups that overlap, blocks queued while one is sent,
  and, for every thread that cannot go on, the lock it waits for.

**The data structures below it.** `Queue` (queue.c), `Sorting` and `LinkedList` (LinkedList.c, with its cursors
and the bubble sort), `HashModel`, `HashTable` and `HashIterator` (HashTable.c), each as heap objects with a ghost
value that the object stands for, and `ReadersWriters` (the semaphores of the table, at the grain of one semaphore
or counter access).

**Step B of the step protocol (proj1 client, proj2 server).** `JavaInts` (32-bit ints and signed bytes),
`PacketUtil` and `ClientPacketUtil` (the two packet builders), `Validator` (the header check), `StepB` (the packets
and what the server makes of them), `StopAndWait` (both sides and the network as a state machine in which the client
may time out whenever it waits) and `Exchange` (the two loops on real buffers, proved to take the steps of that
machine).

## What the code does not do

Some properties that the code or its comments suggest hold only under a condition; each is stated with its exact
condition.

* The split loop ends exactly for an empty buffer and for one with at least a byte for every queue, compared as
  floats; up to 2^24 queues that is the comparison of the integers (`BlockSize.SplitLoopEnds`). One byte for two
  queues is a case in which it does not (`BlockSize.NeverAdvances`).
* The loop's index is an int, and for lengths within a block of INT_MAX its last increment can overflow. No increment
  does exactly when the number of blocks times their size is at most INT_MAX (`BlockSize.IncrementsInRange`,
  `Writer.SplittableExactly`); a buffer of INT_MAX bytes on one connection is a case in which it does
  (`BlockSize.LongestOverflows`).
* The divisor and the quotient are floats. The divisor is the one of exact arithmetic exactly if the rounded length
  lies in a range given by that divisor, ties included (`BlockSize.DivisorAgrees`), and the block size exactly if the
  quotient of the rounded operands lies in a range given by that size and the width of rounding there
  (`BlockSize.SizeAgrees`). Up to a length of 2^24 both hold (`BlockSize.DivisorAgreesBelow`,
  `BlockSize.SizeAgreesBelow`); 16777217 bytes on one connection are the first for which they do not: the divisor is
  1024 instead of 1025 (`BlockSize.FirstDisagreement`).
* An empty buffer never completes, so exactly the buffers before the first empty one are handed over
  (`Runs.AllDelivered`, `Runs.EmptyBufferWaits`, `EndToEnd.Outcome`).
* The receiver's table behaves as a map only below its resize threshold of three entries per bucket. In every order of
  arrival every insertion stays below it exactly when there are no more buffers than the threshold: 768 with the 256
  buckets of proj3/client.c:47 and proj3/server.c:111 (`TableRoom.RoomExactly`). For longer transfers it is enough
  that the sender is no further ahead of the oldest buffer not handed over (`TableRoom.RoomWhileClose`).
* A second init block ends the process only while its buffer still has an entry (`Runs.DuplicateInit`).
* `extractInt` is documented to reject an impossible start; for the four largest starts the end wraps and it
  returns 0 (`PacketUtil.ExtractInt`).
* `validHeader` is documented to make sure that the payload fits in the packet; for lengths above
  `INT_MAX - 12` it does not (`Validator.PayloadFitsExactly`).
* The server's zero check stops one byte before the end of the packet, so the last payload byte is unchecked when
  there is no padding (`StepB.ZeroCheckExactly`).
* A client that times out while its acknowledgement is still on the way, and sends its number again, makes the server
  throw exactly if the server expects another number (`StopAndWait.LateAckThrowsExactly`,
  `StopAndWait.SecondCopyThrowsExactly`). Some run throws if and only if there are two numbers to send
  (`StopAndWait.CanThrowExactly`). In patient runs, in which the client times out only when nothing is in flight, none
  does (`StopAndWait.PatienceIsEnough`); what the client receives is right in all runs (`StopAndWait.Lockstep`).

## Model

| member | source | states |
|---|---|---|
| `Messages.ReceivedAll` | proj3/multiplex_reader.c:251-254 | the bytes counted for a buffer never exceed its size, and reach it exactly when every data block has been handled |
| `Messages.AllWritten` | proj3/multiplex_reader.c:247 | a buffer into which every block has been copied at its offset is the original, byte for byte |
| `Receiver.Overwrite` | proj3/multiplex_reader.c:247 | the copy changes the bytes at the block's range to the payload and no other byte |
| `Receiver.Release` | proj3/multiplex_reader.c:291-316 | the release recursion terminates because links go to larger tags; it keeps the table well formed and no buffer's size changes |
| `Receiver.ReleaseKeepsBelow` | proj3/multiplex_reader.c:291-316 | the release chain only runs upwards: entries below its start stay as they were |
| `Receiver.Finish` | proj3/multiplex_reader.c:261-289 | finishing a buffer keeps the table well formed, whether it waits for its predecessor or is released |
| `Receiver.Drain` | proj3/multiplex_reader.c:190-198 | emptying a waiting queue terminates and keeps the table well formed, whatever buffers it finishes on the way |
| `Receiver.HandleBlock` | proj3/multiplex_reader.c:129-259 | the process exits exactly on an init block whose tag has a valid entry; otherwise the table stays well formed |
| `Delivery.ReleaseStep` | proj3/multiplex_reader.c:298-308 | at a complete buffer the chain goes on exactly when the next one is complete: the branch in which the next buffer is found but not complete is never taken |
| `Delivery.ReleaseDeliversRun` | proj3/multiplex_reader.c:291-316 | releasing a buffer hands over the maximal run of complete buffers that starts there, removes all their entries but the last and marks that one sent |
| `Delivery.FinishKeepsInv` | proj3/multiplex_reader.c:261-289 | a buffer whose last byte has just been written is linked or released so that the invariant holds again |
| `Delivery.DataKeepsInv` | proj3/multiplex_reader.c:200-258 | a data block keeps the invariant: parked in a dummy, copied into its buffer, or completing it |
| `Delivery.CountGrows` | proj3/multiplex_reader.c:251-254 | a new data block brings the count to the buffer size exactly when it is the last one missing, and the 32-bit addition does not wrap |
| `Delivery.DrainKeepsInv` | proj3/multiplex_reader.c:190-198 | draining a waiting queue handles its blocks as if they had just arrived, and keeps the invariant |
| `Delivery.InitKeepsInv` | proj3/multiplex_reader.c:131-199 | an init block keeps the invariant, whatever memory it gets and whatever data came before it |
| `Runs.StepKeepsInv` | proj3/multiplex_reader.c:129-259 | a block of the plan that has not been handled yet is admissible, does not make the process exit, and keeps the invariant |
| `Runs.RunKeepsInv` | proj3/multiplex_reader.c:129-316 | over every sequence of arrivals in which each block arrives at most once, in any order, the state reached satisfies the invariant for the blocks handled |
| `Runs.OrderIsFree` | proj3/multiplex_reader.c:44-64 | neighbouring arrivals may always be exchanged: a sequence of arrivals is a run in every order or in none |
| `Runs.AnyoneIsNext` | proj3/multiplex_reader.c:44-64 | every block of the plan that has not arrived yet may be the next, with any memory |
| `Runs.OrderedDelivery` | proj3/multiplex_reader.c:129-316 | after any arrivals the handler has been given exactly the longest prefix of the sent buffers whose blocks have all been handled, each once, in order, byte for byte |
| `Runs.AllDelivered` | proj3/multiplex_reader.c:254-257 | when nothing is in flight every buffer has been delivered if and only if none is empty |
| `Runs.EmptyBufferWaits` | proj3/multiplex_reader.c:254-257 | one empty buffer whose only block has arrived is not handed over |
| `Runs.DeliveredGrows` | proj3/multiplex_reader.c:294 | what has been handed over is never taken back or reordered |
| `Runs.LinksFollowCompletion` | proj3/multiplex_reader.c:276-278 | the entry of an undelivered buffer links to the next tag exactly when that buffer is complete, and then finds it completed and unsent |
| `Runs.OneZombie` | proj3/multiplex_reader.c:280-315 | of the delivered buffers exactly the most recent one has an entry, and it alone is marked sent |
| `Runs.OnlyLastRemains` | proj3/multiplex_reader.c:310-315 | once every buffer has been received the only key left is the last tag |
| `Runs.TagOutlives` | proj3/multiplex_reader.c:280-312 | an entry, once made, stays in the table exactly until the buffer behind it has been delivered |
| `Runs.NeverRecreated` | proj3/multiplex_reader.c:282-312 | a tag removed from the table never comes back |
| `Runs.BlockConservation` | proj3/multiplex_reader.c:209-257 | a data block of an undelivered buffer is in exactly one place: in flight, once in its dummy's waiting queue, or copied into its buffer |
| `Runs.WrittenCount` | proj3/multiplex_reader.c:251-255 | n_written is the total size of the blocks copied so far, at most the buffer size, and a non-empty buffer is completed exactly at that size |
| `Runs.DuplicateInit` | proj3/multiplex_reader.c:144-148 | a repeated init block makes the process exit exactly when its buffer is undelivered or the last delivered |
| `Reader.MultiplexReader.InsertDummyBuffer` | proj3/multiplex_reader.c:102-127 | a new dummy is entered exactly if the tag is absent; otherwise the existing record is put back and the table is unchanged |
| `Reader.MultiplexReader.HandleFinishedBufferNext` | proj3/multiplex_reader.c:291-316 | the recursion on records does to table and handler log exactly what Release does, and marks the buffer sent whether its entry stays or goes |
| `Reader.MultiplexReader.HandleFinishedBufferPrev` | proj3/multiplex_reader.c:261-289 | the method on records does exactly what Finish does |
| `Reader.MultiplexReader.CopyIn` | proj3/multiplex_reader.c:247-253 | the payload is at its place in the buffer, all other bytes as before, and the count returned is the one stored |
| `Reader.MultiplexReader.HandleDataBlock` | proj3/multiplex_reader.c:200-258 | the method on records does exactly what HandleData does, and leaves waiting queues of valid buffers alone |
| `Reader.MultiplexReader.DrainQueue` | proj3/multiplex_reader.c:190-198 | the loop over the waiting queue does exactly what Drain does |
| `Reader.MultiplexReader.InitEntry` | proj3/multiplex_reader.c:139-168 | the dummy waiting for the init block is claimed, or a new record entered, with the fields of the block and fresh memory |
| `Reader.MultiplexReader.HandleBlock` | proj3/multiplex_reader.c:129-259 | one call on records and table does exactly what the function HandleBlock does, for the memory it was given |
| `TableRoom.TableSize` | proj3/multiplex_reader.c:280-315 | in every run the table has at most as many entries as there are undelivered buffers, and one more once something has been delivered |
| `TableRoom.BlockWithin` | proj3/multiplex_reader.c:102-258 | one call of handle_block, draining included, inserts only into a table with fewer entries than the width of the window that all tags lie in |
| `TableRoom.RoomWhileClose` | proj3/HashTable.c:398-401 | a call inserts only below the limit as long as the tags arriving are less than the limit ahead of the last buffer handed over |
| `TableRoom.RoomForPlan` | proj3/HashTable.c:398-401 | with no more buffers than the limit every block still to be handled finds room for all that it inserts, in every state of every run |
| `TableRoom.InitsOverflow` | proj3/HashTable.c:398-401 | with more buffers than the limit, their init blocks arriving first is an order in which an insertion finds the table full |
| `TableRoom.RoomExactly` | proj3/HashTable.c:398-401 | every insertion in every run finds the table below the limit if and only if there are no more buffers than the limit |
| `Float.ReachesExactly` | proj3/multiplex_writer.c:89-92 | a rounded number reaches an integer exactly if it comes within its slack from below, and passes it exactly if it is further than that above: ties go to the integer |
| `Float.SlackOf` | proj3/multiplex_writer.c:89-92 | the slack between two powers of two is the 2^24th part of the lower |
| `Float.NearestEven` | proj3/multiplex_writer.c:89-92 | rounding goes to the nearest integer, and of two equally near to the even one |
| `Float.RoundsFraction` | proj3/multiplex_writer.c:89-92 | a number from 2^k to 2^(k + 1), k up to 23, goes to the nearest multiple of 2^(k - 23), ties to even |
| `Float.RoundsWhole` | proj3/multiplex_writer.c:89-92 | a number from 2^(23 + j) to 2^(24 + j) goes to the nearest multiple of 2^j, ties to even, for all j |
| `BlockSize.FindUnifSize` | proj3/multiplex_writer.c:89-92 | the divisor loop, counting in floats, terminates with the block size that UnifSize defines |
| `BlockSize.UnifSizeBounds` | proj3/multiplex_writer.c:92 | with all roundings the block size is at most BLOCK_SIZE, positive exactly if the length as float reaches the number of queues as float, and at least half of BLOCK_SIZE once the divisor exceeds 1 |
| `BlockSize.TestExactly` | proj3/multiplex_writer.c:90 | for all divisors and queues the rounded loop test is the comparison of the rounded length with BLOCK_SIZE and half a unit per block: a tie ends the loop |
| `BlockSize.DivisorExactly` | proj3/multiplex_writer.c:89-91 | the divisor without the loop: the least integer not below the quotient of the rounded length and what one round of blocks holds, ties included |
| `BlockSize.DivisorAgrees` | proj3/multiplex_writer.c:89-91 | for all lengths and queues the loop finds the divisor of exact arithmetic if and only if the rounded length does not exceed what that divisor holds, and does exceed what the one before holds |
| `BlockSize.DivisorAgreesBelow` | proj3/multiplex_writer.c:89-91 | for every length up to 2^24 it does |
| `BlockSize.UnifSizeExactly` | proj3/multiplex_writer.c:92 | the block size is m if and only if the quotient of the rounded operands lies between m and m + 1, both lowered by the slack there |
| `BlockSize.SizeAgrees` | proj3/multiplex_writer.c:92 | for all lengths and queues the block size is that of exact arithmetic if and only if the quotient of the rounded operands lies in that range around it |
| `BlockSize.SizeAgreesBelow` | proj3/multiplex_writer.c:92 | for lengths and numbers of queues up to 2^24 it does |
| `BlockSize.FirstDisagreement` | proj3/multiplex_writer.c:89-92 | at length 2^24 + 1 on one connection the loop stops one divisor early, with blocks of 16384 instead of 16368 bytes |
| `BlockSize.SplitLoopEnds` | proj3/multiplex_writer.c:94-114 | the split loop reaches the end exactly if the buffer is empty or has a byte for every queue, compared as floats |
| `BlockSize.NeverAdvances` | proj3/multiplex_writer.c:94-114 | for one byte and two queues no number of turns reaches the end |
| `BlockSize.IncrementsInRange` | proj3/multiplex_writer.c:94 | no increment of the index passes INT_MAX exactly if the last one does not, which holds for all lengths up to INT_MAX + 1 - BLOCK_SIZE |
| `BlockSize.LongestOverflows` | proj3/multiplex_writer.c:94 | for INT_MAX bytes on one connection the last increment passes INT_MAX by one |
| `Writer.SplittableExactly` | proj3/multiplex_writer.c:94-114 | the writer's results cover exactly the lengths for which the loop ends and its index does not overflow |
| `Writer.CutsTile` | proj3/multiplex_writer.c:94-95 | the offsets of the split loop tile the buffer: all blocks but the last have the uniform size, the last between 1 and that |
| `Writer.CutsIncrease` | proj3/multiplex_writer.c:94-95 | the cuts run from 0 to the length and strictly increase |
| `Writer.MessageIsWellCut` | proj3/multiplex_writer.c:71-115 | what the writer makes of a buffer is a message the receiver's theorems apply to |
| `Writer.NextCut` | proj3/multiplex_writer.c:94-95 | one turn of the split loop goes from one cut to the next and the loop ends at the last |
| `Writer.DealtMembers` | proj3/multiplex_writer.c:112-113 | a queue receives exactly the data blocks whose offset is its number modulo the number of queues |
| `Writer.DealtInOrder` | proj3/multiplex_writer.c:94-113 | each queue receives its data blocks in strictly increasing order of offset |
| `Writer.DealtArePieces` | proj3/multiplex_writer.c:94-113 | every block dealt to queue q is the piece of the buffer at its offset, and its offset modulo the number of queues is q |
| `Writer.MultiplexWriter.MultiplexWriteQueues` | proj3/multiplex_writer.c:71-115 | the call bumps the tag counter by one, puts one init block, with the length, the new tag and its predecessor, on the last queue, and behind it, as on every other queue, exactly the pieces of the buffer whose offset modulo the number of queues is that of the queue |
| `EndToEnd.PlanForIsPlan` | proj3/client.c:118-123 | buffers written with one shared tag counter make a plan with tags 0, 1, 2, ... each naming its predecessor |
| `EndToEnd.AnyOrderDelivers` | proj3/multiplex_reader.c:129-316 | blocks of non-empty buffers written for n queues may arrive in any order: the buffers are handed over as given |
| `EndToEnd.WriterBlocksEncodable` | proj3/multiplex_standards.h:6-24 | every block the writer makes fits in the reader's buffer and its words |
| `EndToEnd.EmittedExactly` | proj3/multiplex_writer.c:86-113 | each block of a buffer goes to exactly one queue, its own, and nothing else does |
| `EndToEnd.EmittedOnce` | proj3/multiplex_writer.c:86-113 | no block is put on a queue twice |
| `EndToEnd.AccountedAfterWrite` | proj3/multiplex_writer.c:71-115 | after a buffer is written each of its blocks waits once, in its own queue |
| `EndToEnd.AccountedAfterTake` | proj3/multiplex_reader.c:44-64 | handling a block that waited moves it from waiting to handled and disturbs no other |
| `EndToEnd.AllHandedOver` | proj3/multiplex_reader.c:129-316 | when all buffers are written the receiver's log is the buffers up to the first that is empty or has a block left waiting, whatever it is that waits |
| `Connections.Network.WriteOne` | proj3/multiplex_writer.c:71-115 | writing a buffer adds its blocks, connection by connection, to what waits, and leaves what the threads hold and the bytes on their way alone |
| `Connections.Network.ThreadStep` | proj3/multiplex_writer.c:40-68 | a step of the threads of a connection, one lock, queue or condition-variable access, or the sending of a block as bytes, leaves what waits the same |
| `Connections.Network.ReceiveOne` | proj3/multiplex_reader.c:67-100 | the oldest block that waits on a connection comes in exactly if no read fails in the call; otherwise the connection is given up and what waits stays |
| `Connections.Network.LiveIsFlawless` | proj3/multiplex_reader.c:67-100 | all connections are in use exactly if no read has failed on any |
| `Connections.Network.ConnectionsAreIndependent` | proj3/multiplex_reader.c:44-64 | writing the next buffer waits for nothing, reading a connection only for its bytes, and a connection in use with blocks unsent can go on by itself, whatever the others do |
| `Connections.Network.AtRestExactly` | proj3/multiplex_writer.c:40-68 | the connections are at rest exactly when nothing can be done any more, short of a wake-up without a signal |
| `EndToEnd.CarryOne` | proj3/multiplex_reader.c:44-64 | a block read from the bytes of a connection and handled, with the records in the hash table, keeps the invariants of both ends |
| `EndToEnd.Drive` | proj3/multiplex_writer.c:40-115 | writing, queueing, sending and receiving terminate under any scheduling, any reads and any given number of wake-ups without a signal, with nothing left on a working connection |
| `EndToEnd.Outcome` | proj3/multiplex_reader.c:129-316 | at rest the log is the buffers up to the first that is empty or has a block left waiting, and if no read failed it is exactly those before the first empty one |
| `EndToEnd.Transfer` | proj3/multiplex_writer.c:40-115 | with the threads of every queue interleaved step by step, over connections that carry bytes, with short and failing reads and the receiver's records in a real hash table, the transfer terminates with nothing left on a working connection; what is handed over is the buffers up to the first that is empty or has a block left waiting; `complete` says that no read has failed, and then it is exactly those before the first empty one |
| `Framing.WordRoundTrip` | proj3/multiplex_reader.c:89 | a 32-bit word read from its four bytes is the word written |
| `Framing.FrameRoundTrip` | proj3/multiplex_standards.h:9-24 | a frame begins with its own length and fits in the reader's buffer, its second word is -1 exactly for init blocks, and decoding gives back the block |
| `Framing.FrameLayout` | proj3/multiplex_standards.h:9-24 | the bytes of a frame, little-endian word by word: length, -1 or offset, then size, tag, predecessor and flag of an init block, or tag and payload of a data block, each at its place in the struct |
| `Framing.Connection.Read` | proj3/multiplex_reader.c:82-87 | the model of read(): any positive number of the bytes asked for, 0 at the end of the stream, -1 on error |
| `Framing.ReadUpTo` | proj3/multiplex_reader.c:81-98 | a read loop fills the buffer to its target in order, losing no byte, under every schedule of short reads, and stops short only at the end of the stream or at a failed read; -1 comes back exactly after a failed read |
| `Framing.RecieveTcpBlock` | proj3/multiplex_reader.c:67-100 | on a stream of frames one call returns exactly the next frame unless a read fails; 0 means that the stream ended between frames, and -1 comes back exactly if a read failed in the call |
| `Framing.ListenForBlock` | proj3/multiplex_reader.c:44-64 | the blocks handed to handle_block are a prefix of the blocks sent; failure is reported exactly if a read failed, and without one they are all of them |
| `Framing.Line.Send` | proj3/multiplex_writer.c:54 | a block sent is appended, as the bytes of its frame, to what is on its way |
| `Framing.Line.Receive` | proj3/multiplex_reader.c:67-100 | on a connection whose bytes are frames in order, reading in pieces of any size takes the oldest block or finds the end, and fails exactly if a read fails |
| `Completion.StepKeepsCopied` | proj3/multiplex_reader.c:247 | no interleaving of byte copies disturbs what another thread has copied |
| `Completion.StepKeepsCount` | proj3/multiplex_reader.c:249-253 | n_written is the total size of the blocks whose threads have added them, without wrap-around |
| `Completion.StepKeepsSeen` | proj3/multiplex_reader.c:251-253 | the counts that threads read under the mutex are all different, and the latest adder reads the current one |
| `Completion.StepKeepsInv` | proj3/multiplex_reader.c:247-254 | every step of every thread keeps mutual exclusion, the count, the copied bytes and the counts seen |
| `Completion.FinisherSeesWholeBuffer` | proj3/multiplex_reader.c:247-254 | in every state of every interleaving at most one thread has read the full size, and if one has, every byte of the buffer is in place |
| `Completion.SomeoneFinishes` | proj3/multiplex_reader.c:252-254 | once all threads are through with a non-empty buffer exactly one of them has seen it complete |
| `Completion.SomeoneCanStep` | proj3/multiplex_reader.c:249-253 | while some thread is not done, some thread can take a step |
| `Handoff.StepKeepsInv` | proj3/multiplex_writer.c:40-68 | every step of every thread keeps the mutex, the wake-ups and the order of the blocks right |
| `Handoff.SentInEnqueueOrder` | proj3/multiplex_writer.c:40-68 | at all times what has been enqueued is what has been sent, then what is in hand, then the queue; each producer's blocks are a prefix of its own list, in its order |
| `Handoff.NoLostWakeup` | proj3/multiplex_writer.c:43-45 | the sender is asleep over a non-empty queue only while the mutex is held by a producer about to signal; never when the mutex is free |
| `Handoff.RestsExactlyWhenAllSent` | proj3/multiplex_writer.c:40-68 | the threads come to rest exactly when the sender is asleep and every block of every producer has been sent, in that producer's order |
| `Handoff.StepDropsWork` | proj3/multiplex_writer.c:40-68 | every step but a wake-up without a signal brings the threads closer to rest |
| `Handoff.RunIsBounded` | proj3/multiplex_writer.c:40-68 | a run is no longer than the work at its start plus four steps for each wake-up without a signal |
| `Senders.ExtendKeepsPaired` | proj3/multiplex_writer.c:60-68 | giving the writing thread more to write, at any moment, adds it to the end of what is unsent |
| `Senders.StepKeepsPaired` | proj3/multiplex_writer.c:40-68 | a step of the two threads of a connection keeps what is unsent, but for the one that sends the oldest block of it |
| `Senders.SettledIsSent` | proj3/multiplex_writer.c:40-68 | when neither thread can move, everything has been sent |
| `Queue.Queue.Enqueue` | proj3/queue.c:65-88 | enqueue puts the item behind all others and keeps the links |
| `Queue.Queue.Dequeue` | proj3/queue.c:41-61 | dequeue takes the oldest item, or returns 0 and changes nothing if there is none |
| `Queue.Queue.IsEmpty` | proj3/queue.c:91-96 | head is NULL exactly when nothing is queued |
| `Queue.RunOps` | proj3/queue.c:41-88 | over any sequence of operations what has been taken, then what is still queued, is what was put, in that order |
| `Sorting.SwapRemovesInversion` | proj3/LinkedList.c:192-199 | exchanging neighbours that are out of order lowers the number of inversions by one |
| `Sorting.SwapKeepsClass` | proj3/LinkedList.c:192-199 | such an exchange keeps the order within every class of equal elements |
| `Sorting.OrderedIsSorted` | proj3/LinkedList.c:172-203 | a list in which all neighbours are in order is sorted |
| `Sorting.RankedIsPreorder` | proj3/LinkedList.c:172-203 | every comparator that goes by a rank, ties included, is one that the sort's contract covers |
| `Sorting.SameClassesIsPermutation` | proj3/LinkedList.c:172-203 | two lists with the same classes are permutations of each other |
| `Sorting.StableSortIsUnique` | proj3/LinkedList.c:172-203 | there is only one stable sorted arrangement, so the sort's contract determines its result |
| `LinkedList.LinkedList.Push` | proj3/LinkedList.c:63-95 | push adds in front and keeps all links, ends and the count |
| `LinkedList.LinkedList.Pop` | proj3/LinkedList.c:97-114 | pop takes the first element, or fails on an empty list |
| `LinkedList.LinkedList.Append` | proj3/LinkedList.c:116-145 | append adds at the end and keeps all links, ends and the count |
| `LinkedList.LinkedList.Slice` | proj3/LinkedList.c:147-170 | slice takes the last element, or fails on an empty list |
| `LinkedList.LinkedList.Sweep` | proj3/LinkedList.c:184-201 | a sweep keeps nodes and classes; it reports a swap exactly when it has lowered the number of inversions, and otherwise all neighbours are in order |
| `LinkedList.LinkedList.Sort` | proj3/LinkedList.c:172-203 | for every comparator that is a total preorder the sort terminates in a stable permutation on the same nodes, in which the comparator is at most 0 from any element to a later one if ascending, and at least 0 otherwise |
| `LinkedList.LLIter.Next` | proj3/LinkedList.c:242-250 | the cursor moves one place on, or stays and says so at the end |
| `LinkedList.LLIter.Prev` | proj3/LinkedList.c:252-268 | the cursor moves one place back, or stays and says so at the front |
| `LinkedList.LLIter.Delete` | proj3/LinkedList.c:275-312 | the element under the cursor is gone; the cursor is on its successor, or on its predecessor if it was the last, and the result is 0 only for the sole element |
| `LinkedList.LLIter.InsertBefore` | proj3/LinkedList.c:314-334 | the new element is in front of the cursor, which stays on its node |
| `HashModel.IndexIsUnique` | proj3/HashTable.c:165-195 | in a chain without repeated keys the search finds the one place of a key |
| `HashModel.InsertNew` | proj3/HashTable.c:222-234 | pushing a pair with a new key to its bucket represents the map with the pair added, keys unique and in their buckets, one element more |
| `HashModel.InsertOld` | proj3/HashTable.c:235-241 | replacing the value at a key's place represents the updated map, with as many elements |
| `HashModel.RemoveOld` | proj3/HashTable.c:276-285 | taking a key's pair out of its chain represents the map without it, one element fewer |
| `HashModel.FlattenIsMap` | proj3/HashTable.c:290-326 | the chains one after the other hold exactly the pairs of the map |
| `HashModel.FlattenUnique` | proj3/HashTable.c:290-326 | no key occurs twice in the chains one after the other |
| `HashModel.BucketIsRight` | proj3/HashTable.c:155-157 | the bucket of a key is below the number of buckets and differs from the key as an unsigned word by a multiple of it, for all ints that are such words |
| `HashModel.FlattenInOrder` | proj3/HashTable.c:290-361 | the chains one after the other go up in the numbers of the buckets |
| `HashModel.SmallKeysIncrease` | proj3/HashTable.c:155-157 | and so the keys themselves do, if they are all numbers of buckets |
| `HashTable.Find` | proj3/HashTable.c:165-195 | the search returns 1 and a cursor on the key's pair, or 0 if no pair has the key |
| `HashTable.AllocateHashTable` | proj3/HashTable.c:40-88 | the result is NULL exactly for zero buckets; otherwise a new table has empty chains that share no memory, and stands for the empty map |
| `HashTable.HashTable.Insert` | proj3/HashTable.c:197-246 | below the resize threshold insert returns 1 for a new key and 2 with the old pair otherwise, and the table stands for the updated map; the pair is in the chain whose number differs from the key by a multiple of the number of buckets, a new one in front of all others there, a replaced one where it was |
| `HashTable.HashTable.Lookup` | proj3/HashTable.c:248-271 | lookup returns 1 and the pair, or 0, as the map does, and changes nothing |
| `HashTable.HashTable.Remove` | proj3/HashTable.c:273-288 | remove returns 1 and the pair, or 0, and the table stands for the map without the key |
| `HashTable.RunOps` | proj3/HashTable.c:197-288 | any sequence of operations on a new table below the resize threshold answers as a finite map does |
| `HashIterator.HTIter.constructor` | proj3/HashTable.c:290-326 | a fresh iterator has all pairs of the table ahead of it |
| `HashIterator.HTIter.Next` | proj3/HashTable.c:337-361 | the iterator leaves one pair behind and returns 0 exactly when none is left |
| `HashIterator.HTIter.PastEnd` | proj3/HashTable.c:363-365 | the iterator is past the end exactly when no pair is ahead |
| `HashIterator.HTIter.Get` | proj3/HashTable.c:367-375 | get returns the first pair ahead, or 0 past the end |
| `HashIterator.HTIter.CurrentIsIndexed` | proj3/HashTable.c:377-396 | the pair under the iterator is the one that a removal by its key finds, and what lies ahead is behind it in its bucket |
| `HashIterator.HTIter.Delete` | proj3/HashTable.c:377-396 | delete returns the pair it removes, leaves the iterator valid with the remaining pairs ahead, and returns 2 exactly on the last pair ahead |
| `HashIterator.RestKept` | proj3/HashTable.c:377-396 | removing a pair that has been passed does not change what is ahead |
| `HashIterator.SmallKeysInOrder` | proj3/HashTable.c:290-361 | keys that are numbers of buckets lie in increasing order ahead of a fresh iterator |
| `HashIterator.VisitAll` | proj3/HashTable.c:290-375 | get and next until past the end visit every pair of the table exactly once, in increasing order if all keys are below the number of buckets |
| `HashIterator.DeleteAll` | proj3/HashTable.c:377-396 | deleting through a fresh iterator returns every pair exactly once, 2 on the last and 1 on the others, in increasing order if all keys are below the number of buckets, and empties the table |
| `ReadersWriters.ReadingMeansReaders` | proj3/HashTable.c:253-257 | while any reader is counted in and past the first semaphore section, the readers own the table |
| `ReadersWriters.WritersExclude` | proj3/HashTable.c:205-288 | in every state of every interleaving a writer excludes every other writer and every reader |
| `ReadersWriters.ReadcountCounts` | proj3/HashTable.c:253-268 | readcount is the number of readers that have counted themselves in and not yet out |
| `ReadersWriters.Linearizable` | proj3/HashTable.c:197-288 | every interleaving answers as a sequential run of the same operations on a map, with each thread's own order kept, although searching and changing the table are separate steps |
| `ReadersWriters.LogOnlyGrows` | proj3/HashTable.c:197-288 | the sequential order is never changed afterwards, only extended |
| `ReadersWriters.RealTimeOrder` | proj3/HashTable.c:197-288 | an operation that has returned before another begins precedes it in the sequential order |
| `ReadersWriters.AnsweredOnReturn` | proj3/HashTable.c:197-288 | when a thread returns from an operation, that operation and all before it are in the sequential order |
| `ReadersWriters.NoDeadlock` | proj3/HashTable.c:205-288 | some thread can take a step unless all are idle with nothing left to do |
| `ReadersWriters.RunIsBounded` | proj3/HashTable.c:205-288 | no interleaving is longer than a bound fixed by the operations to do |
| `Overlap.AllLookupsOverlap` | proj3/HashTable.c:253-268 | for any number of threads and any work there is a run into a state in which all threads that begin with a lookup are in it at once |
| `Overlap.WaitsOnlyAtSemaphores` | proj3/HashTable.c:205-288 | in every reachable state a thread cannot go on exactly if it has nothing left to do or stands at a semaphore whose value is 0 |
| `Overlap.WritesWhileSending` | proj3/multiplex_writer.c:40-68 | while the first block of a producer is being sent it can put its second on the queue |
| `Overlap.WaitsOnlyForMutex` | proj3/multiplex_writer.c:40-68 | in every reachable state a producer with something to write waits exactly for the mutex while another thread is inside, and so does the sender, unless it is asleep |
| `Overlap.WaitsOnlyForCount` | proj3/multiplex_reader.c:249-253 | in every reachable state a thread that fills a buffer waits exactly for the mutex of the buffer while another thread is inside |
| `JavaInts.IntSurvives` | proj2/PacketUtil.java:24-55 | an int written as four bytes is read back, for all 32-bit ints |
| `JavaInts.BytesSurvive` | proj2/PacketUtil.java:24-55 | four bytes read as an int are written back, for all byte arrays of length four |
| `JavaInts.IntAppends` | proj2/PacketUtil.java:29-32 | one turn of the extraction loop, with its two wrapping operations, appends a byte |
| `JavaInts.IntIsBigEndian` | proj2/PacketUtil.java:24-34 | four bytes are read as the first times 2^24, signed, plus the others, unsigned, times 2^16, 2^8 and 1 |
| `JavaInts.BytesAreBigEndian` | proj2/PacketUtil.java:48-55 | and an int is written as the four bytes of which it is that value |
| `PacketUtil.ExtractInt` | proj2/PacketUtil.java:24-34 | the four big-endian bytes at the start, an IllegalArgumentException for a start without four bytes behind it, and 0 for a start so large that its end wraps |
| `PacketUtil.ToByteArray` | proj2/PacketUtil.java:48-55 | the four bytes of the int in big-endian order |
| `PacketUtil.PaddingIsLeast` | proj2/PacketUtil.java:63-65 | the packet length is the least multiple of four that holds header and payload |
| `PacketUtil.StepNumberExactly` | proj2/PacketUtil.java:88-90 | the step number is the value of the second character if that is one of the ten digits; otherwise which exception is thrown |
| `PacketUtil.InsertHeader` | proj2/PacketUtil.java:74-97 | the twelve header bytes and no others are written, what has been written when an exception is thrown, and what becomes of a secret that shares the packet's array |
| `PacketUtil.Packetize` | proj2/PacketUtil.java:60-70 | the packet is header, payload and zero padding; which exception is thrown when it is not |
| `PacketUtil.PacketLayout` | proj2/PacketUtil.java:60-97 | a packet byte by byte: payload length in bytes 0 to 3, secret in 4 to 7, step in 8 and 9, the lower half of the student number in 10 and 11, the payload from 12, zeros from there to a multiple of four |
| `PacketUtil.AdjoinByteArrays` | proj2/PacketUtil.java:121-131 | the pieces one after the other, or an exception if an int cannot count their bytes |
| `ClientPacketUtil.StudentBytes` | proj1/PacketUtil.java:92-94 | the two bytes wired into the client are those of student number 472 |
| `ClientPacketUtil.ClientInsertHeader` | proj1/PacketUtil.java:74-95 | the client's header is the server's for student number 472 |
| `ClientPacketUtil.ClientPacketize` | proj1/PacketUtil.java:60-70 | the client's packet is the server's for student number 472 |
| `Validator.HeaderIsReadBack` | proj2/Validator.java:29-46 | reading the header fields and writing them are inverse, bit by bit |
| `Validator.ValidHeaderExactly` | proj2/Validator.java:24-49 | the check accepts exactly the packets that start with the builder's header for these fields and a student number up to 999, and are as long as the wrapped sum demands |
| `Validator.PayloadFitsExactly` | proj2/Validator.java:30-31 | an accepted packet is sure to hold its payload exactly for lengths up to INT_MAX - 12 |
| `StepB.BuildPacket` | proj1/Client.java:121-125 | for lengths whose packet an int can measure the packet is the number, zeros, secret and step; for all others the exception it throws instead |
| `StepB.ServerPacketSize` | proj2/ServerThread.java:112-115 | the size the server computes is the length of the client's packet |
| `StepB.CheckPacket` | proj2/ServerThread.java:124-132 | the server's checks throw, and what they throw, as Verdict says |
| `StepB.ClientPacketVerdict` | proj2/ServerThread.java:124-132 | for all lengths, secrets and numbers the client's packet has the computed size, passes header and zero checks, and passes the sequence check exactly if the number is the one expected |
| `StepB.ClientPacketLayout` | proj1/Client.java:121-125 | the client's packet byte by byte: a header with length len + 4, the secret, step 1 and student 472, the number in bytes 12 to 15, then zeros |
| `StepB.AcceptedExactly` | proj2/ServerThread.java:124-132 | the server accepts exactly the packets of a client with a student number up to 999, their last byte aside |
| `StepB.VerdictExactly` | proj2/ServerThread.java:124-132 | IllegalArgumentException exactly if for no student number up to 999 the header bytes are right and the bytes from 16 to the last but one are zero; otherwise IllegalStateException exactly if bytes 12 to 15 are another number than the one expected |
| `StepB.ZeroCheckExactly` | proj2/ServerThread.java:127-129 | an accepted payload is sure to be zero exactly if it is empty or followed by padding |
| `StepB.FieldsAreReadBack` | proj1/Client.java:27-37 | every int the server puts in a message is the int the client extracts at its offset |
| `StepB.BuildAck` | proj2/ServerThread.java:139-141 | the acknowledgement of number i is 16 bytes: a header with length 4, the secret, step 1 and the student, and i in bytes 12 to 15 |
| `StepB.BuildFinal` | proj2/ServerThread.java:151-159 | the final answer is 20 bytes: a header with length 8, the secret, step 2 and the student, the port in bytes 12 to 15 and the new secret in 16 to 19 |
| `StepB.AckLayout` | proj2/ServerThread.java:139-141 | no matter which number, secret and student, those are the bytes of an acknowledgement |
| `StepB.FinalLayout` | proj2/ServerThread.java:151-159 | and those are the bytes of a final answer |
| `StopAndWait.ServeClientPacket` | proj2/ServerThread.java:117-147 | what the server does with a packet of the client depends on the number alone |
| `StopAndWait.ServeKeepsInv` | proj2/ServerThread.java:117-147 | handling whatever packet arrives first, a current one or an old copy, keeps the invariant |
| `StopAndWait.StepKeepsInv` | proj2/ServerThread.java:117-147 | every move, early timeouts included, keeps the two indices, the network, the acknowledgements and the counts of packets right |
| `StopAndWait.Lockstep` | proj2/ServerThread.java:117-147 | in every state of every run the server's index is the client's or one more, the acknowledgements received carry 0, 1, 2, ... in bytes 12 to 15, in order, behind the right header, and all that can have been thrown is IllegalStateException |
| `StopAndWait.RestsExactlyWhenDone` | proj1/Client.java:120-150 | a run comes to rest exactly when the client has the final answer |
| `StopAndWait.NothingHoldsBack` | proj1/Client.java:120-150 | in every state of every run a side that has what its next step needs can take it, whatever the other does |
| `StopAndWait.AllAcknowledgedOnce` | proj1/Client.java:120-143 | at the end of every run the client has one acknowledgement for each number, with the number in its bytes 12 to 15, in order; nothing has been thrown, and there was one retransmission per withheld acknowledgement and per copy the server never took, at least one if there was anything to send |
| `StopAndWait.SecretArrives` | proj1/Client.java:28-30 | the port and secret the client extracts from the answer are the server's, and the answer has them at bytes 12 and 16 behind a header of step 2 |
| `StopAndWait.RunLength` | proj1/Client.java:120-143 | a finished run has three moves per number, two per timeout, one per withheld acknowledgement, and two |
| `StopAndWait.PatienceIsEnough` | proj1/Client.java:132-142 | in a patient run nothing is thrown, and every retransmission answers a withheld acknowledgement |
| `StopAndWait.PatienceIsRewarded` | proj1/Client.java:132-142 | and short of the final answer some move is enabled that is not an early timeout |
| `StopAndWait.ServeThrowsExactly` | proj2/ServerThread.java:130-132 | a packet of the client makes the server throw IllegalStateException exactly when its number is not the server's |
| `StopAndWait.LateAckThrowsExactly` | proj1/Client.java:132-142 | in any run, with only the acknowledgement on its way, sending the number again makes the server throw exactly if it expects another number |
| `StopAndWait.SecondCopyThrowsExactly` | proj1/Client.java:132-142 | with the packet on its way, sending it again makes the server throw on the second copy exactly if it does not withhold the first acknowledgement, by draw or because it must, and expects another number |
| `StopAndWait.CanThrowExactly` | proj1/Client.java:120-143 | some run throws if and only if there are at least two numbers to send |
| `Exchange.ReceiveInto` | proj2/ServerThread.java:119-120 | a datagram fills the front of the buffer, is cut off at its end, and leaves the rest as it was |
| `Exchange.StepBExchange.constructor` | proj2/ServerThread.java:112-116 | both sides start at number 0 with nothing in flight |
| `Exchange.StepBExchange.ClientSend` | proj1/Client.java:120-135 | building and sending the packet is the move Send |
| `Exchange.StepBExchange.ClientReceive` | proj1/Client.java:136-137 | receiving an acknowledgement is the move Receive |
| `Exchange.StepBExchange.ClientReceiveFinal` | proj1/Client.java:145-149 | receiving the answer is the move ReceiveFinal |
| `Exchange.StepBExchange.ServerHandle` | proj2/ServerThread.java:117-147 | one turn of the server's loop on its real buffer is the move Serve |
| `Exchange.StepBExchange.ServerConclude` | proj2/ServerThread.java:151-162 | sending the final answer is the move Conclude |
| `Exchange.StepBoth` | proj1/Client.java:120-150 | under any scheduling, any draws and any given number of early timeouts both loops terminate: with one acknowledgement for each number, in order and carrying it, and the server's port and secret at the client, or, after an early timeout with two numbers to send, with IllegalStateException at the server |

## Left out

* Threads inside `handle_block`: one call is one atomic step, because the code links buffers across calls without
  synchronisation (proj3/multiplex_reader.c:278, 296). `Completion` models the one part that is synchronised. The
  branches that only such races reach (an init block whose insertion finds an entry, lines 170-187; a failed insertion
  in the data path, lines 218-233) are not modelled.
* Completion.FinisherSeesWholeBuffer: one thread per data block and one buffer; threads that fill other buffers do not
  touch its state.
* Receiver.HandleBlock: init blocks whose predecessor tag is smaller, as the writer produces them (that the release
  recursion ends rests on it), and data inside the announced size (the copy is not checked against it).
* Reader.MultiplexReader.HandleBlock: the same blocks as Receiver.HandleBlock, and a table with room for what they
  insert; `TableRoom` says when that is so. The waiting queue is a sequence; that the real queue behaves so is proved
  in `Queue`. The handler is modelled as a log of the buffers it is given.
* Tags are ints that do not wrap, and 0xFFFFFFFF is NO_TAG.
* Memory: allocation succeeds, memory from malloc has arbitrary content, and freeing is not modelled. A removed record
  is simply no longer in the table.
* BlockSize.FindUnifSize: every operation rounds to single precision, to the nearest with ties to even, as on machines
  that do not evaluate float expressions in a wider format. The length is not negative.
* BlockSize.SplitLoopEnds: beyond 2^24 queues the lengths and the number of queues are compared as floats, because
  integers that round to the same float are not told apart.
* Writer.MultiplexWriter.MultiplexWriteQueues: exactly the lengths on which the split loop ends without overflow of
  its index (`Writer.SplittableExactly`); on others the code loops for ever or is undefined. The queues are sequences;
  locking is in `Handoff`.
* EndToEnd.Transfer: the same lengths, and no more buffers than the receiver's table takes without a resize; with more
  there is an order of arrival that reaches the resize (`TableRoom.InitsOverflow`), which the code gets wrong. The
  blocks for different connections are put on their queues independently of each other: more interleavings than one
  writing thread has. Bytes are read only from whole frames already sent. `send_tcp` is taken to send everything it is
  given. After a failed read the connection is not used again.
* Framing: little-endian hosts without struct padding inside the header; the three bytes after `last_block` are
  arbitrary.
* Load balance across queues: the code chooses the queue by byte offset, so there is nothing to prove.
* Handoff: the queue's own semaphore is not a step of its own, since the queue is only used under the mutex. One
  consumer per queue, as in the code.
* LinkedList.LinkedList.Sort: comparison results are unbounded ints, so the negation of INT_MIN does not arise.
* HashTable.HashTable.Insert: below the resize threshold `num_elements < 3 * num_buckets`. ResizeHashtable does not
  fetch the items it reinserts, FreeHashTable does not pop what it frees; neither is modelled. Nor is FNV hashing,
  which the bucket choice does not use. Keys are ints; the bucket is that of the 64-bit word an int is converted to,
  and two ints that are converted to the same word do not occur.
* HashTable.RunOps: sequences of operations that stay below the resize threshold, and tables with at least one bucket.
* HashTable.Find: the removal flag of `find` is modelled by its callers, which delete under the cursor it returns; the
  payload is a value in the node instead of a pointer.
* ReadersWriters.Linearizable: searching and changing the table are two steps, not one per node; the tables do not
  resize.
* StopAndWait.Lockstep: packets are neither lost nor duplicated by the network. The server's random draws and the port
  are parameters.
* Exchange.StepBoth: the scheduler stops when the server has thrown; the client then goes on timing out for ever.
* StepB.ServerPacketSize: lengths for which no size overflows an int; the server draws them below 100, and for all
  others the client has already thrown (`StepB.BuildPacket`).
* StepB.ClientPacketVerdict: the same lengths, for the others there is no packet.
* PacketUtil.InsertHeader: a step character is a digit if it is one of 0 to 9; the decimal digits of other scripts,
  which `parseInt` also takes, throw here.
* PacketUtil.Packetize: the same digits as PacketUtil.InsertHeader.
* ClientPacketUtil.ClientInsertHeader: the same digits as PacketUtil.InsertHeader.
* ClientPacketUtil.ClientPacketize: the same digits as PacketUtil.InsertHeader.
* TransmissionRecord's printing, sockets, port selection, files, timing, `PacketUtil.read`, and steps A, C and D
  beyond the packet fields: input and output, or dependent on how a socket fragments its reads.
