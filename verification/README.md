# O2 in Dafny

O2 is a messaging system for music.  This project models ten of its hand-written
data structures and protocols and proves what each is for.

| module | what it models |
|---|---|
| StableQueue, TimingWheel | the scheduler: 128 bins hashed by time, chains that mix laps, catching up second by second, handlers that schedule while messages are being dispatched. The wheel refines a stable priority queue |
| SizeClasses, Allocator | the real-time allocator: size classes, free lists, blocks carved from chunks |
| LockFreeStack, LockFreeStackCalls | the lock-free stack with its modification counter, as steps of any number of threads, with a counter of any finite width |
| Transport, SocketTable | framed messages over a byte stream with short reads and writes; the table of sockets with deferred deletion |
| HashChains, HashTable | the chained hash table that resizes itself |
| Discovery | the handshake by which processes find each other and connect |
| MessageFormat, MessageBuilder, MessageReader, MessageRoundTrip, MessageSwap, MessageSwapPadding, MessageTap | the message format byte by byte: building, extraction, change of byte order and exactly when it works, copies for taps |
| DeliveryState, DeliveryRules, Delivery, NetworkEvents, DeliveryNetwork | ownership of messages through sending, scheduling, delivery, bundles, handlers and taps; which handlers run inside others; the bound on forwarding in a network of processes |
| GlobalClock, ClockSync | the piecewise-linear global clock and the estimate of the reference clock by round trips |
| Mqtt | MQTT packets: length field, publication, parsing a stream cut anywhere |
| PdAddresses, PdDirectory | the directory of receivers of the Pd externals |
| Bytes, Common | bytes and numbers in both byte orders; small definitions that several modules use |

Operations that update state are methods of classes with the program's fields,
each proved against functions or predicates on plain values; runs, protocols
and interleavings are lemmas about those.  Times are real numbers.  A handler is
given by what it sends: in the scheduler a message carries the messages its
handler schedules, in delivery a script says what each call of a handler sends
and schedules.

## What the proofs found in the code

- `o2_get_next` asked for `T` on an argument `F` gives a pointer, not NULL
  (src/message.cpp:1204-1208), so False can be had as both truth values, and
  nothing else can: `BothTruthValuesIff`, and `Obtainable` for every argument
  and type, in `Extractor.GetNext`.
- Asked for another type on a blob it does not move past the data
  (src/message.cpp:1232-1238), so that later arguments are read from the wrong
  place; for all other arguments it does: `Extractor.GetNext`.
- `o2_msg_swap_endian` does not skip the padding of blobs (src/message.cpp:682).
  `EveryMessageIsSwappedIff`: all messages with given types, and padding after
  the same blobs, come out right if and only if no number and no blob follows a
  blob with padding.  With lengths given too that is so if no blob follows
  (`EveryMessageOfTheseLengthsIff`), and not otherwise (`EmptyBlobIsHarmless`).
- `o2_msg_swap_endian` reports failure for a correct message whose last argument
  carries no data, such as a final `T` or `N`, unless a blob with padding comes
  before (src/message.cpp:655-657): `SwapsToTheOtherOrder`.
- When a catch-up message runs late the global clock is set back, if it was
  running fast (src/clock.cpp:98-107): `LateCatchUp`, `LateCatchUpHappens`.
- When `_cs` is unknown for a moment the send time moves without a new serial
  number (src/clock.cpp:521-525); a reply under way then seems to have been
  faster than it was, and its estimate misses its bound if and only if the
  reference was read before that moment: `MovedSendTime`, with the run
  `MovedSendTimeMisses`.  As long as `_cs` is known the bound holds:
  `Synchronizer.PingReply`.
- The lock-free stack loses an element in a run in which a thread sleeps between
  reading the head and the compare-and-swap of a pop while the head is updated
  exactly as often as the counter has values (src/o2atomic.cpp:24-40):
  `SleepingThroughTheCounterLosesAnElement`.  By `RunKeepsInvIff` all goes well
  exactly as long as no pop installs a stale successor; pushes and grabs may
  sleep as they like.
- A poll of the scheduler whose time goes back disturbs nothing that is pending,
  but the cursor goes back by one bin only (src/o2sched.cpp:175-198).  A message
  that is scheduled afterwards and is not late, for a bin before the cursor, is
  linked behind it and missed by the polls at its time: `Wheel.Dispatch`,
  `Wheel.Schedule` with the exact condition `Ahead`, and the run
  `ScheduledBehindTheCursor`.
- `malloc_one_object` does not check what the system gives
  (src/o2mem.cpp:638-641): `Allocator.Malloc` says exactly when NULL is written
  to.
- In pd/o2pd.c the flag `service_exists` describes the old service and is used
  for the new path (pd/o2pd.c:355-374), and names of services are cut off at 62
  characters (pd/o2pd.c:205-219), although O2 allows 63 (src/o2.cpp:1265).  A
  change of address breaks INV_7 in exactly these two ways, and INV_8 only in
  the second: `ServiceOfferedIff`, `ServiceNeededIff`, with the inputs
  `ServiceIsOverlooked` and `LongServiceIsCutShort`.  The same
  flag makes an assertion fail when the new path is refused (pd/o2pd.c:248):
  `Directory.Update` says exactly when.
- A bang or an address message without a path, to a receiver that never had
  one, makes pd/o2pd.c look for the service of NULL (pd/o2pd.c:260):
  `Directory.Update`, `Directory.Address`.
- A publication with a topic of 65536 bytes or more does not come back
  (src/mqttcomm.cpp:34-38); an MQTT packet of another kind makes what is lost
  depend on how the stream was cut (src/mqttcomm.cpp:195-197).
- `table_resize` does not reset `num_children` (src/o2node.cpp:72-89); the
  recursion still ends and the table stays large enough: `HashTable.Insert`.
- src/o2.h:2785-2788 promises that messages scheduled within handlers wait until
  the handler returns, but `o2_schedule` delivers a late one at once, whatever
  `o2_do_not_reenter` is (src/o2sched.cpp:123-127).  A handler that is called
  while others have to wait has another running inside it if and only if it
  schedules a late message whose delivery calls one: `Context.Send` with
  `AnyRuns`, and the input `LateMessageNests`.
- `o2_deliver_pending` delivers local messages without raising
  `o2_do_not_reenter` (src/msgsend.cpp:280-293), so there also what a handler
  sends can run handlers inside it: `Context.DeliverFirstLocal`, and the input
  `PostponedCopyNests`.

## Model

| member | source | states |
|---|---|---|
| StableQueue.RunIsStableAndConserves | src/o2sched.cpp:119-201 | over any run of schedules and forward polls, handlers included: messages leave in time order, ties leave in arrival order, and entered = left + pending as multisets |
| StableQueue.RunHandlersRun | src/o2sched.cpp:119-201 | over any run: what entered, was delivered at once or was refused are, as multisets, the messages from outside and all that the handlers of delivered messages schedule; with a clock none is refused, without one none enters |
| StableQueue.DispatchRunsTheHandler | src/o2sched.cpp:181-195 | a dispatch takes the earliest message, and what its handler schedules, if not late, enters the queue in order and first; nothing else does if nothing else is due |
| StableQueue.LateMessageRunsTheHandler | src/o2sched.cpp:123-127 | the same for a message that is delivered at once |
| StableQueue.DispatchDelivers | src/o2sched.cpp:163-201 | after a dispatch nothing due is left, nothing early has left, and earlier departures stay as they were |
| StableQueue.DispatchInTwoSteps | src/o2sched.cpp:172-174 | stopping at an earlier time on the way changes nothing, which is why catching up by seconds is harmless |
| StableQueue.ScheduleKeepsInv | src/o2sched.cpp:119-149 | scheduling keeps the queue sorted, ties in arrival order, and every message accounted for |
| StableQueue.ReactKeepsInv | src/o2sched.cpp:190-195 | so does a handler that schedules during dispatch |
| StableQueue.PopHeadKeepsInv | src/o2sched.cpp:181-191 | so does taking the first message |
| StableQueue.RunKeepsInv | src/o2sched.cpp:119-201 | the invariant holds after any run with forward polls |
| TimingWheel.BinOfOneSecond | src/o2sched.h:10-12 | a second spans at most 100 bins, so less than one lap of the table |
| TimingWheel.BinMonotone | src/o2sched.h:10-12 | later times never have earlier bins |
| TimingWheel.Wheel.constructor | src/o2sched.cpp:97-105 | an empty wheel is the empty queue |
| TimingWheel.Wheel.StartClock | src/o2sched.cpp:97-105 | starting empties the wheel, whatever state it is in, and sets its time |
| TimingWheel.Wheel.Schedule | src/o2sched.cpp:119-149 | in every state of the wheel does to the abstract queue what the reference does: late messages run at once, without a clock they are refused, others are inserted; no message gets behind the cursor if and only if the message is late and its handler puts none there, is refused, or has a bin that is not before the cursor |
| TimingWheel.Wheel.InsertionPoint | src/o2sched.cpp:137-144 | the walk along a chain finds the place after all messages that are not later |
| TimingWheel.Wheel.Link | src/o2sched.cpp:134-145 | linking into the hashed chain is insertion in the whole queue |
| TimingWheel.Wheel.React | src/o2sched.cpp:190-195 | a handler's schedules have the effect they have on the reference queue, and put no message behind the cursor under the same condition |
| TimingWheel.InStepIsAhead | src/o2sched.cpp:119-195 | that is always so while the cursor is at the bin of the time |
| TimingWheel.Wheel.HeadOfSlotIsEarliest | src/o2sched.cpp:179-183 | although a chain mixes laps, a due message at its head is the earliest of the whole wheel |
| TimingWheel.Wheel.SlotExhausted | src/o2sched.cpp:179-183 | a chain that shows nothing due hides nothing due |
| TimingWheel.Wheel.SlotsAfterPop | src/o2sched.cpp:184-186 | unlinking the first message of a chain leaves all chains right |
| TimingWheel.Wheel.Dispatch | src/o2sched.cpp:163-201 | for every poll time, forward or back, a wheel with no message behind the cursor does exactly what the reference queue does and has none behind afterwards; where the cursor is then; in any state, a poll that sees nothing due changes only the time |
| TimingWheel.Wheel.CatchUp | src/o2sched.cpp:172-174 | catching up by seconds leaves to the last second what the reference has left to do |
| TimingWheel.Wheel.Finish | src/o2sched.cpp:175-200 | the last second, or a step back |
| TimingWheel.Wheel.Sweep | src/o2sched.cpp:175-198 | the sweep over the bins does not change what remains to be dispatched by the reference, and leaves nothing due behind |
| TimingWheel.Wheel.SweepBin | src/o2sched.cpp:179-196 | the same for one bin, with handlers changing the table |
| TimingWheel.Wheel.DeliverFirst | src/o2sched.cpp:181-195 | the first message of a chain is taken and its handler runs, in any state of the wheel; if it is the first of the queue, that is what the reference does |
| TimingWheel.Wheel.Unlink | src/o2sched.cpp:181-186 | exactly the first message of the chain is taken, and all chains are right afterwards |
| TimingWheel.ScheduledBehindTheCursor | src/o2sched.cpp:119-201 | from 10.0 a poll at 9.5, a message scheduled for 9.6, polls at 10.0 and 10.87: it is still pending, while the reference delivers it at 10.0 |
| LockFreeStack.StepKeepsInvIff | src/o2atomic.cpp:24-70 | every step of every thread keeps: the head chain is the stack, every element is in one place, a copy of the head with an equal counter is current; with the one exception, exactly, of a pop that installs a stale successor |
| LockFreeStack.SwapPopKeepsInvIff | src/o2atomic.cpp:30-36 | a compare-and-swap of pop keeps the invariant if and only if the successor it installs is not stale |
| LockFreeStack.RecentIsNotStale | src/o2atomic.cpp:30-36 | it never is, if the head was updated fewer times than the counter has values since the thread read it |
| LockFreeStack.SwapPushKeepsInv | src/o2atomic.cpp:47-52 | push, with its retries and spurious failures |
| LockFreeStack.SwapGrabKeepsInv | src/o2atomic.cpp:58-70 | grab takes the whole chain |
| LockFreeStack.ReadNextKeepsInv | src/o2atomic.cpp:31-33 | reading the successor of an element that may have been popped meanwhile |
| LockFreeStack.ScribbleKeepsInv | src/o2atomic.cpp:24-40 | the owner of a popped element may write to it while others still read it |
| LockFreeStack.RunKeepsInvIff | src/o2atomic.cpp:24-70 | the invariant holds along an interleaving if and only if no pop in it installed a stale successor |
| LockFreeStack.RunKeepsInv | src/o2atomic.cpp:24-70 | so it holds along any interleaving in which no pop slept through a cycle of the counter |
| LockFreeStack.Linearizable | src/o2atomic.cpp:24-70 | the operations in the order of their compare-and-swaps are a run of a sequential stack that ends with what is reachable from the head; each element is in exactly one place |
| LockFreeStack.LinearizableUnlessStale | src/o2atomic.cpp:24-70 | the same for every interleaving in which no pop installs a stale successor |
| LockFreeStackCalls.EveryCallHasItsOperation | src/o2atomic.cpp:24-70 | in every run, for every thread: its calls of pop, push and grab, in order, are those its operations completed, in order, and the one it is in; a push that of its own element |
| LockFreeStackCalls.OneOperationPerCall | src/o2atomic.cpp:24-70 | the same, counted |
| LockFreeStackCalls.StepCompletesOrGoesOn | src/o2atomic.cpp:24-70 | a failed compare-and-swap goes on with the call, a successful one completes it |
| LockFreeStack.ChainUnique | src/o2atomic.cpp:58-80 | a chain is determined by its first element |
| LockFreeStack.GrabHandsOverTheChain | src/o2atomic.cpp:58-80 | walking the grabbed list visits exactly the elements that were on the stack |
| LockFreeStack.SleepingThroughTheCounterLosesAnElement | src/o2atomic.cpp:24-40 | for every counter of three or more values a run from an empty stack, with one pop that slept through exactly one cycle of the counter, after which an element is neither on the stack nor held by a thread |
| SizeClasses.BlockSizeFits | src/o2mem.cpp:233-245 | a block is at least as large as asked for, keeps the next payload aligned and has exactly the size of its list |
| SizeClasses.ClassIsBestFit | src/o2mem.cpp:565-605 | of all lists that could serve a request the one with the smallest blocks is chosen; a request has no list only if none could serve it |
| SizeClasses.BlockSizeIdempotent | src/o2mem.cpp:576-605 | looking up a block size changes neither it nor its list, so a freed block returns to where it came from |
| SizeClasses.ListSizesDiffer | src/o2mem.cpp:576-605 | two lists never have blocks of the same size |
| SizeClasses.FitsInFreshChunk | src/o2mem.cpp:737-790 | a class block that is not refused a chunk fits in a fresh one |
| SizeClasses.ExponentIsLeast | src/o2mem.cpp:565-571 | the exponent found is the least that is enough |
| SizeClasses.PowerOf2BlockSize | src/o2mem.cpp:565-571 | the loop computes that exponent |
| SizeClasses.HeadForSize | src/o2mem.cpp:576-605 | the list and the block size of any request |
| Allocator.OneObjectIsGood | src/o2mem.cpp:631-662 | a block taken from the system alone keeps all blocks aligned, apart and inside their chunks |
| Allocator.ChunkIsGood | src/o2mem.cpp:771-790 | so does a fresh chunk |
| Allocator.BlockIsGood | src/o2mem.cpp:791-794 | so does carving, which never overruns the chunk |
| Allocator.SpaceShape | src/o2mem.cpp:787-794 | what remains of a chunk is a multiple of 16 bytes and a word, so at most 504 bytes are abandoned |
| Allocator.BytesWithout | src/o2mem.cpp:809-810 | the accounting of allocated bytes does not depend on the order of blocks |
| Allocator.Allocator.constructor | src/o2mem.cpp:508-538 | an allocator without chunks |
| Allocator.Allocator.Malloc | src/o2mem.cpp:665-826 | a new aligned block of at least the size asked for, apart from all others; a freed block of the class is reused first; what fits in the chunk leaves the chunks as they are, what is small or finds little space gets a fresh one, all else leaves the space alone; NULL only without memory; a crash exactly when a single object is wanted and the system has no memory |
| Allocator.Allocator.FreshBlock | src/o2mem.cpp:737-810 | without a freed block: cut off the chunk whenever it fits, off a fresh chunk when little is lost, else from the system |
| Allocator.Allocator.MallocOneObject | src/o2mem.cpp:631-662 | one block from the system, or a crash if and only if there is none |
| Allocator.Allocator.PopList | src/o2mem.cpp:713-729 | a block from a free list has exactly the size of the list |
| Allocator.Allocator.NewChunk | src/o2mem.cpp:758-790 | the rest of the old chunk, at most 504 bytes, is abandoned |
| Allocator.Allocator.Carve | src/o2mem.cpp:791-794 | a block from the front of the chunk |
| Allocator.Allocator.Free | src/o2mem.cpp:829-885 | a class block goes back to the list it came from; a huge one is kept; the byte count follows |
| HashChains.InsertedRepresents | src/o2node.cpp:381-386 | linking an entry into its chain adds it to the map |
| HashChains.RemovedRepresents | src/o2node.cpp:310-315 | unlinking removes exactly its key |
| HashChains.FlattenIsTheMap | src/o2node.cpp:129-141 | the enumeration of a table has every entry of the map once and no other |
| HashChains.FlattenDistinct | src/o2node.cpp:129-141 | no key is enumerated twice |
| HashChains.MapOfDistinct | src/o2node.cpp:129-141 | a list without repeated keys and the map it stands for have the same size and entries |
| HashChains.GetHash | src/o2node.cpp:243-257 | the loop over words ends with the padded key and reads nothing beyond |
| HashChains.KnownHashes | src/o2node.cpp:243-257 | two hashes as numbers |
| HashTable.Enumerate.Next | src/o2node.cpp:129-141 | gives the entries one by one, then nothing |
| HashTable.HashTable.Lookup | src/o2node.cpp:279-298 | finds the entry of a key, or the end of its chain, if and only if the map has it; a table without slots gets some |
| HashTable.HashTable.Insert | src/o2node.cpp:61-69 | the map gets exactly the new entry, whatever resizing follows; the mutual recursion ends; the table is at most four fifths full afterwards |
| HashTable.HashTable.EntryInsertAt | src/o2node.cpp:381-392 | linking, and growing only if the table is more than four fifths full |
| HashTable.HashTable.TableResize | src/o2node.cpp:72-89 | the same map in another table that has room for it; the counter grows by the entries moved at least |
| HashTable.HashTable.EntryRemove | src/o2node.cpp:310-323 | removes exactly one key; the table is rebuilt if that is allowed and it is less than one fifth full with more than three entries, and else only the entry is unlinked |
| HashTable.HashTable.EntryRemoveByName | src/o2node.cpp:400-407 | removes the key if it is there and says whether it was |
| Transport.FrameUnique | src/o2network.cpp:1146-1196 | two frames at the start of the same bytes are the same frame |
| Transport.FramesUnique | src/o2network.cpp:1146-1196 | a stream can be taken apart into messages in one way |
| Transport.Link.constructor | src/o2network.cpp:326-360 | nothing was sent yet |
| Transport.Link.Enqueue | src/o2network.cpp:841-862 | the message is sent at once if nothing is being sent, else it is the last in line; delivered + partly read + in flight + unsent is always exactly what was enqueued |
| Transport.Link.Send | src/o2network.cpp:764-831 | for every sequence of answers of the socket: what is written, what stays queued; it fails, closed and with nothing queued, if and only if it used a terminating error, and gives up if and only if it must not block and an answer did not finish a message |
| Transport.Link.SendOnce | src/o2network.cpp:774-828 | one attempt: a full, partial or refused write, or a terminating error |
| Transport.SendFailsIff | src/o2network.cpp:774-831 | the same about the function that the method computes |
| Transport.OneMoreAnswer | src/o2network.cpp:774-828 | what one more answer changes, after any others |
| Transport.KnownFrames | src/o2network.cpp:785-790 | two frames byte for byte, the length in network order |
| Transport.WillingSocketSendsAll | src/o2network.cpp:770-831 | a socket that takes all it is offered lets everything out in one call |
| Transport.Link.Transmit | src/o2network.cpp:791-828 | exactly the next bytes go on the wire |
| Transport.Link.Close | src/o2network.cpp:801-812 | a terminating error frees what was unsent |
| Transport.Link.ReadEvent | src/o2network.cpp:1132-1324 | any number of bytes read: conservation is kept, at most one message is delivered, and bytes in flight get fewer |
| Transport.Link.ReadLength | src/o2network.cpp:1148-1180 | the length field in up to four pieces |
| Transport.Link.CheckLength | src/o2network.cpp:1162-1176 | the length is decoded, and the receiver hangs up if and only if it is 65536 or more |
| Transport.Link.ReadBody | src/o2network.cpp:1182-1195 | the payload in pieces |
| Transport.Link.Deliver | src/o2network.cpp:1304-1316 | a complete message is handed on and the reader is ready for the next |
| Transport.Link.DeliversInOrder | src/o2network.cpp:695-862 | at every moment the delivered messages are the first ones enqueued, in order and unmodified |
| Transport.Link.DeliversAll | src/o2network.cpp:695-862 | when nothing is unsent or in flight everything was delivered |
| Transport.Link.HangsUpOnlyOnLongMessages | src/o2network.cpp:1165-1176 | the receiver never hangs up if all payloads are shorter than 65536 bytes, and otherwise only at the first that is not, everything before having been delivered |
| SocketTable.Sockets.Add | src/o2network.cpp:326-360 | a record goes to the end of both arrays and knows its index |
| SocketTable.Sockets.Delete | src/o2network.cpp:550-602 | the last entry fills the hole in both arrays, every record still knows its index, and the records to be closed are marked |
| SocketTable.Sockets.FreeDeleted | src/o2network.cpp:609-632 | no marked record is left, and the records deleted are exactly the least set closed under what deletion marks |
| SocketTable.Sockets.Pass | src/o2network.cpp:617-630 | one pass, in which deletion may mark records before and behind |
| MessageFormat.PartsOf | src/message.cpp:298-353 | where header, address, type string and data of a message are |
| MessageFormat.KnownMessage | src/message.cpp:298-353 | one message byte for byte, in both orders |
| MessageFormat.ArgDataAt | src/message.cpp:1017-1327 | the data of an argument starts where that of those before it ends |
| MessageFormat.ScanPadded | src/message.cpp:468-472 | scanning a padded string finds its length and what follows it |
| MessageFormat.TypeCodesAt | src/message.cpp:867-902 | the type codes of an encoded message, and the zero after them |
| MessageBuilder.Builder.Start | src/message.cpp:135-150 | one message at a time |
| MessageBuilder.Builder.AddInt32OrChar | src/message.cpp:176-185 | adds exactly this argument, unless a bundle is being built |
| MessageBuilder.Builder.AddInt64OrDoubleOrTime | src/message.cpp:164-197 | the same for 64-bit arguments |
| MessageBuilder.Builder.AddOnlyTypecode | src/message.cpp:200-208 | the same for T, F, N, I |
| MessageBuilder.Builder.AddStringOrSymbol | src/message.cpp:211-226 | the same for strings, with their padding |
| MessageBuilder.Builder.AddBlobData | src/message.cpp:229-239 | the same for blobs |
| MessageBuilder.Builder.AddMessage | src/message.cpp:275-285 | embeds a message, unless arguments were added |
| MessageBuilder.Builder.Finish | src/message.cpp:298-353 | the result is the encoding of flags, time, service, address and arguments, every byte of it, whatever the memory held; NULL if and only if none was started |
| MessageBuilder.PaddedLayout | src/message.cpp:316-350 | clearing the last word and copying gives a padded string |
| MessageBuilder.KnownAddress | src/message.cpp:325-340 | service and address of a message and of a bundle |
| MessageBuilder.ServiceLayout | src/message.cpp:325-340 | service and address written over each other come out as one string |
| MessageReader.ReadsBack | src/message.cpp:1017-1327 | encoded data reads back as the argument, whatever is around it |
| MessageReader.NextO2String | src/message.cpp:468-472 | the loop over words |
| MessageReader.Extractor.constructor | src/message.cpp:867-902 | extraction of any encoded message starts at its first argument |
| MessageReader.Extractor.GetNext | src/message.cpp:1017-1327 | something is given if and only if the argument can be had as the type asked for; the argument itself, when no conversion is needed; the cursors move on unless another type than a blob's was asked for; after the last there is nothing |
| MessageReader.BothTruthValuesIff | src/message.cpp:1199-1208 | False, and nothing else, can be had as both truth values |
| MessageReader.ConversionsAre | src/message.cpp:905-995 | the types that a number or True can be had as |
| MessageReader.Extractor.Switch | src/message.cpp:1191-1322 | the switch over the type in the message, for every type asked for |
| MessageReader.Extractor.GetAll | src/o2node.cpp:184-220 | with the message's own type string exactly the arguments come back |
| MessageRoundTrip.Add | src/message.cpp:164-239 | the function of the add family for an argument's type adds it |
| MessageRoundTrip.SendAndReceive | src/message.cpp:135-353 | any arguments, added one by one, finished and extracted, come out as they went in |
| MessageSwap.SwapEndian | src/message.cpp:629-747 | the in-place loop, for any bytes at all, is the function that the lemmas are about |
| MessageSwap.SwapsToTheOtherOrder | src/message.cpp:629-747 | a message of either byte order becomes exactly the message with the same contents in the other, if no number and no blob follows a blob that needs padding; failure is reported if and only if the last argument has no data and no blob has padding |
| MessageSwap.SwappingTwiceRestores | src/message.cpp:629-747 | swapping there and back is the identity, from either byte order, under the same condition |
| MessageSwap.NeutralPass | src/message.cpp:664-690 | after a blob with padding the cursor stays behind the data through any strings, never by whole words, and the strings are left as they are |
| MessageSwapPadding.EveryMessageIsSwappedIff | src/message.cpp:629-747 | given types and the blobs with padding, every message comes out right if and only if no number and no blob follows a blob with padding; in both byte orders |
| MessageSwapPadding.EveryMessageOfTheseLengthsIff | src/message.cpp:629-747 | the same for given lengths of all strings and blobs, if no blob follows a blob with padding |
| MessageSwapPadding.NumberIsSpoiled | src/message.cpp:672-690 | in such a message the first of the widest numbers after the blob is never put in order, whatever stands between |
| MessageSwapPadding.NextIsSpoiled | src/message.cpp:672-690 | the next number or blob after a blob with padding comes out wrong for some contents |
| MessageSwapPadding.EmptyBlobIsHarmless | src/message.cpp:672-690 | a blob of one byte and then an empty one: violates the condition and always comes out right |
| MessageSwapPadding.KeepsBefore | src/message.cpp:629-747 | bytes before the data cursor are final |
| MessageTap.TapMiscKeepsTtl | src/msgsend.cpp:364-372 | the flags of a copy: forwarding count kept, tap flag set, TCP or UDP as the tap wants |
| MessageTap.TapAddressIs | src/msgsend.cpp:332-362 | only the service of the address is replaced |
| MessageTap.CopyForTap | src/msgsend.cpp:332-388 | the copy is what building the message for the tapper would have given: same time, types and data at the same address of another service |
| DeliveryState.OneOwner | src/msgsend.cpp:221-273 | a message block has exactly one owner, and a freed one none |
| DeliveryState.SpreadOfNew | src/msgsend.cpp:528-537 | with at most d taps per service a message leads to 1 + d + d² + d³ deliveries at most |
| DeliveryState.TapsWithinSpread | src/msgsend.cpp:528-537 | the copies for taps together lead to less than the message itself |
| DeliveryState.EffectThen | src/msgsend.cpp:422-611 | operations in sequence keep ownership and add up their budgets of deliveries |
| DeliveryState.PushedIsOk | src/msgsend.cpp:221-225 | preparing a new message keeps ownership |
| DeliveryState.FreedIsOk | src/msgsend.cpp:236-252 | freeing the current message keeps ownership |
| DeliveryState.PostponedIsOk | src/msgsend.cpp:259-268 | putting it in a queue keeps ownership |
| DeliveryState.HandedOffIsOk | src/msgsend.cpp:562-569 | so does handing it to a proxy |
| DeliveryState.ScheduledIsOk | src/o2sched.cpp:134-145 | so does scheduling |
| DeliveryState.MarkedIsOk | src/msgsend.cpp:528-531 | counting a forwarding changes only the message itself |
| DeliveryState.GoneIsOk | src/msgsend.cpp:562-569 | a message that has left the process takes what it can lead to along |
| DeliveryRules.PatientRunsNothing | src/msgsend.cpp:259-273 | while others have to wait, what a handler does runs no handler unless it schedules a late message |
| DeliveryRules.CopiesAre | src/msgsend.cpp:528-537 | up to three forwardings: one copy for each tap, in order, with the same time and counted once more; then none |
| DeliveryRules.DrainTakesInOrder | src/msgsend.cpp:275-294 | pending messages are taken in the order in which they came, whatever comes in meanwhile |
| DeliveryRules.HandlerIsLogged | src/msgsend.cpp:447-512 | a handler has another inside it if and only if something it does runs one |
| Delivery.Context.NewMessage | src/msgsend.cpp:221-225 | a new block on the stack |
| Delivery.Context.CompleteDelivery | src/msgsend.cpp:236-239 | the top of the stack is freed |
| Delivery.Context.ProxySend | src/msgsend.cpp:566-568 | a proxy is the last owner of the top of the stack |
| Delivery.Context.Postpone | src/msgsend.cpp:152-160 | the top of the stack is the last in the queue its tap flag says |
| Delivery.Context.MessageSend | src/msgsend.cpp:581-601 | leaves the stack as it was without the message, which is scheduled in order, freed, queued, handed to a proxy or delivered exactly as its time and service say; ends; with the error code; handlers run if and only if the service is local and nothing has to wait |
| Delivery.Context.Schedule | src/o2sched.cpp:119-149 | late messages are delivered at once, also while others have to wait; without a clock they are freed, others wait in time order |
| Delivery.Context.ServiceMsgSend | src/msgsend.cpp:562-574 | no service, a proxy, or local delivery |
| Delivery.Context.SendLocal | src/msgsend.cpp:259-273 | while a message is being delivered others wait in the queue for their kind; otherwise it is delivered, and handlers run inside its handler if and only if that schedules a late message that calls one |
| Delivery.Context.Deliver | src/msgsend.cpp:422-525 | the message is delivered before any other and is freed; while others wait it is the only one, unless its handler schedules a late one; exactly the messages of a bundle are made, in order; when handlers run, and when inside each other |
| Delivery.Context.DeliverPlain | src/msgsend.cpp:442-525 | exactly this is made for the message, in this order, whoever has to wait: what its handler sends and schedules, then a copy for each tap; then the message is freed |
| Delivery.Context.RunHandler | src/msgsend.cpp:447-512 | exactly the messages of the next handler are made, in order; another handler runs inside if and only if one of its acts runs one |
| Delivery.Context.DoAll | src/msgsend.cpp:311-328 | a sequence of messages, such as the embedded ones of a bundle, is made in order, each sent or scheduled before the next is made |
| Delivery.Context.DoOne | src/msgsend.cpp:544-601 | one message is made and sent or scheduled |
| Delivery.Context.Reach | src/msgsend.cpp:442-512 | the message reaches its service, and the handler, if found, is called once |
| Delivery.Context.SendToTaps | src/msgsend.cpp:528-537 | one copy for each tap, in order, up to a forwarding count of 3, then none, whoever has to wait |
| Delivery.Context.SendToTap | src/msgsend.cpp:332-416 | one copy, which goes to the tapper's process, to the proxy or the handler of its local provider, into a queue if others have to wait, or is freed when there is none |
| Delivery.Context.Send | src/msgsend.cpp:544-601 | what becomes of a message an application sends, and exactly when a handler runs inside its handler |
| Delivery.Context.DeliverPending | src/msgsend.cpp:275-294 | both loops end; the states in between are a way to empty the queues head first; no local messages are left |
| Delivery.Context.SendFirstPending | src/msgsend.cpp:277-280 | the first message for any process is sent |
| Delivery.Context.DeliverFirstLocal | src/msgsend.cpp:281-293 | the first local message is delivered, or freed when its service is gone; handlers run inside its handler if that sends to one |
| Delivery.Context.DispatchFirst | src/o2sched.cpp:181-195 | the scheduler hands its first message over and sets its time |
| Delivery.LateMessageNests | src/o2sched.cpp:123-127 | a handler that runs inside itself, by scheduling |
| Delivery.PostponedCopyNests | src/msgsend.cpp:280-293 | a handler that runs inside another, by sending, when a copy for a tap was postponed |
| DeliveryNetwork.Carry | src/msgsend.cpp:391-394 | a message that travels to another process is sent there as any other, and takes its bound along: both together have no more to do than before |
| DeliveryNetwork.Deposit | src/msgsend.cpp:544-601 | a message that is put into a process is sent there |
| NetworkEvents.DueMessagesAreDelivered | src/msgsend.cpp:562-601 | in any run every due message for a service in a process is delivered there, every one for a handler has one called, every one for a proxy is given to it |
| NetworkEvents.DueIsDelivered | src/msgsend.cpp:562-601 | a due message for a service in the process is delivered before any other and freed, and its handler is called |
| NetworkEvents.DueIsHandedOff | src/msgsend.cpp:562-569 | a due message for a proxy is given to it unchanged |
| NetworkEvents.ScheduledIsDelivered | src/o2sched.cpp:181-195 | so is a scheduled message when its time has come |
| NetworkEvents.WaitingIsScheduled | src/msgsend.cpp:581-601 | a message that has to wait is scheduled behind all that are not later and in front of those that are |
| NetworkEvents.UnknownIsFreed | src/msgsend.cpp:562-574 | a message for a service that is not there is freed, and nothing else happens |
| DeliveryNetwork.Step | src/o2.cpp:1344-1386 | what each event does in its process, and to no other, and that none adds to what there is to do, except a message of an application |
| DeliveryNetwork.Run | src/o2.cpp:1344-1386 | any number of processes and any events in any order: all deliveries together are at most what there was to do and what the messages of applications can lead to; in each process there are at least as many deliveries, handler calls and messages given to proxies as due messages were put into it or dispatched there |
| DeliveryNetwork.OneMessage | src/msgsend.cpp:528-537 | one message in a network at rest, with at most d taps per service, cyclic ones included: at most 1 + d + d² + d³ deliveries in all processes together, and at least one if it is due for a service in its process |
| Discovery.Process.Discovered | src/discovery.cpp:345-371 | a callback closes its connection and is treated as a discovery, without a source it is refused |
| Discovery.Process.DiscoveredName | src/discovery.cpp:374-503 | the reaction to a discovery, a callback and a connect message, for every version, name and source |
| Discovery.RefusedIff | src/discovery.cpp:374-486 | when a message is refused, and that then nobody gets known; when the source is closed |
| Discovery.CompatibleIff | src/discovery.cpp:379-383 | versions agree if and only if the byte under 0xFF0000 does |
| Discovery.HearIs | src/discovery.cpp:381-438 | a discovery message makes the lower process connect and the higher call back |
| Discovery.ReceiveCallbackIs | src/discovery.cpp:353-363 | so does a callback, after its connection is closed |
| Discovery.ReceiveConnectIs | src/discovery.cpp:439-486 | a connect message gives the server's end of the connection the name of the client |
| Discovery.StepKeepsInv | src/discovery.cpp:345-503 | every step keeps, for each pair: at most one lasting connection, opened by the lower name, who knows whom, and that exactly the ends that know the other are named, and by its name |
| Discovery.RunKeepsInv | src/discovery.cpp:345-503 | over all runs, with discovery messages lost, repeated and late |
| Discovery.AtMostOneConnection | src/discovery.cpp:381-438 | two processes never have two lasting connections, and the lower opened it |
| Discovery.HearingCommits | src/discovery.cpp:381-438 | a discovery message heard by either side sets the handshake going |
| Discovery.StepKeepsCommitted | src/discovery.cpp:345-503 | nothing that happens afterwards undoes that |
| Discovery.OneHearingIsEnough | src/o2.cpp:556-580 | after one discovery message, whenever all TCP messages are dealt with, both know each other, both ends of their one connection have the name of the other, and no temporary connection is left |
| Discovery.ReceiveLightens | src/discovery.cpp:345-503 | every delivery leaves less to come |
| Discovery.QuietSoon | src/discovery.cpp:345-503 | at most two deliveries per message on its way, and one is always possible |
| GlobalClock.StepKeepsInv | src/clock.cpp:98-166 | rates and serial numbers stay in order |
| GlobalClock.StepNeverGoesBack | src/clock.cpp:122-166 | an event never sets the clock back, and moves it only to jump ahead by more than a second |
| GlobalClock.GlobalTimeNeverDecreases | src/clock.cpp:98-166 | over any run, global time read later is never less |
| GlobalClock.ApproachesReference | src/clock.cpp:128-153 | after a small correction the clock does not jump and approaches the reference by a tenth of a second per second |
| GlobalClock.ReadingsAfterCorrection | src/clock.cpp:122-166 | what is read after a correction of any size: more than a second ahead, the reference at once; a second behind or more, a clock that stands still; a handled jump changes nothing; else a tenth faster or slower |
| GlobalClock.LandsOnReference | src/clock.cpp:98-153 | exactly 10·advance seconds later it is on the reference line and stays there |
| GlobalClock.CancelledCatchUpDoesNothing | src/clock.cpp:101-102 | a cancelled catch-up has no effect |
| GlobalClock.SetClockCancels | src/clock.cpp:129 | every correction cancels all earlier catch-ups |
| GlobalClock.LateCatchUp | src/clock.cpp:98-107 | if a catch-up runs late the clock goes back if and only if it was running fast, by a tenth of the delay |
| GlobalClock.LateCatchUpHappens | src/clock.cpp:98-153 | a clock half a second behind whose catch-up runs a second late |
| GlobalClock.ClockVariables.SetClock | src/clock.cpp:122-166 | the assignments are the correction that the lemmas are about |
| GlobalClock.ClockVariables.WillCatchUpAfter | src/clock.cpp:110-119 | one more catch-up, with the current serial number |
| GlobalClock.ClockVariables.CatchUpHandler | src/clock.cpp:98-107 | the assignments are the catch-up of the lemmas |
| ClockSync.AccurateIff | src/clock.cpp:386-392 | the estimate from a reply is within half its round trip of the true offset if and only if the send time noted is not after the reading |
| ClockSync.KnownServiceIsAccurate | src/clock.cpp:386-392 | as it is for every ping sent while the service is known |
| ClockSync.MovedSendTime | src/clock.cpp:521-528 | after a ping the service is unknown once: the reply is accepted, and misses its bound if and only if the reference was read before that |
| ClockSync.MovedSendTimeHappens | src/clock.cpp:521-528 | such a reply |
| ClockSync.MovedSendTimeMisses | src/clock.cpp:376-442 | a run of the program in which the reference time is set from such a reply and misses its bound |
| ClockSync.Synchronizer.PingSend | src/clock.cpp:521-528 | the send time, and a new serial number only when the service is known |
| ClockSync.Synchronizer.PingReply | src/clock.cpp:376-442 | the ring holds the last five accepted replies; replies to earlier pings are ignored; from the fifth on the reply with the shortest round trip decides, and the new reference time is within half of it if and only if that reply's send time was not moved past the reading; always, while the service is known |
| ClockSync.Synchronizer.Record | src/clock.cpp:390-393 | the newest reply replaces the oldest |
| ClockSync.Synchronizer.Best | src/clock.cpp:419-431 | minimum and mean of the ring |
| Mqtt.LengthRoundTrip | src/mqttcomm.cpp:63-88 | the length field of section 2.2.3 of MQTT 3.1.1 reads back, with whatever follows |
| Mqtt.DrainInTwo | src/mqttcomm.cpp:214-227 | handling a stream in two parts is handling it at once |
| Mqtt.CutDoesNotMatterIff | src/mqttcomm.cpp:155-227 | what is handled and left does not depend on the cut if and only if no packet of an unknown kind is followed by anything |
| Mqtt.PublicationRoundTripIff | src/mqttcomm.cpp:164-175 | topic and payload come back if and only if the topic is shorter than 65536 bytes |
| Mqtt.PacketParses | src/mqttcomm.cpp:155-194 | a packet is found whatever follows it |
| Mqtt.KnownBytes | src/mqttcomm.cpp:63-88 | packets of all kinds and lengths byte for byte, one the example of section 2.2.3 of MQTT 3.1.1 |
| Mqtt.PartIsIncomplete | src/mqttcomm.cpp:155-194 | part of a packet is recognized as such |
| Mqtt.AnyCutDeliversThePackets | src/mqttcomm.cpp:155-227 | a stream of well-formed packets cut anywhere: exactly those are handled, in order, and the incomplete one is kept |
| Mqtt.UnknownPacketLosesWhatFollows | src/mqttcomm.cpp:195-197 | a stream where the cut decides what is lost |
| Mqtt.MqttComm.FinishMsg | src/mqttcomm.cpp:63-88 | the do-while loop writes the length field, in four bytes at most |
| Mqtt.MqttComm.IntLen | src/mqttcomm.cpp:135-152 | the length, or a result that the caller takes for incomplete, whatever byte lies beyond the input |
| Mqtt.MqttComm.HandleFirstMsg | src/mqttcomm.cpp:155-202 | the first packet is handled, counted and dropped, or nothing happens |
| Mqtt.MqttComm.Deliver | src/mqttcomm.cpp:214-227 | new bytes: all complete packets are handled and the rest is kept |
| Mqtt.MqttComm.Publish | src/mqttcomm.cpp:244-268 | the message parses as the publication of topic, payload and suffix if and only if the topic is shorter than 65536 bytes |
| PdAddresses.CheckAddressConflict | pd/o2pd.c:426-455 | identical, a prefix by whole nodes, or no match |
| PdAddresses.ConflictFreeIff | pd/o2pd.c:420-490 | handlers are free of conflicts if and only if no path is covered by two of them |
| PdAddresses.ExtractService | pd/o2pd.c:205-219 | the first node, at most 63 characters |
| PdAddresses.PathHasService | pd/o2pd.c:175-189 | the first node is this service |
| PdAddresses.HasServiceIff | pd/o2pd.c:175-219 | a path has the service of another if and only if the names are the same and not cut short |
| PdAddresses.ReaddressedKeepsConflictFree | pd/o2pd.c:238-377 | no change of address makes two active handlers clash |
| PdAddresses.OthersKeepListening | pd/o2pd.c:321-377 | a change of address disturbs no other receiver |
| PdAddresses.DisableThenBangRestoresIff | pd/o2receive.c:155-205 | to disable a receiver and enable it again, its service being created if need be, changes nothing if and only if its service is not freed or was there under the name that is freed |
| PdAddresses.ServiceOfferedIff | pd/o2pd.c:351-374 | INV_7, for whole service names, is kept by a change of address if and only if the service of the new address is neither overlooked nor cut short |
| PdAddresses.ServiceNeededIff | pd/o2pd.c:351-374 | INV_8, that every service created and not freed is in use, is kept by a change of address if and only if no service is created under a name that was cut short |
| PdAddresses.DisabledKeepsNeeded | pd/o2pd.c:385-396 | and always when a receiver is disabled |
| PdAddresses.ListensIff | pd/o2pd.c:238-377 | exactly when a receiver listens to its new address afterwards |
| PdAddresses.FreedKeepsOthers | pd/o2pd.c:351-368 | no other receiver loses its service when one is freed |
| PdAddresses.FitsIff | pd/o2pd.c:205-219 | a service name is cut short if and only if it has 63 characters or more |
| PdAddresses.ServiceIsOverlooked | pd/o2pd.c:351-374 | two receivers for which it is, and INV_7 is broken |
| PdAddresses.LongServiceIsCutShort | pd/o2pd.c:238-291 | the first receiver of a service with a name of 63 characters, after which INV_7 and INV_8 are broken |
| PdDirectory.Directory.HandlersAreWhatReceiversUse | pd/o2pd.c:57-70 | the handlers installed are exactly what active receivers listen to, free of conflicts |
| PdDirectory.Directory.CreateAddressNode | pd/o2pd.c:84-98 | a new node in front |
| PdDirectory.Directory.AddToAddress | pd/o2pd.c:104-109 | node and receiver know each other |
| PdDirectory.Directory.RemoveFromAddress | pd/o2pd.c:115-126 | and no longer do |
| PdDirectory.Directory.RemoveAddressNode | pd/o2pd.c:132-160 | the node is gone and its receivers are detached |
| PdDirectory.Directory.RemoveAll | pd/o2pd.c:166-171 | nobody listens, while the handlers are left to o2_finish |
| PdDirectory.Directory.CheckForService | pd/o2pd.c:193-201 | whether any active handler has the service |
| PdDirectory.Directory.CheckForConflict | pd/o2pd.c:466-490 | a clash with any active handler, or the one handler to share |
| PdDirectory.Directory.AddReceive | pd/o2pd.c:238-291 | the receiver joins, unless there is a clash or no service; INV_1 to INV_6 are kept; the assertion at pd/o2pd.c:248 fails if and only if there is a clash and a service is said to exist |
| PdDirectory.Directory.LastIff | pd/o2pd.c:351-352 | an empty list means that nobody else listens to the same address |
| PdDirectory.Directory.Leave | pd/o2pd.c:347-370 | the receiver leaves; handler and service go when they are no longer used |
| PdDirectory.Directory.Update | pd/o2pd.c:321-377 | what every receiver listens to afterwards, and the services; INV_1 to INV_6 are kept and INV_3 restored; a NULL path is looked at if and only if the receiver has neither address nor path, and the assertion at pd/o2pd.c:248 fails if and only if the last user of a handler whose service is kept moves to a path that clashes |
| PdDirectory.Directory.RemoveReceive | pd/o2pd.c:385-396 | the receiver is detached and keeps its path and types |
| PdDirectory.Directory.New | pd/o2receive.c:213-235 | a receiver that is not active |
| PdDirectory.Directory.Address | pd/o2receive.c:79-152 | an address message, with the same two ways to fail |
| PdDirectory.Directory.Types | pd/o2receive.c:164-191 | a types message, refused for an inactive receiver |
| PdDirectory.Directory.Disable | pd/o2receive.c:194-205 | a disable message |

## Left out

- TimingWheel.Wheel.Dispatch: rounding of `double` times is not modelled; times are real numbers and a bin is floor(100 t), as it is for t ≥ 0.
- LockFreeStack.Linearizable: holds under the condition `Awake`, that no pop sleeps through a whole cycle of the counter, which is 2^64 wide in the program; the converse is about pops that install a stale successor, in `RunKeepsInvIff`.
- Allocator.Allocator.Malloc: requests near 2^64, where the rounding wraps, are not modelled.
- Allocator.Allocator.constructor: only the default without a first chunk; sentinels, `o2_mem_finish` and the 32-bit layout are not part of this model.
- Allocator.Allocator.PopList: free lists are sequences here; their interleavings are the subject of LockFreeStack.
- HashTable.HashTable.Insert: `num_children` is only bounded from below, as `table_resize` does not reset it; deletion of subtrees with their entries is not part of this model.
- Transport.Link.Send: the blocking connect, UDP, raw and custom reading are not part of this model; an orderly shutdown by the peer is not distinguished from silence.
- Transport.Link.CheckLength: a corrupt length with its top bit set, which the program reads as negative, cannot occur here, since all bytes come from a sender.
- SocketTable.Sockets.Delete: what else an owner does when it is removed.
- MessageReader.Extractor.GetNext: which number a conversion gives, arrays and vectors; reading beyond a malformed message gives zeros here.
- MessageBuilder.Builder.Finish: vectors, and the nesting of bundles beyond the embedding of messages.
- MessageSwap.SwapsToTheOtherOrder: bundles and vectors; sizes of blobs are unsigned here, and a negative one, which takes the program back in the message, is taken for one that is too large.  The messages of `NextIsSpoiled` have none, wherever a size is read.
- MessageSwapPadding.EveryMessageOfTheseLengthsIff: when a blob follows a blob with padding, whether all contents of the same lengths come out right depends on the size of each blob; `EveryMessageIsSwappedIff` is the exact condition when only types and padding are given.
- Delivery.Context.RunHandler: a handler is what it sends and schedules with the global scheduler; pattern matching that finds several handlers counts as one, and handlers that add or remove services are not modelled.
- Delivery.Context.ProxySend: what a proxy does with a message it was given, errors of sockets included.
- Delivery.Context.DispatchFirst: one step; the loops of the dispatcher are the subject of TimingWheel.
- Delivery.Context.NewMessage: addresses of freed blocks are not used again.
- DeliveryNetwork.Run: messages that UDP duplicates, and services that move between processes while the network runs.
- Discovery.Process.DiscoveredName: hubs and replies, discovery through MQTT, failure to connect, processes that leave; names stand for their place in the order of strcmp.
- GlobalClock.ClockVariables.SetClock: `o2_clock_jump`, and jump callbacks beyond whether they handled the jump.
- ClockSync.Synchronizer.PingReply: drift of the clocks while a ping is under way.
- Mqtt.MqttComm.Deliver: needs at least one byte; warnings about missing acknowledgements count one acknowledgement in the program and are not part of this model. A publication whose topic exceeds its length, where the program reads beyond the packet, is the event `Overrun`.
- PdDirectory.Directory.AddReceive: what a failing assertion does to the program; the state is that of a build without assertions.
- PdDirectory.Directory.Address: parsing of Pd arguments.
- Service priorities, the path tree and pattern matching, bridges, zeroconf, properties and status, shared memory and web sockets.
- The o2lite codec, OSC conversion, and the SHA-1 and STUN helpers.
