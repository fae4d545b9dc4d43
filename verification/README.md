# A verified model of the messaging engine

This project models the lock-free shared-memory messaging engine of cpp-ipc in
Dafny and proves what its protocols keep on every run. It covers the five
producer/consumer rings of `src/libipc/prod_cons.h` and the protocols around
them: fragmentation and large-message storage, the reader-writer lock, the
intrusive stack, the waiter, and the life of a receiver's connection.

## How it is modelled

Each protocol is a state machine over the shared fields and a program counter per
thread. One transition is one atomic load, store or compare-and-swap, or the copy
of one byte; a block copy is a set of byte copies in any order, so that a copy may
race with a writer and be torn. Weak compare-and-swaps may fail for no reason.
History variables record the messages in index order, what each pop handed out
and who is responsible for a slot. An inductive invariant is proved over every
step of every thread, and the theorems hold in every state of every run.

Beside each state machine, the `*_code.dfy` files hold the operations themselves
as methods with the loops of the source over a class with the shared fields. Before every
access the other threads take any number of steps: the method `Others` (or
`LetReceiversRun`, `LetConsumerRun`, ...) stands for them. Its body does nothing,
but callers know only its contract, and a lemma shows that every sequence of
foreign steps keeps to that contract. The object always carries a state `st` that
some run reaches: its constructor makes the initial one, and each access is one of
the transitions, so the invariant is at hand at every access. A retry loop ends because `credit`, the number of foreign
steps and spurious failures still to come during the call, goes down. When
`credit` has not changed over a call, nobody interfered, and the contracts say
what the call then does exactly. What a call returns is accounted for with
interference too: a refusal rests on what the caller's own last loads found.

| file | what it models |
|---|---|
| `basics.dfy`, `ring.dfy`, `runs.dfy` | 32-bit words, slots, bytes, copies in any byte order, runs of a transition system |
| `multi_unicast.dfy`, `multi_unicast_code.dfy` | many producers, many consumers, each message to one consumer |
| `single_multi_unicast.dfy`, `single_multi_unicast_code.dfy` | one producer, many consumers |
| `spsc.dfy`, `spsc_code.dfy` | one producer, one consumer, 32-bit counters that wrap |
| `channel.dfy`, `channel_code.dfy` | many producers, every receiver gets every message |
| `channel_words.dfy` | the same ring with the 32-bit index and the 64-bit flags that it really compares |
| `route.dfy`, `route_code.dfy` | one producer, receivers that join and leave |
| `route_sure.dfy`, `route_alone.dfy` | exactly which receivers of that ring are sure of their messages |
| `route_overwrite.dfy` | a run of it in which a late joiner loses a message |
| `packed_words.dfy` | the packed words of the broadcast rings as bit vectors |
| `fragments.dfy` | send and recv: large messages in chunks, others cut in blocks |
| `chunk_storage.dfy`, `chunk_payload.dfy`, `chunk_runs.dfy`, `chunk_code.dfy` | ids, layout, content and reclamation of large-message chunks, and all of them together |
| `queue.dfy` | connecting and disconnecting a receiver |
| `rw_lock.dfy`, `rw_lock_code.dfy` | the writer-preferring spin lock |
| `treiber_stack.dfy`, `treiber_stack_code.dfy` | the intrusive stack |
| `waiter.dfy`, `wait_for.dfy` | waiting, waking, and waiting with a predicate that pushes |

## Where the code does less than one would expect

Each of these is proved, with the exact condition and, where it takes a run to
see it, with the run.

- A spurious failure of the self-swap of `epoch_` in the channel's push
  (`src/libipc/prod_cons.h:353`) gives away a slot that `rc_` already marks as
  claimed. `Channel.OneFailureOrphansASlot` is a run of one push that does so, and
  from then on no push over the same receivers is accepted:
  `Channel.OrphanWedgesTheChannel`. With nobody in flight a push's tests pass if
  and only if the slot of `ct_` is not left with a mask and no commit, and everyone
  has finished index `ct - N` (`Channel.QuietPushTests`). Safety holds in spite of
  it.
- The channel's last reader stores `cur + N - 1` as a 64-bit sum of a 32-bit
  cursor (`src/libipc/prod_cons.h:418` and `:424`), but push compares it with the
  wrapped 32-bit `ct_`. The two differ exactly for indices 2^32 - 256 to 2^32 - 2
  (`PackedWords.FreeFlagSurvivesUnlessItWraps`). Up to 2^32 messages the words
  compare as the indices do (`ChannelWords.WordStepAgrees`); after that the
  channel accepts none, however far its receivers have read, as long as no push
  holds an index that it loaded before (`ChannelWords.FullForGood`).
- The reassembly cache may drop a message under way. When all fragments have come,
  every message has come back intact if and only if no message of several
  fragments started more than 8192 ids away from one under way while more than
  1024 were: `Fragments.AllComeBackIffClose`. Otherwise some message does not:
  `Fragments.CollectionTruncatesAMessage` is a family of streams on which
  collection drops message 0, of which recv then hands out the tail.
- A message of 2^31 bytes or more is not given its size back by the receiver:
  `ChunkLayout.SizeIsRecovered`.
- The stack is right as long as a node is pushed only while it is not on the
  stack, no other push has it and no pop under way has seen it; it may have been
  pushed and popped before. Without that care a step keeps the chain in order if
  and only if what it stores agrees with what it finds
  (`TreiberStack.StepKeepsChainIff`, `TreiberStack.RunKeepsChainIff`), and one
  push of a node that a paused pop has seen is enough to put a node that was
  handed out back on top (`TreiberStack.ReuseBreaksTheStack`).
- `wait_for` returns true after `quit_` although nothing was pushed
  (`WaitFor.QuitEndsWithoutPush`): `WaitFor.PushedExactlyOnce` says exactly when.
- A receiver of the route ring that joins while a push is under way may be given a
  later message in place of the one at its cursor:
  `RouteOverwrite.LateJoinerIsOverwritten`. `RouteSure.SureIff` says exactly when a
  receiver between two pops is sure of all its messages whatever the others go on
  to do, wherever the writer is: if and only if every claimed slot from its cursor
  on names it, or a slot that the writer comes to before it has gone round holds
  its bit, left by a receiver that has gone, and stops the writer for good; and if
  the writer has loaded the connections without its bit, it cannot claim a slot
  with them or is stopped right after. `RouteSure.JoinIsSureIff` is
  the case of a receiver that has just joined, and `RouteSure.PublishedIsSureIff`
  that of a message just published at its cursor: it is then sure if and only if
  some slot's mask holds its bit.

## Model

| member | source | states |
|---|---|---|
| MultiUnicast.DeliveredInClaimOrder | src/libipc/prod_cons.h:119-192 | in every reachable state rd <= wt <= ct <= rd + N - 1, and the blocks returned so far are the claimed messages up to rd: none twice, none skipped, in claim order |
| MultiUnicast.RunInv | src/libipc/prod_cons.h:119-192 | the invariant over every interleaving: window, stored data, commit flags, owners, every thread's knowledge |
| MultiUnicast.PopReturnsTheClaimedMessage | src/libipc/prod_cons.h:183-188 | the consumer whose swap moves rd_ from i returns the very message of the producer whose swap moved ct_ from i, and it does so later |
| MultiUnicast.StageStep | src/libipc/prod_cons.h:128-151 | no step takes an index back or over a stage of unclaimed, written, flagged, advancing, passed, taken |
| MultiUnicast.StagesInOrder | src/libipc/prod_cons.h:128-151 | over whole runs an index never returns to a stage it left, so it is claimed, flagged, cleared and taken at most once |
| MultiUnicast.FlagAtWt | src/libipc/prod_cons.h:138-147 | whoever finds flag ~w with w <= wt finds w == wt, committed and not yet passed |
| MultiUnicast.NothingIsStranded | src/libipc/prod_cons.h:135-152 | each index in [wt, ct) is in exactly one of three conditions: being written by one thread, flagged, or wt itself with exactly one thread about to store wt + 1 |
| MultiUnicast.QuietPopSucceeds | src/libipc/prod_cons.h:164-192 | with rd < ct and nobody else in flight a pop that runs alone cannot report empty or spin: one step after its rank, at the latest, it has returned log[rd] |
| MultiUnicast.LonePopReturns | src/libipc/prod_cons.h:164-192 | there is such a lone run from every such state, and it ends with log[rd] |
| MultiUnicast.QuietCall | src/libipc/prod_cons.h:164-192 | any idle state with rd < ct meets the premise, with rank at most size + 8 |
| MultiUnicastCode.Fifo.PushMsg | src/libipc/prod_cons.h:119-154 | push claims an index exactly when it returns true: the message is then at an index that was unclaimed when it began, its flag has been raised, and it is not left flagged with wt standing at it; it is refused only by its own last loads of ct and rd, whatever the others do: the ring is full at the last one, or the index it loaded has been claimed and taken since; undisturbed it is refused if and only if the ring was full |
| MultiUnicastCode.Fifo.AdvanceWt | src/libipc/prod_cons.h:137-152 | the helping loop of push takes nothing back and never leaves its own index flagged with wt standing at it, whatever the others do; undisturbed, starting with wt at its own index, it leaves nothing committed at wt |
| MultiUnicastCode.Fifo.PopMsg | src/libipc/prod_cons.h:162-192 | pop takes an index exactly when it returns true, and hands out that index's message byte for byte although it copied before its swap; "empty" means that its own last loads found rd and wt in one slot and no flag to help with, whatever the others do: rd had caught up with wt, or another consumer has taken the loaded index since; undisturbed there was nothing to take and nothing to help with |
| MultiUnicastCode.OthersKeepTheirContract | src/libipc/prod_cons.h:119-192 | any sequence of other threads' steps keeps what Fifo.Others promises: nothing is taken back, no index to an earlier stage |
| Channel.RunInv | src/libipc/prod_cons.h:329-432 | the invariant over every interleaving of push-only runs: where each slot stands, its mask, flag and data, and who works on it |
| Channel.EveryReceiverGetsEveryMessage | src/libipc/prod_cons.h:405-432 | what each receiver was given is exactly the first pos messages in index order, and it is at most N behind |
| Channel.SlotLifeCycle | src/libipc/prod_cons.h:351-362 | a slot changes only from free(i) to claimed(i) to committed(i) to draining(i) to free(i + N), or from claimed to orphaned |
| Channel.OneProducerOwnsAnIndex | src/libipc/prod_cons.h:351-359 | between the rc_ swap and the store of ct_ there is at most one producer, and it holds index ct |
| Channel.KeptUntilRead | src/libipc/prod_cons.h:337-349 | from its commit until a receiver has finished it, a message stays in its slot |
| Channel.FlagTellsFree | src/libipc/prod_cons.h:344-350 | an empty mask with flag ct or zero means the slot is free for exactly index ct |
| Channel.InHandBit | src/libipc/prod_cons.h:413-425 | while a receiver has a message in hand its own bit is set, it alone may be draining, and the slot still holds the message |
| Channel.QuietPushTests | src/libipc/prod_cons.h:341-349 | with nobody in flight a push's tests pass if and only if the slot of ct is not left with a mask and no commit, and every receiver has finished index ct - N |
| Channel.OrphanIsSeen | src/libipc/prod_cons.h:351-357 | with nobody in flight the slot of ct was given away if and only if it has a mask and no commit flag |
| Channel.QuietPopTest | src/libipc/prod_cons.h:408-411 | with nobody in flight a receiver sees a message if and only if it is behind |
| Channel.OneFailureOrphansASlot | src/libipc/prod_cons.h:351-357 | there is a run of one push whose rc_ swap succeeds and whose epoch_ swap fails, after which slot 0 is orphaned |
| Channel.OrphanWedgesTheChannel | src/libipc/prod_cons.h:351-355 | once the slot at ct is orphaned, ct_ and the log never change again |
| Channel.OrphanOnlyBySpuriousSwap | src/libipc/prod_cons.h:353 | in push-only runs, where the epoch never changes, a slot is orphaned only by a failure of the epoch_ swap |
| ChannelCode.Chan.PushMsg | src/libipc/prod_cons.h:329-364 | push publishes an index exactly when it returns true, at an index not given out before; it is refused only by its own last loads, whatever the others do: no receiver, or the slot of an index that was ct_ during the call is still owed to a receiver or not free for it; undisturbed the tests failed as it began |
| ChannelCode.Chan.PopMsg | src/libipc/prod_cons.h:405-432 | pop moves the cursor by one and hands out exactly the cursor's message, appended to what the receiver got, exactly when it returns true; a message committed at the cursor as it begins is handed out whatever the others do, and "empty" means the commit flag is not there |
| ChannelCode.OthersKeepTheirContract | src/libipc/prod_cons.h:329-432 | any sequence of other threads' steps keeps what Chan.Others promises: nothing is taken back, and a message committed at a receiver's cursor stays so |
| ChannelWords.WordStepAgrees | src/libipc/prod_cons.h:345-348 | while fewer than 2^32 messages have been published, comparing the 32-bit index with the 64-bit flag goes as comparing indices does, in every reachable state |
| ChannelWords.FullForGood | src/libipc/prod_cons.h:345-348 | once 2^32 messages are published and no push holds an older index, no message is ever published again, whatever is read |
| Route.RunInv | src/libipc/prod_cons.h:218-290 | the invariant over every interleaving of one writer with receivers that join, read and leave at any step, in the middle of a pop too |
| Route.GuardedReadsTheLog | src/libipc/prod_cons.h:272-290 | a receiver that every slot from its cursor on waits for stays so while it is connected, and is given exactly the messages from its cursor on |
| Route.GuardedIffNamed | src/libipc/prod_cons.h:225-238 | unless the writer holds a list of connections, a receiver that was not lapped is guarded if and only if every claimed slot from its cursor on holds its bit |
| Route.GuardedAtPublishIff | src/libipc/prod_cons.h:232-239 | at the publication of the index at its cursor a receiver is guarded if and only if the slot's mask names it, whatever happened to it before |
| Route.NamedAtCursorReadsOn | src/libipc/prod_cons.h:218-290 | a receiver at cursor i whose bit is in the mask as i is published is given exactly the messages from i on for as long as it is connected |
| Route.GuardedIsNear | src/libipc/prod_cons.h:222-229 | a guarded receiver's cursor is between wt - N and wt |
| RouteSure.SureIff | src/libipc/prod_cons.h:218-290 | a receiver between two pops that was not lapped is given exactly the messages from its cursor on in every continuation in which it stays connected, if and only if the masks, the cursors and the writer's locals meet the condition Secure |
| RouteSure.JoinIsSureIff | src/libipc/queue.h:83-84 | that condition for a receiver with its cursor at the write index, for each place the writer may be at |
| RouteSure.PublishedIsSureIff | src/libipc/prod_cons.h:224-239 | after the publication of the message at its cursor a receiver is sure if and only if some slot's mask holds its bit |
| RouteSure.SafeReadsOn | src/libipc/prod_cons.h:218-290 | a receiver that is guarded, or with the writer stopped behind a bit nobody clears, or with a push under way that cannot succeed, stays so and is given exactly the messages |
| RouteSure.InsecureLoses | src/libipc/prod_cons.h:218-290 | from any state that does not meet the condition there is a continuation in which the receiver stays connected and is given a block that is not its message |
| RouteOverwrite.LateJoinerIsOverwritten | src/libipc/queue.h:83-84 | there is a run in which a receiver stands at cursor 0 as message 0 is published, stays connected, and is given another message in its place |
| Route.ShieldedSlotHoldsItsMessage | src/libipc/prod_cons.h:225-238 | once index i is published with a receiver in its mask the slot holds message i |
| Route.ShieldLastsUntilGivenUp | src/libipc/prod_cons.h:224-234 | that lasts until the receiver clears its own bit or leaves, whoever else joins, leaves or publishes |
| Route.ShieldedPopIsExact | src/libipc/prod_cons.h:274-286 | a pop of i that ends while the slot waits for the receiver returns message i |
| Route.ClaimFindsNoShield | src/libipc/prod_cons.h:226-234 | the slot a writer claims is one nobody is waiting for |
| Route.FixedReceiversReadEverything | src/libipc/prod_cons.h:272-290 | over a fixed set every receiver's deliveries are a prefix of the log and it is at most N behind |
| Route.PushRefusedIffFull | src/libipc/prod_cons.h:225-229 | over a fixed set a push that reads rc_ is refused if and only if some receiver has not finished index wt - N |
| RouteCode.Broadcast.PushMsg | src/libipc/prod_cons.h:218-241 | the log grows by exactly the message when push returns true and not at all otherwise; it is refused only if its last load of cc_ finds nobody connected, or somebody whom the slot at wt names now, as it did when the call began, whatever the receivers do; undisturbed the test failed as it began |
| RouteCode.Broadcast.PopMsg | src/libipc/prod_cons.h:272-290 | pop returns false only at a cursor that nothing was published beyond; when true the cursor moves by one, and a guarded receiver gets exactly the cursor's message and stays guarded |
| RouteCode.OthersKeepTheContract | src/libipc/prod_cons.h:218-290 | any sequence of steps not by receiver r keeps what Broadcast.LetOthersRun promises |
| RouteCode.ReceiversKeepTheContract | src/libipc/prod_cons.h:272-290 | any sequence of receivers' steps keeps what Broadcast.LetReceiversRun promises: the log stays, and the slot at wt only loses bits |
| SingleMultiUnicast.EachMessageTakenOnceInOrder | src/libipc/prod_cons.h:86-102 | what successful pops returned is the log up to rd: once each, in order, untorn |
| SingleMultiUnicast.WinnerHoldsAnUntornCopy | src/libipc/prod_cons.h:95-99 | the consumer whose swap on rd_ succeeds holds the exact message although it copied first |
| SingleMultiUnicastCode.Queue.PushMsg | src/libipc/prod_cons.h:41-49 | the log grows by exactly the message when push returns true; it is refused only if the ring was full as it began |
| SingleMultiUnicastCode.Queue.PopMsg | src/libipc/prod_cons.h:84-107 | pop takes an index exactly when it returns true and hands out its message; "empty" means that the ring is empty at its last load, or that another consumer has taken the index it loaded, whatever the others do; undisturbed it was empty as it began |
| SingleMultiUnicastCode.OthersKeepTheContract | src/libipc/prod_cons.h:84-107 | any sequence of steps not by consumer t keeps what Queue.LetOthersRun promises |
| SpscRing.WrapKeepsTheSlot | src/libipc/prod_cons.h:42-47 | wrapping a counter at 2^32 changes neither its slot nor those of its neighbours |
| SpscRing.RefinesBoundedFifo | src/libipc/prod_cons.h:40-71 | across wraps (wt - rd) mod 2^32 is the length of a FIFO of capacity N - 1, and pops return its oldest entries in order |
| SpscRing.NeverInTheSameSlot | src/libipc/prod_cons.h:46-67 | writer and reader never touch the same slot at once |
| SpscRing.RefusedIffFull | src/libipc/prod_cons.h:43-45 | a push is refused if and only if the queue is full as rd_ is loaded |
| SpscRing.NothingIffEmpty | src/libipc/prod_cons.h:63-65 | a pop finds nothing if and only if the queue is empty as wt_ is loaded |
| SpscCode.Queue.PushMsg | src/libipc/prod_cons.h:40-50 | the queue grows by exactly the message when push returns true and not at all otherwise; refused only if full as it began |
| SpscCode.Queue.PopMsg | src/libipc/prod_cons.h:61-71 | pop hands out the oldest message byte for byte exactly when it returns true; false only if empty as it began |
| PackedWords.ClaimFields | src/libipc/prod_cons.h:351-352 | the word push and force_push store raises bits 32..55 by one and sets exactly the given epoch and readers |
| PackedWords.ClearFields | src/libipc/prod_cons.h:421-426 | the word pop stores raises bits 32..55 by one, keeps the epoch and removes exactly the reader |
| PackedWords.SnapshotMatchesOnlyAfterAFullCycle | src/libipc/prod_cons.h:321-327 | after k updates the counter reads what a snapshot read if and only if 2^24 divides k, so a swap can succeed on a stale snapshot only then |
| PackedWords.CommitFlagsAreDistinct | src/libipc/prod_cons.h:136-147 | a complemented 32-bit index is never zero, never a plain index or one plus a ring length, and names one index |
| PackedWords.FreeFlagSurvivesUnlessItWraps | src/libipc/prod_cons.h:345-348 | the flag a last reader leaves lets the slot's next push through if and only if the 64-bit sum agrees with the wrapped index |
| PackedWords.ConnectFailsOnlyWhenFull | src/libipc/circ/elem_def.h:61-66 | connect finds no place if and only if all 32 bits are taken |
| PackedWords.ConnectAddsAFreshBit | src/libipc/circ/elem_def.h:62-68 | the id was not connected before, and is the only addition |
| PackedWords.ConnectAddsOneBit | src/libipc/circ/elem_def.h:62-68 | the id has at most one bit |
| PackedWords.ConnectTakesTheLowest | src/libipc/circ/elem_def.h:62-68 | every bit below the id was taken |
| Queue.Elems.ConnectReceiver | src/libipc/circ/elem_def.h:59-71 | however others connect and disconnect meanwhile, the lowest bit free at the swap is added, or none when all are taken at the load |
| Queue.Elems.DisconnectReceiver | src/libipc/circ/elem_def.h:73-75 | the given bits are cleared, undisturbed nothing else, and what is left is returned |
| Queue.Handle.Connect | src/libipc/queue.h:76-85 | a second connect changes nothing; a first takes the lowest bit free at some moment of the call and then loads a cursor between the write index before and after, and fails if and only if all bits were taken at that moment, whatever the others do |
| Queue.Handle.Disconnect | src/libipc/queue.h:88-94 | gives the own bit back, undisturbed exactly that; not connected, it returns false and has no bit |
| Queue.ConnectThenDisconnect | src/libipc/queue.h:159-170 | leaving undoes joining: the handle has no bit, and undisturbed the connections are what they were |
| Fragments.Send | src/libipc/ipc.cpp:560-588 | a message over 64 bytes that finds a chunk is stored there and sent as one; of any other, the fragments that fit are pushed; send succeeds if and only if the message is not empty and all fit |
| Fragments.Receiver.Recv | src/libipc/ipc.cpp:642-737 | one call pops, skips own messages, lends chunks and reassembles as the specification Drain does: cache, queue and result |
| Fragments.SkippedAreInvisible | src/libipc/ipc.cpp:655-701 | own messages, and large ones with a negative chunk id, make no difference to recv: with or without them in the queue it leaves the same cache, returns the same, and leaves the same other messages |
| Fragments.MalformedEndsTheCall | src/libipc/ipc.cpp:658-663 | a message of no size from somebody else ends the call with nothing, with the cache untouched and what follows left in the queue |
| Fragments.LargeMessageIsLent | src/libipc/ipc.cpp:659-701 | recv turns the one message of a large send into a buffer over the named chunk, of the size sent, and leaves reassembly alone; what the chunk holds is in ChunkRuns |
| Fragments.Receiver.Collect | src/libipc/ipc.cpp:708-718 | with more than 1024 entries collection drops exactly those whose ids differ by more than 8192, otherwise none |
| Fragments.Assembly.AppendInPlace | src/libipc/ipc.cpp:104-109 | the buffer is filled in place to what Append yields, never beyond its size |
| Fragments.EachMessageComesBackOnce | src/libipc/ipc.cpp:703-735 | for any interleaving of complete in-order fragments each message is handed out exactly once, intact, and only when all its fragments have come |
| Fragments.ReturnedAtItsLastFragment | src/libipc/ipc.cpp:724-732 | recv yields a buffer if and only if the fragment is the last of its message, and the buffer is that message |
| Fragments.CacheIsExact | src/libipc/ipc.cpp:703-735 | the cache is always exactly the part received of each message under way |
| Fragments.CacheIsExactIffClose | src/libipc/ipc.cpp:708-735 | the cache has been exact all along if and only if no message started too far from one under way while more than 1024 were |
| Fragments.AllComeBackIffClose | src/libipc/ipc.cpp:708-735 | when all fragments of all messages have come, each has come back intact exactly once if and only if the interleaving was close in that sense |
| Fragments.LostStays | src/libipc/ipc.cpp:703-735 | a message that collection dropped never comes back intact, and its last fragment yields a buffer that is too short |
| Fragments.CollectionTruncatesAMessage | src/libipc/ipc.cpp:709-720 | with 1025 to 8192 messages under way, the start of one more than 8192 ids away drops message 0, and its last fragment comes back as a message of its own |
| Fragments.AcceptInOrder | src/libipc/ipc.cpp:655-735 | what one in-order fragment does to cache and result |
| Fragments.RecvWalksTheStream | src/libipc/ipc.cpp:642-736 | successive calls of recv walk along the stream of fragments, each stopping at the first that yields something |
| Fragments.DroppedMessageComesBackTruncated | src/libipc/ipc.cpp:703-735 | the fragments of a message after the first n, received with nothing cached, come back as its tail: the message if and only if n is 0 |
| Fragments.CacheStaysBounded | src/libipc/ipc.cpp:709-721 | whatever fragments arrive, the cache holds at most 16385 entries and none is filled beyond its buffer |
| Fragments.CollectionSparesTheNear | src/libipc/ipc.cpp:709-718 | no fragment changes the entry of another message whose id differs by at most 8192, nor any entry while at most 1024 are cached |
| Fragments.CollectionDropsTheFar | src/libipc/ipc.cpp:708-721 | the start of a message of several fragments keeps another entry if and only if at most 1024 are cached or the ids differ by at most 8192 |
| IdPool.IdPool.Prepare | src/libipc/utility/id_pool.h:56-65 | the first call strings all ids together; later calls change nothing |
| IdPool.IdPool.Acquire | src/libipc/utility/id_pool.h:76-81 | hands out a free id, which is then not free, or -1 exactly when none is |
| IdPool.IdPool.Release | src/libipc/utility/id_pool.h:83-88 | puts the id back in front of the free ids |
| ChunkLayout.ChunkHoldsTheMessage | src/libipc/ipc.cpp:177-184 | a chunk holds its mask and the message, is aligned, and wastes less than one unit |
| ChunkLayout.ChunksAreDisjoint | src/libipc/ipc.cpp:197-213 | masks and payloads of different ids do not overlap and lie inside the mapped chunks |
| ChunkLayout.SizeIsRecovered | src/libipc/ipc.cpp:565-566 | the receiver computes the sent size, and hence the same chunk size, if and only if the message has less than 2^31 bytes |
| ChunkPayload.LentBufferIsTheMessage | src/libipc/ipc.cpp:278-305 | what a receiver reads in the chunk it works out is the message, whatever is stored in another chunk of that size meanwhile |
| ChunkRuns.LentIsWhatWasSent | src/libipc/ipc.cpp:560-571 | in every reachable state of the pool, the senders and the receivers, a lent buffer reads the message it was sent for |
| ChunkRuns.LentUntilRecycled | src/libipc/ipc.cpp:670-695 | over any run of sends and recycles, a lent buffer keeps its message until its receiver recycles it |
| ChunkReclaim.NeverReusedWhileReferredTo | src/libipc/ipc.cpp:278-293 | over any number of lifetimes, each with its own mask, an id is released once for each time it is acquired, and nobody refers to its chunk while it can be acquired |
| ChunkReclaim.OnlyTheLastReleases | src/libipc/ipc.cpp:327-360 | sub_rc tells a receiver to release the id if and only if no other receiver refers to the chunk |
| ChunkReclaim.SentIsHeldOrReleased | src/libipc/ipc.cpp:327-360 | in every reachable state a chunk that has been sent is referred to by somebody, or else exactly one receiver is about to release it |
| ChunkCode.ChunkRef.SubRc | src/libipc/ipc.cpp:328-338 | however the others come and go, sub_rc takes out the caller's bit and no other, and returns true if and only if nobody then refers to the chunk; a caller that is the only one left as it begins is told to release |
| ChunkCode.OthersKeepTheirContract | src/libipc/ipc.cpp:328-338 | any sequence of steps that leave receiver r where it is keeps what ChunkRef.Others promises |
| RwLock.ExactAndExclusive | include/libipc/rw_lock.h:134-169 | lc_ is always the writer's flag plus the exact number of readers inside; a writer inside is alone |
| RwLock.NoReaderPassesAWriter | include/libipc/rw_lock.h:152-164 | from a writer's flag to its unlock no reader gets in and the flag stays the writer's |
| RwLock.UnlockErasesNoReader | include/libipc/rw_lock.h:148-150 | the store of 0 finds the flag alone in the word |
| RwLockCode.Lock.Acquire | include/libipc/rw_lock.h:134-146 | a caller let in is alone inside and the word is the bare flag; one still waiting has looked patience + 1 times since it last had to and found another writer's flag, or readers, each time; undisturbed it gets in if and only if the word was 0 |
| RwLockCode.Lock.AcquireShared | include/libipc/rw_lock.h:152-165 | a caller let in is counted and no writer has the flag; one still waiting has found a writer's flag patience + 1 times, the last time it looked included; undisturbed it gets in if and only if no writer had it |
| RwLockCode.Lock.Release | include/libipc/rw_lock.h:148-150 | nobody is left inside and the word is 0 |
| RwLockCode.Lock.ReleaseShared | include/libipc/rw_lock.h:167-169 | the caller is out of the count and the count stays exact |
| RwLockCode.OthersKeepTheirContract | include/libipc/rw_lock.h:134-169 | any sequence of other threads' steps keeps what Lock.Others promises |
| TreiberStack.ReachableIsAcyclic | include/libipc/concur/intrusive_stack.h:44-62 | with usable nodes only, reuse included, the chain from top_ visits exactly the abstract stack, no node is on it twice, and each node has been handed out as often as it was pushed, less one if stacked |
| TreiberStack.PushedOncePoppedOnce | include/libipc/concur/intrusive_stack.h:44-62 | if no node was linked in twice, none was handed out twice and none handed out is still linked |
| TreiberStack.FreshIsUsable | include/libipc/concur/intrusive_stack.h:44-49 | a node that no push was called with is usable, so pushing each node at most once is one case of the guard |
| TreiberStack.StepKeepsChainIff | include/libipc/concur/intrusive_stack.h:44-62 | with any nodes, a step keeps the chain in order if and only if a stacked node gets the link it has, a push links to the top, and a pop installs the top's current successor |
| TreiberStack.RunKeepsChainIff | include/libipc/concur/intrusive_stack.h:44-62 | over a run with any nodes the chain is in order throughout if and only if every step was harmless in that sense |
| TreiberStack.StackedNodeBreaksTheChain | include/libipc/concur/intrusive_stack.h:46-48 | a push of a node that is on the stack breaks the chain as it stores the link, if the top is still the one it has loaded |
| TreiberStack.EachStepIsOneStackOperation | include/libipc/concur/intrusive_stack.h:44-62 | each successful swap is one abstract push or pop of the LIFO, every other step none |
| TreiberStack.PopUnlinks | include/libipc/concur/intrusive_stack.h:51-62 | a pop's swap succeeds only on the current top with its current successor, though both were read earlier |
| TreiberStack.NullOnlyWhenEmpty | include/libipc/concur/intrusive_stack.h:53-56 | pop returns nullptr only when the stack is empty at that moment |
| TreiberStack.ReuseBreaksTheStack | include/libipc/concur/intrusive_stack.h:57-59 | there is a run, careful up to one push of a node that a paused pop has seen, that puts a handed-out node back on top |
| TreiberStackCode.Stack.PushNode | include/libipc/concur/intrusive_stack.h:44-49 | a usable node, new or reused, is linked in exactly once; undisturbed it is the new top |
| TreiberStackCode.Stack.PopNode | include/libipc/concur/intrusive_stack.h:51-62 | pop takes one node exactly when it returns one, which is off the stack; it returns null only if the stack is empty at its last load, whatever the others do; undisturbed the node was the top |
| TreiberStackCode.OthersKeepTheirContract | include/libipc/concur/intrusive_stack.h:44-62 | any sequence of other threads' steps keeps what Stack.Others promises |
| Waiter.NoLostWakeup | src/libipc/waiter.h:64-93 | while a thread sleeps although quit_ is set or its predicate would let it go, somebody is between that change and its broadcast |
| Waiter.QuietSleepersAreBlocked | src/libipc/waiter.h:83-93 | with no broadcast under way, whoever sleeps has reason to |
| WaitFor.WaitIf | src/libipc/waiter.h:65-74 | wait_if evaluates quit_, the predicate and the condition variable exactly as the specification Rounds does |
| WaitFor.WaitFor | src/libipc/ipc.cpp:378-391 | without a timeout there is one evaluation; otherwise the first false evaluation ends the call with true, the 33rd true one turns to wait_if, whose result is returned, and the trace is exactly that |
| WaitFor.AtMostOnePush | src/libipc/ipc.cpp:378-391 | a predicate that pushes is never evaluated again after it has, so there is at most one push |
| WaitFor.PushedExactlyOnce | src/libipc/ipc.cpp:615-622 | false means nothing was pushed; true means pushed exactly once if and only if the last thing seen was not quit_ |
| WaitFor.QuitEndsWithoutPush | src/libipc/waiter.h:67-73 | a wait that finds quit_ set returns true without a push |

## Left out

- Shared-memory mapping, naming and reference counting, and the platform mutex, condition variable and semaphore: an abstract mutex and set of sleepers stand for them.
- Weak memory orders: every access is sequentially consistent; a raced copy is one in which each byte may come from a different moment.
- Delivery after `force_push`, and `clear_message`: the API is lossy there. The runs are push-only; of `force_push` only its update of the packed word is modelled.
- Receivers that join or leave the channel: its receiver set is fixed in `Channel` and `ChannelCode`. The route ring has them.
- Counters of every ring but the one-producer, one-consumer one are unbounded, and so is the update counter in `Channel`. What 32 and 24 bits change is stated in `PackedWords` and `ChannelWords`.
- ChannelWords.FullForGood: does not cover a push that loaded the index before it wrapped and has not tried its swap since; the pops compare indices there.
- RouteSure.SureIff: for messages of at least one byte, and for a receiver that the writer has not lapped; while the writer is not between pushes it asks for one index more of distance, since that push's message is chosen already.
- RwLockCode.Lock.Acquire: a caller that has yielded a given number of times is reported as still waiting, because spinning ends only if the others let it. AcquireShared is the same.
- MultiUnicastCode.Fifo.PushMsg: with interference a refusal is what its own loads showed, which were made at different moments; the ring need not have been full at any one of them. The same holds for PopMsg there, for the consumers of SingleMultiUnicastCode and for ChannelCode.Chan.PushMsg.
- TreiberStackCode.Stack.PushNode: asks for a usable node; what other nodes do is StepKeepsChainIff and ReuseBreaksTheStack.
- Fragments.Send: the pushes of one message are a number of successes before the first failure, and what acquire_storage hands out is a parameter; the pool, the layout and the reclamation of chunks are in `IdPool`, `ChunkLayout` and `ChunkReclaim`.
- ChunkReclaim.OnlyTheLastReleases: the connection mask does not change within one lifetime of the id, from send until the last buffer is destroyed.
- ChunkReclaim.NeverReusedWhileReferredTo: does not say that every id comes back: a failed push after acquire, or a message to self, keeps it.
- Fragments.Receiver.Recv: recv with a timeout of zero over a queue of messages; waiting is in `WaitFor`, reconnecting is left out, and the shared memory of a chunk is always there.
- Queue.Handle.Connect: nobody else clears a handle's bit, so there is no force_push; the null checks on the element array are left out.
- Waiter.NoLostWakeup: `wait_if` and `broadcast` are transitions there; the loop of `wait_if` as code is WaitFor.WaitIf. `notify` is left out.
- WaitFor.WaitFor: takes its answers from a script; when the script ends the call is still waiting.
- Progress beyond QuietPopSucceeds and the exact tests for quiet states: no fairness is assumed.
- The unicast overloads of `sub_rc` and of connect/disconnect, `shut_sending` and the sender flag, `chan_wrapper`, `buffer`, `spin_lock`, logging, allocators, formatting utilities, demos and vendored code: little state of their own.
