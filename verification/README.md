# Verified models of skynet's cores

This project models, in Dafny 4.11, the parts of skynet whose correctness is not visible from any single
function body, and proves what they are for. It needs nothing but Dafny: `dafny verify dfyconfig.toml`
checks all of it. `Wrappers` and `Filters` are shared by several models.

| core | files | what is proved |
|---|---|---|
| timer | `Bits`, `PlainTimer`, `TimingWheel`, `Timer` | the hierarchical wheel with lazy cascading refines a plain pool of timers; over every run each timer fires exactly once, at its expiry, in insertion order |
| ring buffer and stream reader | `Bytes`, `Arena`, `Layout`, `Streams`, `RingBuffer`, `Eviction`, `Connections`, `Mread` | blocks tile the arena and never overlap, chains stand for byte strings, an allocation succeeds and a connection is evicted under exactly stated conditions, and each connection is handed exactly the bytes that recv delivered to it |
| scheduler and queues | `Queues`, `Scheduler`, `History`, `Progress`, `Circular`, `MessageQueue` | over every interleaving: one scheduling token per queue, one worker per service, no lost wakeup unless init failed, messages in order and none lost, no queue touched after it was freed; what each function achieves when it runs to its end, and that one worker runs every message |
| descriptor map | `Chains`, `FdMap` | the coalesced hash table with displacement is a finite map |
| serializer | `LuaValues`, `LuaStream`, `Doubles`, `WireFormat`, `RoundTrip`, `Blocks`, `LuaSeri` | block-chained packing followed by unpacking is the identity exactly on a stated set of values, and which values pack at all |
| group membership | `Merging`, `Multicast` | the in-place merge and filter computes the right set, sorted |
| handle registry | `Slots`, `Names`, `Handles` | the growing slot table is a map from handles to contexts, the name table a sorted map from names |

Loops that change arrays and fields in the source are methods on classes here, each proved against a
specification; the specification's own properties are lemmas. A class keeps its abstract value in a
function of its fields (`Contents`, `View`, `Text`, `Members`, `Table`, `Live`) or in ghost fields that its
invariant ties to the arrays (`pending` and `log` of the wheel, `contexts` of the registry, `conns` of the
stream reader, which records per connection everything recv ever delivered). The scheduler, whose
subject is interleaving, is a transition system whose steps are the locked sections and atomic updates.

What comes from outside is a parameter: the bytes of each recv and the readiness of sockets, the result of a
service's init function, the wall clock, the set of live contexts while a group is combined. C integers are
mathematical integers; where their width decides what happens (`compar_uint`, `wb_integer`, the header words
of the arena) storing in 32 bits is written out.

## What the proofs found

- lua-seri.c: a table with exactly 31 array items does not come back. The writer stores the count in the
  type byte up to 31 (line 271 tests `> MAX_COOKIE-1`), the reader takes 31 for "the count follows" (line
  462). If the first item is no number the stream is then invalid; if it is the number 30, that item is lost
  without an error. Integers from 32 to 63 bits are truncated by `wb_integer`; larger ones, like fractions,
  are written as doubles and come back. `RoundTrip.RoundTripIff` states that of what packs nothing else comes
  back changed.
- lua-seri.c: a table as the value of an entry outside the array part does not pack. `_pack_one` leaves the
  nil that it found in `__remote` on the Lua stack (lines 359-367 pop it for remote objects only), so the one
  slot popped after the value (line 304) does not bring the key back to the top, where `lua_next` looks for
  it. `{a = {}}` ends in "invalid key to 'next'" (`LuaValues.EmptyTableAsValue`); with `{a = {{}}}` a nil is on
  top, and the traversal starts over for ever (`LuaValues.TableInTableAsValue`). Tables as items of an array
  part pack. `LuaValues.PacksIff` says exactly what packs.
- skynet_server.c: after a failed init nobody pushes the new queue, but `in_global` stays set, so nobody ever
  will: a message sent to the service meanwhile is never run, never dropped, and the queue is never freed
  (`Scheduler.FailedIsStranded`, `Scheduler.FailedForEver`, with a run in `Scheduler.MessageStranded`).
- skynet_server.c: `skynet_context_new` uses the context after giving up its own reference (lines 90-92 and
  97-98). `Scheduler.ContextTouchedAfterFreeIff` says exactly when that memory is already freed, and
  `Scheduler.CreatorTouchesFreedContext` and `Scheduler.FailedCreatorTouchesFreedContext` are runs in which
  it is.
- skynet_server.c: `skynet_context_new` registers the handle before it sets `ctx->queue` (lines 82-83).
  `Scheduler.MissingQueueMetIff` says exactly when somebody uses the pointer in between; only senders can,
  as in `Scheduler.SenderMeetsNoQueue`.
- skynet_mq.c: `_drop_queue` asserts `msg.sz == 0` for multicast messages, but a message is recognised as
  multicast by the top byte of the same word, so the assertion fails for every one of them
  (`MessageQueue.ServiceQueue.DropQueue`).
- skynet_handle.c: `_insert_name_before` reads `name[-1]` when the new name is the smallest and the table has
  room, as it is for the very first name (`Handles.FirstNameStrays`); the value is overwritten before anybody
  sees it (`Handles.Storage.NameHandle` says when). Handles wrap at 2^24; `Handles.Storage.Register` says
  exactly when a handle may be one that was given out before, or handle 0 of the harbor.
- skynet_handle.c: `skynet_handle_retire` reads through a NULL pointer exactly when the slot of the handle is
  empty (`Handles.Storage.Retire`), and KILL passes on any handle (skynet_server.c lines 385-395).
- skynet_multicast.c: `compar_uint` tells the order of two handles exactly when their difference fits an int
  (`Merging.ComparOrdersIff`), so the queues of a group are sorted, in whatever order they were filled, exactly
  when any two of their handles are less than 2^31 apart (`Merging.SortsEveryOrderIff`; that other queues are
  sorted wrongly in some order is shown of the insertion sort that stands for `qsort` there, since C leaves
  open what `qsort` does under a comparison that is no order). Queues with handles of
  one harbor, or of 128 consecutive harbors, are such (`Merging.HarborsNear`); but service_multicast.c
  (lines 20-35) takes any handle other than 0.
- mread.c: `mread_poll` takes an event for a connection that was evicted and recycled since the event was
  fetched, and marks its unused slot as readable, as if a client had been accepted there. `Mread.Pool.Poll`
  says exactly when, and that all other connections stay as they are; `Mread.Pool.StaleEvent` is such a case.
- Comments in skynet_timer.c describe level i of the wheel as covering delays in fixed intervals; the code
  places a timer by comparing the masked bits of its expiry with those of the clock, and the model follows
  the code.

## Model

| member | source | states |
|---|---|---|
| PlainTimer.ExactFiring | 20120904/skynet-src/skynet_timer.c:128-208 | over every sequence of adds and ticks, the log is the schedule of what was added: a timer added at clock t with delay d fires in the tick that begins at t + d and in no other, in insertion order among equal expiries; the rest is pending |
| PlainTimer.FiresExactlyOnce | 20120904/skynet-src/skynet_timer.c:128-208 | fired and pending timers together are exactly the added ones, each fired on time, ticks never going back |
| PlainTimer.EqualExpiryInInsertionOrder | 20120904/skynet-src/skynet_timer.c:65-70 | of the timers with one expiry, those fired are all that were added, in the order they were added, whatever the clock was at each add |
| TimingWheel.LevelIsUnique | 20120904/skynet-src/skynet_timer.c:101-118 | a timer is in a list of level l exactly when its expiry and the clock are in different blocks there and in the same block one level up |
| TimingWheel.SlotOf | 20120904/skynet-src/skynet_timer.c:88-118 | the list of a timer is a function of expiry and clock alone and always exists: the `- 1` index is in 0..62 |
| TimingWheel.NothingBelow | 20120904/skynet-src/skynet_timer.c:191-206 | just before a cascading tick no pending timer is below the cascaded level, so one cascade per tick suffices |
| TimingWheel.EnteredBlockMoves | 20120904/skynet-src/skynet_timer.c:191-201 | the timers of the block being entered are in the cascaded list before the tick and below it after |
| TimingWheel.OtherBlocksStay | 20120904/skynet-src/skynet_timer.c:191-206 | a cascading tick changes the list of no other timer |
| TimingWheel.NoBoundaryNoMove | 20120904/skynet-src/skynet_timer.c:191 | away from a near boundary no timer changes its list |
| TimingWheel.CurrentListIsDue | 20120904/skynet-src/skynet_timer.c:149-170 | the near list of the current tick holds exactly the due timers, in insertion order |
| TimingWheel.OtherListsRemain | 20120904/skynet-src/skynet_timer.c:149-170 | delivering them leaves every other list as it was |
| TimingWheel.CascadeRestoresLists | 20120904/skynet-src/skynet_timer.c:191-206 | re-adding the cascaded list, and nothing else, makes every list right for the new clock, order included |
| SkynetTimer.Timer.constructor | 20120904/skynet-src/skynet_timer.c:213-235 | an empty wheel at clock 0 that satisfies the invariant |
| SkynetTimer.Timer.AddNode | 20120904/skynet-src/skynet_timer.c:65-120 | masking and shifting finds the list of the placement function; the node joins at its tail and no other list changes |
| SkynetTimer.Timer.TimerAdd | 20120904/skynet-src/skynet_timer.c:128-140 | the wheel does what the plain timer does on an add |
| SkynetTimer.Timer.Timeout | 20120904/skynet-src/skynet_timer.c:240-260 | a zero delay is answered at once, any other is an add; the session is returned, or -1 if the answer could not be pushed |
| SkynetTimer.Timer.Deliver | 20120904/skynet-src/skynet_timer.c:149-170 | the loop hands out one near list front to back and empties it |
| SkynetTimer.Timer.CascadeBoundary | 20120904/skynet-src/skynet_timer.c:174-206 | after the clock advanced, the search and one cascade put every list right again |
| SkynetTimer.Timer.TimerExecute | 20120904/skynet-src/skynet_timer.c:145-208 | the wheel does what the plain timer does on a tick, and fires exactly the timers whose expiry is the current clock, in insertion order |
| PlainTimer.BetweenInOrder | 20120904/skynet-src/skynet_timer.c:277-289 | the timers of a stretch of ticks: exactly those that expire in it, by expiry, each expiry in insertion order |
| PlainTimer.TickManyMeetsExpectation | 20120904/skynet-src/skynet_timer.c:277-289 | d ticks lead from the state after t ticks to the state after t + d |
| SkynetTimer.Timer.UpdateTime | 20120904/skynet-src/skynet_timer.c:278-289 | advancing d ticks runs exactly d ticks and fires exactly the timers, of all ever added, that expire in [T, T + d), by expiry and then insertion |
| SkynetTimer.Timer.WheelFiresExactly | 20120904/skynet-src/skynet_timer.c:75-208 | every reachable wheel has fired exactly the schedule of its adds, and holds every pending timer in the list of its expiry and clock |
| SkynetTimer.TopLevelIndex | 20120904/skynet-src/skynet_timer.c:191-206 | the search for a list to cascade ends at level 3 at the latest |
| FdMap.Map.constructor | src_code/gate/map.c:24-40 | an empty map whose size is the first power of two above max |
| FdMap.Map.Search | src_code/gate/map.c:52-62 | the id of the key, or -1 if the key is absent |
| FdMap.Map.Insert | src_code/gate/map.c:75-130 | the finite map gains the key; a key squatting in the new main slot is displaced, at most once, and exactly when it hashes elsewhere |
| FdMap.Map.Predecessor | src_code/gate/map.c:94-101 | the walk from the main slot of a squatter ends at the node that links to it |
| FdMap.Map.TakeOver | src_code/gate/map.c:94-110 | the squatter leaves its chain, the new key heads its own, all other chains stand |
| FdMap.Map.Probe | src_code/gate/map.c:116-129 | the probe visits every slot, so it finds the first free one whenever there is one |
| FdMap.Map.Erase | src_code/gate/map.c:133-173 | the finite map loses the key and nothing else, wherever on its chain it was |
| FdMap.RoomIff | src_code/gate/map.c:116-129 | there is a free slot exactly when the map holds fewer keys than slots, so assert(0) is reached only on a full table |
| Chains.ChainExistsIff | src_code/gate/map.c:85-93 | a chain for main slot h exists exactly when slot h holds a key whose main slot is h; no other slot heads a chain |
| Chains.Displace | src_code/gate/map.c:99-110 | bypassing a squatter keeps every chain acyclic, disjoint and complete |
| Chains.LinkAfterHead | src_code/gate/map.c:119-127 | linking a node behind the head keeps every chain acyclic, disjoint and complete |
| Chains.EraseHead | src_code/gate/map.c:142-149 | moving the second node into the main slot keeps every chain acyclic, disjoint and complete |
| Chains.EraseInner | src_code/gate/map.c:161-167 | bypassing an inner node keeps every chain acyclic, disjoint and complete |
| RingBuffer.Ringbuffer.constructor | win_skynet/win_skynet/win_skynet/mread-master/ringbuffer.c:38-47 | one free block covers the arena |
| RingBuffer.Ringbuffer.BlockNext | win_skynet/win_skynet/win_skynet/mread-master/ringbuffer.c:27-36 | the next block, or NULL for the block that ends at the end of the arena |
| RingBuffer.Ringbuffer.Scan | win_skynet/win_skynet/win_skynet/mread-master/ringbuffer.c:89-102 | the free run at head that is long enough, or the block in use that stops it, or the end of the arena |
| RingBuffer.Ringbuffer.Carve | win_skynet/win_skynet/win_skynet/mread-master/ringbuffer.c:63-84 | the block is cut off the front of the run and head put behind it, block and rest tile the run, and no block in use changes header, bytes or place |
| RingBuffer.Ringbuffer.Rewind | win_skynet/win_skynet/win_skynet/mread-master/ringbuffer.c:102 | moving head to 0 over free blocks keeps the circular order of the blocks in use |
| RingBuffer.Ringbuffer.Alloc | win_skynet/win_skynet/win_skynet/mread-master/ringbuffer.c:86-105 | it succeeds exactly if the bytes from head to the first block in use at or behind it, or to the end, suffice or, with no block in use behind head, those from the start do; the block is put there, fresh, and head behind it; everything in use is unchanged |
| RingBuffer.Ringbuffer.LastId | win_skynet/win_skynet/win_skynet/mread-master/ringbuffer.c:107-120 | the owner of the oldest block in use, or -1 |
| RingBuffer.Ringbuffer.Collect | win_skynet/win_skynet/win_skynet/mread-master/ringbuffer.c:122-133 | exactly the blocks of that owner are given up; all others keep their place, bytes and order |
| RingBuffer.Ringbuffer.Shrink | win_skynet/win_skynet/win_skynet/mread-master/ringbuffer.c:135-154 | size 0 undoes the allocation; otherwise the block keeps its first bytes, and the rest is free again, with head at its start; everything in use unchanged |
| RingBuffer.Ringbuffer.Link | win_skynet/win_skynet/win_skynet/mread-master/ringbuffer.c:54-61 | the block becomes the last of the chain, under its owner, and the youngest in order if it is new |
| RingBuffer.Ringbuffer.Free | win_skynet/win_skynet/win_skynet/mread-master/ringbuffer.c:164-175 | exactly the blocks of the chain are given up |
| RingBuffer.Ringbuffer.Data | win_skynet/win_skynet/win_skynet/mread-master/ringbuffer.c:177-207 | min(size, bytes available after skip), and a pointer exactly when the bytes lie in one block, and then to those bytes |
| RingBuffer.Ringbuffer.Gather | win_skynet/win_skynet/win_skynet/mread-master/ringbuffer.c:187-195 | the counting loop over the following blocks stops at size or at the end of the chain |
| RingBuffer.Ringbuffer.Copy | win_skynet/win_skynet/win_skynet/mread-master/ringbuffer.c:209-239 | the target block gets exactly the slice after skip, across however many blocks, and the owner of the chain |
| RingBuffer.Ringbuffer.Yield | win_skynet/win_skynet/win_skynet/mread-master/ringbuffer.c:241-258 | what is left of the chain stands for exactly the text with skip bytes dropped; exactly the blocks used up are given up, so the chain left starts with bytes to hand out |
| Layout.CarveKeepsLive | win_skynet/win_skynet/win_skynet/mread-master/ringbuffer.c:63-84 | carving leaves the blocks in use and their order alone, and the new block is the last before head |
| Layout.NewestJoins | win_skynet/win_skynet/win_skynet/mread-master/ringbuffer.c:63-84 | the newest block, once owned, is the last in allocation order |
| Layout.RewindKeepsOrder | win_skynet/win_skynet/win_skynet/mread-master/ringbuffer.c:102 | the order of the blocks in use survives moving head back to 0 |
| Layout.TilesApart | win_skynet/win_skynet/win_skynet/mread-master/ringbuffer.c:27-36 | two blocks of the tiling never overlap |
| Layout.UndoNewest | win_skynet/win_skynet/win_skynet/mread-master/ringbuffer.c:137-140 | head may be moved back onto the newest block while nobody owns it |
| Layout.RunIsRoom | win_skynet/win_skynet/win_skynet/mread-master/ringbuffer.c:92-99 | a run of free blocks from head that is long enough is room between the blocks in use |
| Layout.BlockedNoRoom | win_skynet/win_skynet/win_skynet/mread-master/ringbuffer.c:92-95 | a block in use met before that leaves none |
| Streams.TextAppend | win_skynet/win_skynet/win_skynet/mread-master/ringbuffer.c:54-61 | appending a block to a chain appends its bytes to the text of the chain |
| Streams.LinkPrepends | win_skynet/win_skynet/win_skynet/mread-master/mread.c:511-514 | linking an existing chain behind a single block gives the chain with that block in front |
| Mread.Pool.constructor | win_skynet/win_skynet/win_skynet/mread-master/mread.c:95-104 | every socket slot is unused; the arena has the size asked for, or the default, rounded up to four, and at least two read blocks |
| Mread.Pool.EvictOldest | win_skynet/win_skynet/win_skynet/mread-master/mread.c:452-456 | the connection owning the oldest block in use is closed and loses its blocks, nobody else; strictly fewer blocks are in use |
| Mread.Pool.CloseClient | win_skynet/win_skynet/win_skynet/mread-master/mread.c:376-394 | one socket is marked closed and counted |
| Mread.Pool.AllocEvicting | win_skynet/win_skynet/win_skynet/mread-master/mread.c:450-458 | the loop evicts the owner of the oldest data as long as there is no room, nobody if there is at entry, and nobody else; it ends with a block, or without one exactly if the active connection itself was evicted; all of it as a function of the state before |
| Mread.Pool.LosesDataIff | win_skynet/win_skynet/win_skynet/mread-master/mread.c:450-458 | the active connection is evicted exactly if there would be no room even with everybody gone who has older data |
| Eviction.EvictedIff | win_skynet/win_skynet/win_skynet/mread-master/ringbuffer.c:86-133 | the same of any arena with its blocks in allocation order, and any connection |
| Eviction.ArenaOrdered | win_skynet/win_skynet/win_skynet/mread-master/ringbuffer.c:107-120 | the blocks in use are in that order, reading circularly from head |
| Mread.Pool.RingbufferRead | win_skynet/win_skynet/win_skynet/mread-master/mread.c:405-416 | how many of the next unread bytes have arrived, and a pointer to them exactly when one block holds them |
| Mread.Pool.LinkNode | win_skynet/win_skynet/win_skynet/mread-master/mread.c:366-374 | the received bytes become the end of the stream of the active connection |
| Mread.Pool.CloseActive | win_skynet/win_skynet/win_skynet/mread-master/mread.c:396-403 | the active connection gives up its data and copies and is closed; no other changes |
| Mread.Pool.CopyOut | win_skynet/win_skynet/win_skynet/mread-master/mread.c:501-520 | bytes spanning blocks are gathered in a block of their own; NULL exactly if the active connection had to be evicted for it; who else is evicted is stated from the state before |
| Mread.Pool.Fetch | win_skynet/win_skynet/win_skynet/mread-master/mread.c:441-520 | one recv that is not interrupted: the connection is closed exactly at end of stream, on an error, or if it is evicted, which the state before decides; else EWOULDBLOCK leaves stream and chain as they were and the status SUSPEND, and what recv took is appended, the bytes asked for handed out exactly when they are all there, with status READ or SUSPEND |
| Mread.Pool.Receive | win_skynet/win_skynet/win_skynet/mread-master/mread.c:465-520 | the part after the allocation: what each outcome of recv does to the connection and who is evicted for the copy |
| Mread.PullGoesOn | win_skynet/win_skynet/win_skynet/mread-master/mread.c:441-520 | who is evicted by a pull, for the block of recv and then for the copy, is a function of the state before and of what recv brings |
| Mread.Pool.Pull | win_skynet/win_skynet/win_skynet/mread-master/mread.c:418-521 | a pointer returned is to exactly the bytes [consumed + skip, consumed + skip + size) of what recv delivered to the active connection; which connections are evicted, and when the active one is closed, is stated exactly from the state before; its status, what recv added, and whether NULL is returned are stated for every case |
| Mread.Pool.Yield | win_skynet/win_skynet/win_skynet/mread-master/mread.c:523-547 | consumed grows by exactly the bytes handed out, nothing received is lost, blocks used up and all copies are given up; a closed connection becomes an unused slot |
| Mread.Pool.Poll | win_skynet/win_skynet/win_skynet/mread-master/mread.c:319-359 | which events are taken, which clients accepted, and which slot becomes active, for every queue of events; an event whose slot is unused marks it as readable, and the streams of all other connections stay as they are; what was not yielded will be handed out again |
| Mread.OneMoreClient | win_skynet/win_skynet/win_skynet/mread-master/mread.c:338-350 | accepting clients one after the other changes exactly the slots they were given |
| Mread.Pool.StaleEvent | win_skynet/win_skynet/win_skynet/mread-master/mread.c:351-356 | such an event: after a closed connection was reported and yielded, an event left over for it marks its unused slot as readable; every other connection stays as it is |
| Mread.Pool.ReportClosed | win_skynet/win_skynet/win_skynet/mread-master/mread.c:306-317 | a closed connection is found whenever one is counted, so assert(0) is not reached |
| Mread.Pool.Accept | win_skynet/win_skynet/win_skynet/mread-master/mread.c:277-304 | an unused slot starts a connection with an empty stream |
| Mread.Pool.HandedStillThere | win_skynet/win_skynet/win_skynet/mread-master/mread.c:418-521 | every piece handed out since the last poll or yield is still in place, whatever was received, copied or evicted since |
| Connections.ReplaceConn | win_skynet/win_skynet/win_skynet/mread-master/mread.c:366-403 | changing the blocks of one connection keeps every other connection and its stream |
| Connections.HandedSurvives | win_skynet/win_skynet/win_skynet/mread-master/mread.c:450-458 | evicting somebody else does not disturb the pieces handed out |
| Scheduler.Reachable | 20120904/skynet-src/skynet_server.c:60-262 | the invariant holds in every reachable state of every interleaving of senders, workers, creators and killers, registration and creation of the queue being two steps |
| Scheduler.ActKeepsRefs | 20120904/skynet-src/skynet_server.c:112-134 | each atomic step keeps: the reference count is the handle table plus the threads that grabbed the context; at zero one thread marks the queue and then frees the context |
| Scheduler.ActKeepsToken | 20120904/skynet-src/skynet_mq.c:122-178 | each atomic step keeps: unless init failed, in_global says whether the token exists, and a non-empty queue has it |
| Scheduler.ActConserves | 20120904/skynet-src/skynet_mq.c:122-178 | no atomic step loses, duplicates or reorders a message |
| Scheduler.SchedulingToken | 20120904/skynet-src/skynet_mq.c:122-202 | in every reachable state, unless init failed, in_global is set exactly when the queue is once in the global queue or held by exactly one thread, and a queue with messages has in_global set: then no wakeup is lost |
| Scheduler.FailedIsStranded | 20120904/skynet-src/skynet_server.c:96-100 | after a failed init nobody has the token although in_global stays set: what is pushed to the service is neither run nor dropped, and its queue is never freed |
| Scheduler.FailedForEver | 20120904/skynet-src/skynet_server.c:96-100 | that stays so however the run goes on |
| Scheduler.MessageStranded | 20120904/skynet-src/skynet_server.c:87-100 | such a run: a message sent while the init function runs |
| Scheduler.OneWorkerAfterInit | 20120904/skynet-src/skynet_server.c:82-101 | at most one worker is inside a service, and only after init ended: the assertions in _dispatch_message and skynet_mq_force_push hold |
| Scheduler.MessageOrder | 20120904/skynet-src/skynet_server.c:142-262 | what a service remembers as pushed is what was run, then in flight, then dropped, then queued, in push order, whichever worker serves; only a dead service drops any |
| History.HistoryOf | 20120904/skynet-src/skynet_server.c:142-262 | what services remember as pushed, run and dropped is what the steps of the run did: the messages of senders that got to the queue, of callbacks that ended, of queues being dropped, in the order of the steps |
| History.RunOrder | 20120904/skynet-src/skynet_server.c:142-262 | read off the steps alone: the messages that got to the queue are those run, then in flight, then dropped, then queued, in the order in which their senders got there |
| History.AcceptedArrive | 20120904/skynet-src/skynet_server.c:142-152 | read off the steps alone: the messages of all sends that found the service registered are, with their numbers, those that got to the queue, those that met no queue, and those still on their way |
| Progress.Delivers | 20120904/skynet-src/skynet_server.c:142-152 | a send and its two steps queue the message behind the others, and the queue joins the global one exactly if it had no token; nothing else changes |
| Progress.RefusesMessage | 20120904/skynet-src/skynet_server.c:144-147 | to a service that is not registered nothing is sent |
| Progress.RunsMessage | 20120904/skynet-src/skynet_server.c:228-262 | a worker that takes the queue of a registered service stands in the callback with its first message after two steps, has run it after the third, and after two more the queue is back in the global one and the reference released; nothing else changes |
| Progress.FindsNothing | 20120904/skynet-src/skynet_server.c:244-248 | with no message the worker gives up the token and its reference; nothing else changes |
| Progress.PutsBack | 20120904/skynet-src/skynet_mq.c:238-252 | the queue of a retired service that is not marked yet goes back to the global one |
| Progress.DropsAll | 20120904/skynet-src/skynet_mq.c:214-252 | that of a marked one is emptied, its messages dropped in order, and freed |
| Progress.OneRound | 20120904/skynet-src/skynet_server.c:228-262 | from any state with no thread at work one worker handles the first queue of the global one, and all others stay as they are, in order |
| Progress.EverythingRuns | 20120904/skynet-src/skynet_server.c:228-262 | from any such reachable state one worker alone runs all messages of a registered service, in order, whatever else is queued |
| Progress.Launches | 20120904/skynet-src/skynet_server.c:60-95 | skynet_context_new with an init that succeeds ends with a registered, initialised service with one reference whose queue is in the global one |
| Progress.FailsToLaunch | 20120904/skynet-src/skynet_server.c:96-100 | with an init that fails it ends with the service retired and freed and its queue marked |
| Progress.RetiredDuringInit | 20120904/skynet-src/skynet_server.c:87-100 | a service retired while its init runs is deleted by its creator, who still hands on the queue if init succeeded |
| Progress.FailedIsRetired | 20120904/skynet-src/skynet_server.c:97-98 | after a failed init the creator takes the service out of the table, if nobody did before |
| Progress.Retires | 20120904/skynet-src/skynet_handle.c:74-101 | retiring takes the service out of the table and, if nobody holds a reference, marks its queue and frees it |
| Progress.LastOneDeletes | 20120904/skynet-src/skynet_server.c:117-134 | a sender or worker that gives up the last reference marks the queue and frees the service |
| Scheduler.QueueNotTouchedAfterFree | 20120904/skynet-src/skynet_mq.c:207-252 | no thread that holds the token or a reference, or is about to mark the queue, meets a freed queue; only a marked queue is dropped, by its token holder, and it is marked once |
| Scheduler.FreedAfterLastReference | 20120904/skynet-src/skynet_server.c:117-134 | a queue is marked, and a context or queue freed, only when the count is 0, the handle is retired and no thread holds a reference; a freed queue has no token |
| Scheduler.ContextTouchedAfterFreeIff | 20120904/skynet-src/skynet_server.c:89-99 | a thread is about to touch a freed context exactly when it is a creator that released its own reference, the handle has been retired, and nobody else holds a reference or is still deleting |
| Scheduler.CreatorTouchesFreedContext | 20120904/skynet-src/skynet_server.c:89-93 | such a run: the service is retired between the release in skynet_context_new and its ctx->init = 1 |
| Scheduler.FailedCreatorTouchesFreedContext | 20120904/skynet-src/skynet_server.c:96-98 | the same after a failed init: ctx->handle is read from freed memory |
| Scheduler.MissingQueueMetIff | 20120904/skynet-src/skynet_server.c:79-84 | a thread is about to use a queue pointer that is not set yet exactly when it is a sender and the creator stands between registering the handle and creating the queue |
| Scheduler.SenderMeetsNoQueue | 20120904/skynet-src/skynet_server.c:142-152 | such a run: a message is sent as soon as the handle is registered |
| Circular.Buffer.constructor | 20120904/skynet-src/skynet_mq.c:90-103 | an empty buffer of the given capacity |
| Circular.Buffer.Push | 20120904/skynet-src/skynet_mq.c:152-170 | the contents grow by the message at the end, through wraps and doublings; the buffer doubles exactly when the last empty slot is taken |
| Circular.Buffer.Grow | 20120904/skynet-src/skynet_mq.c:157-169 | copying into twice the space keeps the order from head |
| Circular.Buffer.Pop | 20120904/skynet-src/skynet_mq.c:127-133 | the oldest leaves, or the buffer is empty |
| MessageQueue.NewGlobalQueue | 20120904/skynet-src/skynet_mq.c:184-196 | the capacity is the smallest power of two, from 2 up, that is at least n |
| MessageQueue.ServiceQueue.constructor | 20120904/skynet-src/skynet_mq.c:89-104 | an empty queue with its token in the hands of the creator |
| MessageQueue.ServiceQueue.Pop | 20120904/skynet-src/skynet_mq.c:122-142 | the oldest message, or the token is given up exactly when there is none |
| MessageQueue.ServiceQueue.Push | 20120904/skynet-src/skynet_mq.c:147-178 | the message is queued, and the queue joins the global one exactly when it had no token |
| MessageQueue.ServiceQueue.ForcePush | 20120904/skynet-src/skynet_mq.c:198-202 | a queue that has its token joins the global queue |
| MessageQueue.ServiceQueue.MarkRelease | 20120904/skynet-src/skynet_mq.c:207-211 | a queue is marked once |
| MessageQueue.ServiceQueue.DropQueue | 20120904/skynet-src/skynet_mq.c:214-231 | every message is dropped, oldest first, exactly when none of them is a multicast message; otherwise the assertion fails on the first one that is, since its size word holds its type |
| MessageQueue.ServiceQueue.Release | 20120904/skynet-src/skynet_mq.c:238-252 | a marked queue is emptied and its messages counted, any other goes back on the global queue with its token |
| Blocks.WriteBlock.constructor | 20120904/lualib-src/lua-seri.c:78-84 | four bytes are kept free for the length |
| Blocks.WriteBlock.Push | 20120904/lualib-src/lua-seri.c:56-76 | the text grows by exactly the bytes pushed, however they fall across 128-byte blocks |
| Blocks.WriteBlock.Close | 20120904/lualib-src/lua-seri.c:100-107 | the chain carries its length in front of the payload |
| Blocks.Seri | 20120904/lualib-src/lua-seri.c:548-580 | the flat buffer is the payload, for every length, including those that end on a block boundary |
| LuaValues.PacksIff | 20120904/lualib-src/lua-seri.c:290-374 | packing succeeds exactly on values of supported types with strings below 64K, at most 32 tables around any value, and no table, at any depth, as the value of an entry outside an array part |
| LuaValues.ErrorJustified | 20120904/lualib-src/lua-seri.c:318-374 | each error is raised for what it says: too deep nesting, a string of 64K or more, an unsupported type, or a table as the value of an entry |
| LuaValues.LeftOnStack | 20120904/lualib-src/lua-seri.c:355-369 | packing leaves slots on the Lua stack exactly for a plain table, and they hold nothing but nils and tables |
| LuaValues.ScalarItemsFail | 20120904/lualib-src/lua-seri.c:293-304 | a table without tables among its items, as the value of an entry outside the array part, makes the next lua_next fail with an invalid key |
| LuaValues.EmptyTableAsValue | 20120904/lualib-src/lua-seri.c:302-304 | {a = {}} is such a value: packing it raises an error |
| LuaValues.TableInTableAsValue | 20120904/lualib-src/lua-seri.c:302-304 | with {a = {{}}} a nil comes to the top of the stack, so lua_next starts over and packing never ends |
| LuaStream.ParseNumber | 20120904/lualib-src/lua-seri.c:396-441 | an integer read fits an int, a double is the eight bytes in front |
| LuaStream.ParseItems | 20120904/lualib-src/lua-seri.c:472-475 | as many values as asked for are read, or the stream is invalid |
| WireFormat.IntForm | 20120904/lualib-src/lua-seri.c:207-231 | an integer takes the fewest bytes of the forms 0, 1, 2 and 4 that hold it as a C int, the cookie says how many, and they are its bytes |
| WireFormat.StringForm | 20120904/lualib-src/lua-seri.c:248-264 | a string below 32 bytes stands behind one byte 4 + 8 * length, any longer one behind the byte 5 and two bytes of length |
| WireFormat.FixedForm | 20120904/lualib-src/lua-seri.c:196-246 | type byte and bytes of every other scalar |
| WireFormat.TableForm | 20120904/lualib-src/lua-seri.c:268-316 | the first byte of a table and the order of its parts |
| WireFormat.EncodedSize | 20120904/lualib-src/lua-seri.c:196-316 | the size of what is written for a value, by its structure alone |
| WireFormat.ReadsIff | 20120904/lualib-src/lua-seri.c:396-546 | whatever the stream, reading a value that is no table succeeds exactly if its type and cookie are known and its bytes are all there; it takes exactly them and gives what they stand for |
| WireFormat.ReadsCount | 20120904/lualib-src/lua-seri.c:460-475 | a table read has as many items as its type byte or the number behind it says |
| Doubles.TruncatesToZero | 20120904/lualib-src/lua-seri.c:468 | that number, if it is a double, counts towards zero, and as INT_MIN if it does not fit |
| Doubles.HoldsIntegerIff | 20120904/lualib-src/lua-seri.c:330-336 | the test of _pack_one holds exactly of the doubles that are integers in the range of a lua_Integer |
| RoundTrip.IntAt | 20120904/lualib-src/lua-seri.c:207-231 | every form of integer reads back as the int it was stored in |
| RoundTrip.RemoteAt | 20120904/lualib-src/lua-seri.c:518-534 | a remote object reads back as one with its handle stored in an int |
| RoundTrip.ScalarParses | 20120904/lualib-src/lua-seri.c:196-264 | every scalar reads back as it was stored, and reading ends where writing did, whatever follows |
| RoundTrip.HeaderParses | 20120904/lualib-src/lua-seri.c:270-279 | except for 31 items, the reader learns from the header how many items follow |
| RoundTrip.SurvivorParses | 20120904/lualib-src/lua-seri.c:318-374 | the encoding of a value with int-sized integers and handles and no table of exactly 31 items reads back as that value, however its tables are nested |
| RoundTrip.OnlySurvivors | 20120904/lualib-src/lua-seri.c:461-485 | no other value reads back equal |
| RoundTrip.ThirtyOneNeverSurvives | 20120904/lualib-src/lua-seri.c:271-279 | a table with exactly 31 items, whatever they are, never reads back as it was: it is written without its size and read as if the size followed |
| RoundTrip.ThirtyOneFails | 20120904/lualib-src/lua-seri.c:461-485 | if the first of 31 items is no number, the stream is invalid |
| RoundTrip.ThirtyOneLosesItem | 20120904/lualib-src/lua-seri.c:461-485 | if the first of 31 items is 30, that item is lost and no error is reported |
| RoundTrip.RoundTripIff | 20120904/lualib-src/lua-seri.c:582-629 | for every list of values that packs, unpacking gives the list back exactly when every integral number and handle fits an int and no table, at any depth, has exactly 31 items |
| RoundTrip.ReadsBackIff | 20120904/lualib-src/lua-seri.c:461-546 | the same of the format: whatever list has an encoding, whether or not the packer gets to write it |
| LuaSeri.WriteInt | 20120904/lualib-src/lua-seri.c:207-231 | what is written is the encoding, under either type, of the number as a C int |
| LuaSeri.WriteString | 20120904/lualib-src/lua-seri.c:248-264 | short and long form of a string |
| LuaSeri.PackOne | 20120904/lualib-src/lua-seri.c:318-374 | what is written is the encoding of the value, what stays on the Lua stack is what Left says, and the error, if any, is the first one met |
| LuaSeri.PackTable | 20120904/lualib-src/lua-seri.c:309-316 | array part, then hash part: the encoding of the table and the slots its items leave, or the first error |
| LuaSeri.PackArray | 20120904/lualib-src/lua-seri.c:268-288 | the header and the items in order, each item leaving what it left less the one slot popped, or the first error |
| LuaSeri.PackHash | 20120904/lualib-src/lua-seri.c:290-307 | each entry outside the array part once, in traversal order, then nil, or the first error, one of lua_next included |
| LuaSeri.PackEntry | 20120904/lualib-src/lua-seri.c:302-304 | key and value; the traversal goes on exactly when the key is on top of the stack again, that is, unless the value is a table |
| LuaSeri.TraversalOutside | 20120904/lualib-src/lua-seri.c:293-301 | skipping the keys 1 to n of the traversal leaves the hash part, no more and no less |
| LuaSeri.Pack | 20120904/lualib-src/lua-seri.c:614-629 | the buffer holds the encodings of the values one after the other, or the first error of any kind is reported |
| LuaSeri.ReadBlock.Read | 20120904/lualib-src/lua-seri.c:131-142 | the next bytes, or nothing is read when fewer are left |
| LuaSeri.ReadBlock.GetInteger | 20120904/lualib-src/lua-seri.c:396-427 | the stepwise reader follows the grammar of integers |
| LuaSeri.ReadBlock.GetNumber | 20120904/lualib-src/lua-seri.c:429-441 | the stepwise reader follows the grammar of numbers |
| LuaSeri.ReadBlock.UnpackOne | 20120904/lualib-src/lua-seri.c:538-546 | the stepwise reader follows the grammar of values and advances past exactly what it read |
| LuaSeri.ReadBlock.PushValue | 20120904/lualib-src/lua-seri.c:487-536 | the case of each type byte, remote objects included |
| LuaSeri.ReadBlock.UnpackTable | 20120904/lualib-src/lua-seri.c:460-485 | size, items, then pairs up to a nil key |
| LuaSeri.Unpack | 20120904/lualib-src/lua-seri.c:582-612 | all values up to the end of the buffer, or an error |
| LuaSeri.PackUnpack | 20120904/lualib-src/lua-seri.c:582-629 | packing succeeds exactly on values of supported types nested at most 32 deep with no table as the value of an entry outside an array part, and what succeeds comes back equal exactly when it survives |
| Merging.ComparOrdersIff | 20120904/skynet-src/skynet_multicast.c:106-111 | compar_uint says of two handles what their order is exactly when their difference fits an int |
| Merging.ComparOrdersQueueIff | 20120904/skynet-src/skynet_multicast.c:106-111 | it does so for all handles of a queue exactly when any two are less than 2^31 apart |
| Merging.HarborsNear | 20120904/skynet-src/skynet_multicast.c:106-111 | the handles of one harbor are, and so are those of 128 consecutive harbors |
| Merging.SortsEveryOrderIff | 20120904/skynet-src/skynet_multicast.c:115-116 | sorting puts the queue in order, in whatever order it was filled, if any two handles are less than 2^31 apart, and, of the insertion sort that stands for qsort, only if they are |
| Merging.ComparIsNoOrder | 20120904/skynet-src/skynet_multicast.c:106-111 | among all unsigned ints it is not transitive |
| Merging.SortSorts | 20120904/skynet-src/skynet_multicast.c:115-116 | sorting such a queue by compar_uint gives an ascending permutation |
| Merging.MergeSkip | 20120904/skynet-src/skynet_multicast.c:131-145 | dropping an entrant seen before, not to be had, or a member already keeps the merge right |
| Merging.MergePlace | 20120904/skynet-src/skynet_multicast.c:136-148 | putting an entrant in front keeps the merge sorted and duplicate-free |
| Merging.MergeCopy | 20120904/skynet-src/skynet_multicast.c:150-160 | putting an old member in front, and forgetting `last`, keeps the merge sorted and duplicate-free |
| Merging.MergeEnd | 20120904/skynet-src/skynet_multicast.c:128-161 | the merged members are strictly sorted and are exactly the old ones and the entrants whose context was found |
| Merging.StrictUnique | 20120904/skynet-src/skynet_multicast.c:113-202 | a strictly sorted group is determined by who is in it |
| Merging.CombinedMembers | 20120904/skynet-src/skynet_multicast.c:164-202 | what the forward pass keeps of the merged members is exactly who should be in the group |
| Multicast.HandleArray.Push | 20120904/skynet-src/skynet_multicast.c:83-93 | the queue grows by the handle at the end; capacity 0, 4, then doublings |
| Multicast.Group.MergeEnter | 20120904/skynet-src/skynet_multicast.c:125-156 | the backward pass ends, never overwrites a member it has not read, and keeps members and merged part apart |
| Multicast.Group.MergeRest | 20120904/skynet-src/skynet_multicast.c:157-161 | the remaining old members join |
| Multicast.Group.Leave | 20120904/skynet-src/skynet_multicast.c:164-192 | the forward pass ends, never overwrites a member it has not read, and keeps exactly those that do not leave |
| Multicast.Group.LeaveRest | 20120904/skynet-src/skynet_multicast.c:193-197 | the members behind all leavers move up |
| Multicast.Group.CombineQueue | 20120904/skynet-src/skynet_multicast.c:113-202 | the group is strictly sorted and is the old members and the entrants whose context is live, without the leavers, for queues with duplicates; old members keep their contexts; the queues are empty |
| Slots.Composed | 20120904/skynet-src/skynet_handle.c:50-52 | a handle is its low bits plus its harbor, and its slot depends on the low bits only |
| Slots.HalfSlot | 20120904/skynet-src/skynet_handle.c:60-64 | the slot in a doubled table determines the slot before, so different slots stay different |
| Handles.SpreadStep | 20120904/skynet-src/skynet_handle.c:60-64 | the next context meets an empty slot in the doubled table |
| Slots.Visits | 20120904/skynet-src/skynet_handle.c:43-46 | probing as many consecutive handles as there are slots visits every slot |
| Handles.Storage.constructor | 20120904/skynet-src/skynet_handle.c:226-245 | an empty registry; the harbor is the low byte of its number, shifted above the handle bits |
| Handles.Storage.Grab | 20120904/skynet-src/skynet_handle.c:106-123 | the context registered as the handle and not retired since, its reference count one up, or NULL |
| Handles.Storage.Probe | 20120904/skynet-src/skynet_handle.c:43-46 | the first free slot from handle_index on, past taken ones only and wrapping at 2^24, unless every slot is taken |
| Handles.Storage.Rehash | 20120904/skynet-src/skynet_handle.c:57-64 | no two contexts meet in the doubled table |
| Handles.Storage.Double | 20120904/skynet-src/skynet_handle.c:57-67 | doubling keeps every registration and leaves free slots |
| Handles.Storage.Register | 20120904/skynet-src/skynet_handle.c:35-69 | the context is registered under a handle nobody has, the first from handle_index on whose slot is nobody's; it is above all earlier ones exactly while the search does not wrap at 2^24; the table doubles once, and exactly when it was full |
| Handles.Storage.Retire | 20120904/skynet-src/skynet_handle.c:74-101 | for every handle: the registration and exactly the names of that handle are gone, a handle not registered changes nothing, and the read through a NULL pointer happens exactly when its slot is empty |
| Handles.Storage.DropNames | 20120904/skynet-src/skynet_handle.c:84-95 | the compaction keeps exactly the names of other handles, in order |
| Names.StrcmpTransitive | 20120904/skynet-src/skynet_handle.c:139 | the order of strcmp is transitive |
| Names.StrcmpLexicographic | 20120904/skynet-src/skynet_handle.c:139 | that order is the lexicographic one: the first place where two names differ decides, and a name comes behind what it starts with |
| Names.SmallerSide | 20120904/skynet-src/skynet_handle.c:136-150 | a comparison with the middle of the sorted table settles one side |
| Names.InsertedSorted | 20120904/skynet-src/skynet_handle.c:158-181 | inserting a name where it belongs keeps the table strictly sorted |
| Handles.Storage.Search | 20120904/skynet-src/skynet_handle.c:185-198 | an entry of the name, or the one place where it belongs |
| Handles.Storage.FindName | 20120904/skynet-src/skynet_handle.c:128-156 | the handle of the name, or 0 |
| Handles.Storage.Shift | 20120904/skynet-src/skynet_handle.c:171-176 | the loop opens a gap at `before`, and reads the entry in front of the array exactly when `before` is 0 |
| Handles.Storage.InsertBefore | 20120904/skynet-src/skynet_handle.c:158-181 | the entry is inserted at its place, with or without growth |
| Handles.Storage.NameHandle | 20120904/skynet-src/skynet_handle.c:183-221 | a new name is added and a used one refused, all other names staying; the read in front of the array happens exactly when the new name is the smallest and the table has room |
| Handles.FirstNameStrays | 20120904/skynet-src/skynet_handle.c:171-176 | it happens for the very first name of a registry |

## Left out

- Foreign code: sockets, epoll and kqueue, ZeroMQ, dlopen, stdio, pthreads, clocks and the Lua C API.
- Width of the timer's clock: expiries stay below 2^31, as the C `int` wraps beyond; delays are not negative.
- Linked lists of the timer: a slot's list is a sequence, so `next` and `tail` pointers and the reuse of nodes are not modelled.
- The lock of the registry: `rwlock_wlock` lets two writers in, so registry operations are taken as atomic instead.
- Fairness: `Progress.EverythingRuns` starts where no thread is at work; that workers get to run at all is not stated. Reclamation as a liveness claim: a service retired while idle, or whose init failed, has its queue marked but nobody drops it.
- Scheduler.Act: a dropped multicast message does not stop the run there, although the assertion in `_drop_queue` does; `MessageQueue.ServiceQueue.DropQueue` has it. A service is named by a number that is never reused, while handles wrap at 2^24. A creator whose init failed finds the handle retired already without harm there; `skynet_handle_retire` reads through the empty slot (see `Handles.Storage.Retire`). A message sent before the queue is created goes nowhere; what is written through the pointer that is not set yet is not part of this model.
- Service callbacks: their effects are the sends, launches and retirements of other threads; a callback that returns "reserve", forwarding, and services without a callback are not told apart.
- MessageQueue.ServiceQueue.Push: the spin locks are not modelled; every method is one locked section.
- FdMap.Map.Insert: keys are not negative, an inserted key is absent, and a slot is free, since the source stops at assert(0) on a full table.
- Mread.Pool.Poll: file descriptors and the list of unused slots, so which unused slot a client is given is a parameter. After an event for an unused slot the source still has that slot on its list and a link of the list in place of its descriptor; that the slot is then given to a client, or that recv is called on that number, is not part of this model.
- Mread.Pool.Pull: clients are closed only from inside it, and the aligned size asked for is at most the arena; that data spanning two blocks in state READ waits for more input is stated as it is, without a claim that it is handed out eventually.
- Handles.Storage.Register: the context is not registered already, and a full table may still double, which the source asserts.
- Handles.Storage.Retire: what is read through the NULL pointer, and that the process ends there; what a context's release does at zero is in `Scheduler`.
- Merging.SortsEveryOrderIff: an insertion sort stands for `qsort`; the half about queues with handles 2^31 or more apart is about that sort only.
- Multicast.Group.CombineQueue: any two handles of a queue are less than 2^31 apart, and no context is live under handle 0, which stands for "none" there; which contexts are live does not change during the call; reference counts (an entrant that is grabbed twice or is a member already is never released) and error messages are not modelled.
- LuaStream.ParseOne: streams that lua-seri.c did not write are rejected where the source raises its error, and also where it reads a string beyond the end.
- LuaSeri.ReadBlock.PushValue: a remote object is its handle; its other fields, which are not written, its metatable and the table in which the reader finds one it made before are not part of this model, nor is a table with anything but a number in the field `__remote` (a string may pass for a number there, and any other value would be what is left on the stack).
- LuaValues.PacksIff: sizes stay within a C int, and the size of the Lua stack is not part of this model: each table in an array part leaves a slot there, and nothing calls `lua_checkstack`, so the source is entitled to LUA_MINSTACK slots only.
- RoundTrip.RoundTripIff: two tables are the same value if they have the same array part and the same other entries in the same order; whether a misread table could be the same Lua table in another layout is not considered.
- LuaValues.IsLua: no key of a table is a plain table (`_pack_one` would leave its nil between the key and the value, and the value would be packed wrongly); a table reports its items in order and the other entries after them; `lua_next` may interleave them.
- The chained-block mode of `rb_read` and of `wb_init`, which nothing uses.
- Memory allocation failure, and sizes beyond a C `int`.
- `_push_queue` in service_harbor.c, the gate, master, harbor, logger, env and module files, lua-int64, lua-remoteobj, lua-socket, the Lua services and clients: wiring without a property of its own, or copies of what is here.
- The older duplicates of timer, queue, handle, ring buffer and mread: the cited copies have some of their defects fixed.
