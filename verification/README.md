# AutoCache, modelled and verified in Dafny

AutoCache is a Redis-compatible sharded cache with clustering. This project models the parts of it that are
hard to get right and proves what they guarantee, over every input and every run:

| file | part of the system |
|---|---|
| `Ring.dfy` | the circular byte buffer: entry format, eviction, in-place update, the FIFO queue it stands for |
| `Shard.dfy` | the sharded cache over the rings, with inline counters and the slot index, as a lossy map |
| `SlotTable.dfy` | ownership of the 16384 slots, replicas, migration states, snapshots and restore |
| `Slots.dfy`, `KeySlot.dfy`, `SlotBitmap.dfy` | CRC16, hash tags, and the slot bitmap of gossip messages |
| `Cluster.dfy` | MOVED/ASK routing and the write gate, failover |
| `Gossip.dfy` | epoch-guarded ownership claims, and runs of gossip entries that make a node hear them |
| `Replication.dfy` | the bounded log, incremental resync, the write path, the duplicate-tolerant applier |
| `SlotMove.dfy` | the live move of a slot between two nodes, with failures at any command |
| `Decimal.dfy`, `Resp.dfy`, `ReplicationCodec.dfy` | number printing, RESP, the replication wire format |
| `TinyLfu.dfy`, `Rebalance.dfy`, `Scan.dfy`, `Paste.dfy` (with `Sorting.dfy`, `Options.dfy`) | frequency sketch, hot-slot rebalancing, cursor scans, pastes with read limits |

Objects that the system updates in place are classes (`RingBuffer`, `ShardedCache`, `SlotManager`, `GossipState`,
`LogStore`, `ReplicaApplier`, `CountMinSketch`, `Doorkeeper`, `RebalanceManager`, `Reader`); each method is proved
equal to a function on the object's abstract value, and the theorems are about those functions. Protocols with
several participants (`SlotMove`, `PasteReads`) are state machines whose runs are arbitrary sequences of events.
A locked section or a single store command is one step.

## What the proofs found

Some properties one would expect hold only under a condition. Each has the exact condition, as an
if-and-only-if over all inputs, and usually a concrete run that shows the failure.

- The ring stays a FIFO queue across a write exactly when the entry fits before the end of the buffer or the tail
  is at the end (`WriteFifoIff`; `GapIsReached` gets there from a new ring), and across an in-place update exactly
  when the size is the same (`UpdateInPlaceFifoIff`). Safety on arbitrary bytes needs neither (`WriteSafeOnAnyBytes`),
  nor does what one write evicts (`WriteEvictsLeast`) or what one Set keeps (`SetRetains`).
- An inline counter reads back exactly when it is not negative (`InlineRoundTripIff`).
- `KeySlot` hashes the empty string for a key with an empty tag, where section "Hash tags" of the Redis Cluster
  specification hashes the whole key (`AgreesWithSpecificationIff`, `EmptyTagDiffers`).
- Redirects lead a client to the owner of a slot, or to the node it exports the slot to exactly when that node lets
  ASKING in; otherwise they send it round in circles (`RedirectsLeadToServer`, `Circles`).
- An importing node lets an ASKING command through its router and then refuses it as a write (`AskingWriteRefused`).
  This is about commands on keys; RESTORE, which the move sends, is not one for the router or the gate and passes.
- Claims that are heard converge in every order exactly when the newest name one owner (`ConvergesIff`). Which claims
  of a gossip entry are heard depends on the role its sender is then known to have, so over entries the order matters
  more: a node's second-hand claim and its own report that it is a replica already disagree (`ReplicaReportDecides`).
  New nodes agree in every order of the entries exactly when, from the newest claim that is heard in any case on, all
  claims name one owner (`EntriesConvergeIff`).
- A restored slot equals the saved one exactly when it carries no peer of a migration that is not active
  (`RestoreUndoesSnapshot`, `RestartForgetsPeer`).
- A write on an assigned slot succeeds exactly when the LSN allocator and the log agree (`WriteSucceedsIff`). Within
  one process they always do, promotions included (`RunStaysInStep`, `PromotionInStepIff`). After a restart they do
  not: the counters are restored and the log starts empty, so every write on a slot that was written before is
  refused from then on (`RestartBlocksTheLog`, `AheadStaysAhead`).
- Operations of an epoch are applied exactly once, in order and without a gap exactly when first successful arrivals
  are in order (`ExactlyOnceIff`, `GapIsApplied`); one that arrives or succeeds only after a later one has been
  applied is never applied (`AppliedIff`, `FailedApplyIsLost`).
- A replication payload decodes to its arguments exactly when none contains a NUL byte and they are not a single
  empty argument (`PayloadRoundTripIff`, `NulSplitsArgument`).
- A slot move loses exactly the keys that a MIGRATE still running, or begun, after the controller gave up deletes although
  they were written meanwhile (`MoveLosesExactly`, `FinishLosesIff`, `StragglerLosesWrite`); nothing else is ever lost.
- A rollback gives the slot back exactly when the target's SETSLOT NODE never took effect (`RollbackRestoresIff`);
  keys moved before stay on the target (`RollbackLeavesMovedKeys`). If it did take effect and the source is told
  STABLE instead, both nodes serve the slot (`BothServeIff`, `RollbackSplitsTheSlot`).
- A paste with a view limit goes uncounted exactly for the readers that look for the counter before the creation is
  complete (`UnmeteredIffEarly`), so the limit can be exceeded by their number (`ReturnsBounded`,
  `OneViewReturnedTwice`).

## Model

| member | source | states |
|---|---|---|
| EntryFormat.HeaderRoundTrip | internal/engine/memory/ringbuf.go:64-82 | Unmarshalling a marshalled header gives it back, whatever bytes follow. |
| RingModel.EntriesDisjoint | internal/engine/memory/ringbuf.go:167-257 | Two live entries of the queue never overlap in the buffer. |
| RingModel.OffsetIsEntryStart | internal/engine/memory/ringbuf.go:265-288 | Every queue entry is read back, header, key and value, at its offset. |
| RingModel.DisplacedIsLeast | internal/engine/memory/ringbuf.go:182-208 | The number of entries dropped is the least that makes room, in both directions. |
| RingModel.EvictForSpaceFifo | internal/engine/memory/ringbuf.go:182-208 | The first eviction loop drops exactly that many oldest entries, reports them oldest first, and leaves a queue. |
| RingModel.WriteIsEnqueue | internal/engine/memory/ringbuf.go:167-257 | Without a gap, a write is an enqueue behind the least number of evictions; offset, head and eviction list are exact. |
| RingModel.GapBreaksChain | internal/engine/memory/ringbuf.go:210-239 | A write that wraps away from the end leaves no queue with the new entry last, whatever is taken for the rest. |
| RingModel.WriteFifoIff | internal/engine/memory/ringbuf.go:167-257 | A write leaves a queue ending in the new entry if and only if it leaves no gap at the end of the buffer. |
| RingModel.GapIsReached | internal/engine/memory/ringbuf.go:210-211 | From a new ring of any capacity, writing an entry whose size does not divide it until it wraps leaves no such queue. |
| RingModel.InTheWayExact | internal/engine/memory/ringbuf.go:210-239 | The entries that start before the end of the room at the front are exactly the first so many. |
| RingModel.EvictForWrapFifo | internal/engine/memory/ringbuf.go:210-239 | The second eviction loop drops exactly those, reports them oldest first, and leaves a queue. |
| RingModel.WriteEvictsLeast | internal/engine/memory/ringbuf.go:167-257 | With a gap or without, a write to a queue reports its oldest entries, oldest first, and exactly as many as it must: dropping so many, or more, leaves room for the new entry and keeps the others out of its bytes, and dropping fewer does not. |
| RingModel.SurvivorsAreRead | internal/engine/memory/ringbuf.go:167-288 | Every entry that a write does not report is read at its offset afterwards. |
| RingModel.UpdateInPlaceFifoIff | internal/engine/memory/ringbuf.go:130-154 | An in-place update succeeds iff the new entry is not larger, and keeps the queue iff it has the same size. |
| RingModel.MakeRoomInBounds | internal/engine/memory/ringbuf.go:182-239 | From any bytes, both eviction loops end with bounds intact and enough contiguous room; after a wrap the head is beyond the room unless no used byte is left. |
| RingModel.DamageClears | internal/engine/memory/ringbuf.go:182-239 | A write that would have to evict bytes that are no item empties the ring, reports nothing and writes at the front. |
| RingModel.ReadSpliced | internal/engine/memory/ringbuf.go:265-288 | Bytes of an entry read back as that entry iff its length fields fit 16 bits; its header reads back always. |
| RingModel.WriteSafeOnAnyBytes | internal/engine/memory/ringbuf.go:167-257 | On any contents a write succeeds iff the entry fits, changes only its own bytes, restores the bounds and reads back. |
| RingBuffers.RingBuffer.constructor | internal/engine/memory/ringbuf.go:116-125 | A new buffer has at least the minimum size and is an empty queue. |
| RingBuffers.RingBuffer.WriteWithEvict | internal/engine/memory/ringbuf.go:167-257 | Writes in place with both eviction loops: positions, bytes, offset and evicted entries are those of the specification, of which WriteEvictsLeast and WriteSafeOnAnyBytes say what they are; a too large entry changes nothing. |
| RingBuffers.RingBuffer.UpdateInPlace | internal/engine/memory/ringbuf.go:130-154 | Overwrites in place iff the stored header announces enough room, cutting the value off at the end of the buffer; otherwise changes nothing. |
| RingBuffers.RingBuffer.Enqueue | internal/engine/memory/ringbuf.go:167-257 | On a queue without a gap: the new queue, the victims in order, and the entry readable at the returned offset. |
| RingBuffers.RingBuffer.ReadAt | internal/engine/memory/ringbuf.go:265-288 | Reads the entry at an offset, or fails on any offset or length out of range. |
| CacheModel.InlineRoundTripIff | internal/engine/memory/shard.go:290-305 | Every inline word is recognised, and decodes to its value iff the value is not negative. |
| CacheRefinement.GetRefines | internal/engine/memory/shard.go:135-175 | In one shard, a lookup gives the last value of an indexed key and nothing for any other. |
| CacheRefinement.SetInPlaceRefines | internal/engine/memory/shard.go:220-283 | Setting by in-place update makes the shard stand for the map with that key changed. |
| CacheRefinement.SetWriteRefines | internal/engine/memory/shard.go:220-283 | Setting by a new write, with all evictions removed from the index, does the same for every surviving key. |
| CacheRefinement.InlineRefines | internal/engine/memory/shard.go:309-368 | Storing a counter inline makes the shard stand for the map with its decimal text. |
| CacheRefinement.RefinesNoPanic | internal/engine/memory/shard.go:220-283 | While a shard refines a map, a Set never addresses memory past the end of the ring. |
| CacheRefinement.StepKeepsInv | internal/engine/memory/shard.go:220-458 | Set, IncrBy and Delete keep the refinement of the recorded map, shard placement and the slot index. |
| CacheRefinement.RunKeepsInv | internal/engine/memory/shard.go:220-458 | So does every run of them. |
| CacheRefinement.GetIsLast | internal/engine/memory/shard.go:135-175 | In every such state Get is the last value written for a live key, and nothing for any other. |
| CacheRefinement.KeysInSlotExact | internal/engine/memory/shard.go:797-840 | Of the readable keys, the slot index lists under a slot exactly those that hash to it. |
| CacheRefinement.CleanupKeepsInv | internal/engine/memory/shard.go:797-840 | Dropping unreadable keys from the slot index keeps the invariant. |
| CacheRefinement.CacheIsLossyMap | internal/engine/memory/shard.go:135-458 | From an empty cache, after every run: Get is absent or the last value written, index words point at live entries of their hash, and the slot index is exact. CacheKeepsWrites says when a key is present. |
| CacheRefinement.SetRetains | internal/engine/memory/shard.go:220-283 | A Set of 16-bit lengths, gap or shrinking entry included, succeeds iff the entry fits the ring and is then read back; a failed one drops at most a counter. Any other key keeps what it had, or is gone exactly when its index word is among the evicted entries. |
| CacheRefinement.OthersKeep | internal/engine/memory/shard.go:309-458 | Counting and deleting change no other key; the counted key has its new value, the deleted one none. |
| CacheRefinement.IncrAdds | internal/engine/memory/shard.go:309-368 | In every state, by what Get reads: IncrBy adds to a number, starts an absent key at the delta and refuses other text without a change; the sum is read back iff it is not negative. |
| CacheRefinement.CountersAreSums | internal/engine/memory/shard.go:220-368 | After every supported run from an empty cache, a key that is only counted on reads as the sum of its increments: no write to another key evicts it. |
| CacheRefinement.CacheKeepsWrites | internal/engine/memory/shard.go:220-283 | The same after every run from an empty cache, where no Set can address memory past a ring. |
| ShardedCaches.ZeroGCShard.Set | internal/engine/memory/shard.go:220-283 | The shard's index and ring after a Set, in place or by writing, are those of the specification. |
| ShardedCaches.ZeroGCShard.Get | internal/engine/memory/shard.go:135-175 | Looks up inline words and ring entries, checking the key. |
| ShardedCaches.ZeroGCShard.IncrBy | internal/engine/memory/shard.go:309-368 | Counts in the index word, or refuses a value that is not an integer and changes nothing; that it adds is CacheRefinement.IncrAdds. |
| ShardedCaches.ShardedCache.constructor | internal/engine/memory/shard.go:85-117 | A new cache has the configured number of empty shards. |
| ShardedCaches.ShardedCache.Set | internal/engine/memory/shard.go:220-283 | The whole cache after a Set, including the slot index. |
| ShardedCaches.ShardedCache.Get | internal/engine/memory/shard.go:135-175 | The value of a key through its shard. |
| ShardedCaches.ShardedCache.IncrBy | internal/engine/memory/shard.go:309-368 | The whole cache after counting, with a new key entered in its slot. |
| ShardedCaches.ShardedCache.Delete | internal/engine/memory/shard.go:432-458 | The whole cache after a deletion, and whether the key existed. |
| ShardedCaches.ShardedCache.KeysInSlot | internal/engine/memory/shard.go:797-840 | In any state: the readable keys listed under the slot, each once, all of them unless the count is reached; only unreadable ones are dropped from the list. |
| SlotModel.RemoveFirstExact | internal/cluster/slots.go:354-362 | Removing a slot from a duplicate-free list removes that slot and nothing else. |
| SlotModel.StepKeepsGood | internal/cluster/slots.go:63-362 | Every table operation keeps the reverse index exact and duplicate-free, and primary equal to owner. |
| SlotModel.StepExact | internal/cluster/slots.go:63-362 | Each of the twelve operations, attribute by attribute: which slots it concerns, their owner, epoch, state, migration peers, replicas with their records, and LSN counter afterwards; no other slot changes. |
| SlotModel.FreshReplicasExact | internal/cluster/slots.go:139-160 | Configuring lists exactly the given ids but blanks and the primary, healthy and at LSN 0. |
| SlotModel.WithReplicaExact | internal/cluster/slots.go:164-219 | Adding a replica keeps those listed and lists it, once. |
| SlotModel.AdvanceExact | internal/cluster/slots.go:238-260 | An acknowledged LSN reaches the first replica with the id alone, at the greater of old and new, and makes it healthy. |
| SlotPersistence.OwnersGood | internal/cluster/slots.go:474-490 | Rebuilding the owners gives exactly the saved ones with an exact index. |
| SlotPersistence.RestoreGood | internal/cluster/slots.go:474-522 | A restored table is exact slot by slot and good, for any order in which the two maps are visited. |
| SlotPersistence.RestoreUndoesSnapshot | internal/cluster/slots.go:415-522 | Restoring the three snapshots gives back every slot but for peers of inactive migrations, exactly then the same slot, and the same reverse index as sets. |
| SlotPersistence.OwnedExactly | internal/cluster/slots.go:305-312 | A node's listed slots are exactly those it owns. |
| SlotPersistence.RunGood | internal/cluster/slots.go:63-539 | Runs of operations and restores keep the table good. |
| SlotPersistence.ReachableGood | internal/cluster/slots.go:43-539 | Every table reachable from a new one is good. |
| SlotPersistence.RestartForgetsPeer | internal/cluster/slots.go:415-522 | A reachable table whose restored slot has lost the peer of an import that an assignment ended. |
| SlotManagers.SlotManager.constructor | internal/cluster/slots.go:43-51 | A new table is free and good. |
| SlotManagers.SlotManager.RemoveSlotFromNode | internal/cluster/slots.go:354-362 | The search loop removes the first occurrence of the slot from the node's list. |
| SlotManagers.SlotManager.SetOwnerLocked | internal/cluster/slots.go:524-539 | Moves a slot between the lists of its old and new owner. |
| SlotManagers.SlotManager.AssignSlot | internal/cluster/slots.go:63-83 | Assigns a slot in range and keeps the table good; refuses others. |
| SlotManagers.SlotManager.AssignSlotRange | internal/cluster/slots.go:85-92 | Assigns a range slot by slot. |
| SlotManagers.SlotManager.ConfigureReplication | internal/cluster/slots.go:139-160 | Sets primary, epoch and fresh replicas without blanks and without the primary. |
| SlotManagers.SlotManager.AddSlotReplica | internal/cluster/slots.go:164-181 | Adds a replica to an assigned slot once. |
| SlotManagers.SlotManager.AddReplicaToMasterSlots | internal/cluster/slots.go:184-219 | Adds a replica to every slot of a master and counts them by the reverse index. |
| SlotManagers.SlotManager.AllocateLSN | internal/cluster/slots.go:221-236 | Hands out the next LSN of an assigned slot with its epoch. |
| SlotManagers.SlotManager.UpdateReplicaLSN | internal/cluster/slots.go:238-260 | Raises the first replica with the id, never lowers it. |
| SlotManagers.SlotManager.PromoteReplica | internal/cluster/slots.go:262-303 | Promotes a replica: owner, epoch, LSN and replica list are those of the specification; refuses a node that is none. |
| SlotManagers.SlotManager.SetMigration | internal/cluster/slots.go:314-352 | The four migration transitions, keeping the table good. |
| SlotManagers.SlotManager.GetSlotMapSnapshot | internal/cluster/slots.go:415-423 | The owners of all slots. |
| SlotManagers.SlotManager.GetMigratingSlots | internal/cluster/slots.go:425-445 | Exactly the active migrations with their peers. |
| SlotManagers.SlotManager.GetSlotReplicationState | internal/cluster/slots.go:447-472 | Exactly the replication states worth saving. |
| SlotManagers.SlotManager.RestoreFromState | internal/cluster/slots.go:474-522 | Rebuilds the table in place, for some visiting order of the maps, into a good one. |
| Crc16.TableIsShift8 | internal/cluster/hash/crc16.go:4-37 | Every table entry is eight shift-and-subtract steps of its index. |
| Crc16.TableIsBitwise | internal/cluster/hash/crc16.go:43-49 | The table-driven checksum equals feeding the message bit by bit, on every byte string. |
| Crc16.CrcIsRemainder | internal/cluster/hash/crc16.go:43-49 | It is the remainder of the message times x^16 divided by the generator polynomial. |
| Crc16.Compute | internal/cluster/hash/crc16.go:43-49 | The loop computes that checksum. |
| KeySlots.IndexByte | internal/cluster/hash/crc16.go:65-72 | The first position of a byte, or -1. |
| KeySlots.ComputeKeySlot | internal/cluster/hash/crc16.go:53-61 | The slot of a key, always below 16384; which part of the key decides it is TagDecides and UntaggedIsWhole. |
| KeySlots.TagDecides | internal/cluster/hash/crc16.go:53-61 | The slot of a key with a tag depends on the tag alone. |
| KeySlots.UntaggedIsWhole | internal/cluster/hash/crc16.go:53-61 | A key without an opening brace, or without a closing one after the first, is hashed as a whole. |
| KeySlots.SlotOfFoo | internal/cluster/hash/crc16.go:53-61 | The slot of an ordinary key, by its number. |
| KeySlots.AgreesWithSpecificationIff | internal/cluster/hash/crc16.go:53-61 | The slot is the one specified, by a definition of its own over all ways to enclose a tag, exactly when the first opening brace is not closed at once or the key falls on slot 0 anyway. |
| KeySlots.EmptyTagDiffers | internal/cluster/hash/crc16.go:53-61 | A key with an empty tag for which the two differ, with both slots. |
| SlotBitmap.SlotsToBytes | internal/cluster/gossip/message.go:156-162 | Sets the bits of the slots in a full-size bitmap. |
| SlotBitmap.BytesToSlots | internal/cluster/gossip/message.go:164-172 | Lists the set bits in order. |
| SlotBitmap.DecodeExact | internal/cluster/gossip/message.go:164-172 | A bitmap of any length decodes to exactly its set slots, ascending and without repetition. |
| SlotBitmap.DecodeEncode | internal/cluster/gossip/message.go:156-172 | Decoding an encoded slot list gives its slots, sorted and without repetition. |
| SlotBitmap.EncodeDecode | internal/cluster/gossip/message.go:156-172 | Encoding the slots of a full-size bitmap gives it back. |
| Routing.LocalIff | internal/cluster/router/router.go:52-99 | When a key is local, exactly, in terms of the write gate, export, ASKING and the known nodes. |
| Routing.CarriedOutIff | internal/protocol/handler.go:288-324 | A write is carried out only where the slot is free, or owned and not being exported; ASKING opens nothing. |
| Routing.RouteAgreesWithGate | internal/cluster/cluster.go:732-745 | With a known owner and no ASKING, local implies writable, and writable implies local unless the slot is exported. |
| Routing.AskingWriteRefused | internal/cluster/router/router.go:66-84 | On a slot another node owns, ASKING passes the router only on an importing slot, and the gate refuses the write. |
| Routing.RedirectKinds | internal/cluster/router/router.go:52-99 | In any table: exactly when a node answers ASK or MOVED, and with whose address. |
| Routing.RedirectsLeadToServer | internal/cluster/router/router.go:52-99 | Where every node names one owner, a client that follows MOVED and ASK from any node arrives within two hops at the owner, or at the node it exports the slot to iff that is another node that lets ASKING in; otherwise it never arrives. |
| Routing.MovingSlotIsReached | internal/cluster/router/router.go:65-84 | After SETSLOT IMPORTING and MIGRATING, every client arrives at the target. |
| Routing.Circles | internal/cluster/router/router.go:65-99 | An export to a node that does not let ASKING in sends a client round for ever. |
| Routing.RouteMulti | internal/cluster/router/router.go:102-120 | Several keys are routed like the first if their slots agree, and refused as crossing slots otherwise. |
| Routing.RouteTagged | internal/cluster/router/router.go:102-120 | Keys around one hash tag are never refused as crossing slots and go to the tag's slot. |
| Failover.SelectBestReplica | internal/cluster/failover/manager.go:53-76 | Chooses only healthy, named replicas; among named ones, one of maximal match LSN iff any is healthy. |
| Failover.RunKeepsNamed | internal/cluster/slots.go:139-303 | No run of table operations enters a replica without a name. |
| Failover.PromotionSafe | internal/cluster/slots.go:262-303 | Promoting the best replica raises the epoch and keeps the set of members; with distinct ids it keeps the LSN counter at or above every healthy replica. |
| Failover.PromoteBestReplica | internal/cluster/failover/manager.go:78-101 | Promotes such a replica in the table, or changes nothing when none is chosen. |
| Failover.NextLSNGrowsOverRuns | internal/cluster/slots.go:63-362 | No run of table operations lowers a slot's LSN counter. |
| Failover.AllocatedAfterFailover | internal/cluster/failover/manager.go:78-101 | Every LSN allocated after a failover, after any run of operations, exceeds all allocated before and every healthy replica's. |
| Gossip.HearMonotone | internal/cluster/gossip/gossip.go:850-869 | A claim never lowers the epoch and changes the owner only with a higher epoch, or while none is known. |
| Gossip.HearIff | internal/cluster/gossip/gossip.go:850-869 | A claim of another owner is taken over iff it is newer than the recorded epoch and the table's, or none of the three is known. |
| Gossip.HearAllMonotone | internal/cluster/gossip/gossip.go:417-437 | The same over every run of claims: the epoch never falls, and the owner changes only if one of them is newer than both epochs. |
| Gossip.OutcomeIsNewest | internal/cluster/gossip/gossip.go:417-437 | A run of claims with news ends with the newest epoch and an owner that claims it. |
| Gossip.Converges | internal/cluster/gossip/gossip.go:417-437 | Two nodes without an epoch that hear the same claims, in any order and repetition, end with the same owner and epoch. |
| Gossip.ConvergesIff | internal/cluster/gossip/gossip.go:417-437 | Claims that are heard end with the same owner in every order if and only if the newest name one owner. |
| Gossip.HeardBounds | internal/cluster/gossip/gossip.go:366-395 | In any run of entries, every claim of a sender without a replica report, and every direct claim of a master, is heard; no claim of a replica report is. |
| Gossip.AllClaimsHeard | internal/cluster/gossip/gossip.go:366-395 | Without a replica report and without a sender known as a replica, exactly the claims of all entries are heard, in order. |
| Gossip.EntriesConverge | internal/cluster/gossip/gossip.go:346-438 | Then two nodes that process the same entries, in any order and repetition, end with the same owner and epoch if the newest claims name one owner. |
| Gossip.EntriesConvergeIff | internal/cluster/gossip/gossip.go:346-438 | With replica reports among the entries: new nodes agree in every order iff from the newest sure claim on all claims name one owner, or, without a sure claim, none names another owner than the one believed in. |
| Gossip.ReplicaReportDecides | internal/cluster/gossip/gossip.go:366-395 | One second-hand claim and its sender's replica report: one order ends with that owner, the other with none. |
| Gossip.GossipState.RecordSlotEpoch | internal/cluster/gossip/gossip.go:863-869 | The recorded epoch of a slot never falls. |
| Gossip.GossipState.RegisterReplica | internal/cluster/gossip/gossip.go:400-415 | Adds a replica to exactly the slots of its master; owners and epochs stay. |
| Gossip.GossipState.ApplyClaim | internal/cluster/gossip/gossip.go:419-435 | Hears a claim on one slot, whose replicas and migration end with a change of owner, leaves the others, and keeps the table good. |
| Gossip.GossipState.ApplyClaims | internal/cluster/gossip/gossip.go:417-437 | The same for all slots of an entry, each exactly once. |
| Gossip.GossipState.ProcessNodeInfo | internal/cluster/gossip/gossip.go:346-438 | A gossip entry is heard on exactly the slots of its bitmap if its sender counts as a master, and on none otherwise; every slot, replica lists included, is given exactly; roles come only from direct reports. |
| Gossip.GossipState.ProcessAll | internal/cluster/gossip/gossip.go:346-438 | After a run of entries each slot's belief is the outcome of the claims heard in it, and roles are those of the run. |
| ReplicationLog.AppendKeeps | internal/cluster/replication/log.go:46-66 | The next operation and only that one is accepted, and the log stays the newest part of the history within its limit. |
| ReplicationLog.IncrementalExact | internal/cluster/replication/sync.go:3-11 | Incremental resync succeeds iff the replica is not ahead and nothing it misses was trimmed, and then gives exactly what it misses. |
| ReplicationLog.ResyncCatchesUp | internal/cluster/replication/sync.go:3-11 | Replaying that on the state after the applied operations gives the master's state. |
| ReplicationLog.WriteSucceedsIff | internal/cluster/replication/manager.go:90-123 | A write on an assigned slot succeeds iff allocator and log agree beforehand. The LSN is used up either way, and a refused write leaves the log as it was. |
| ReplicationLog.WriteKeepsSynced | internal/cluster/replication/manager.go:90-123 | A serialised write is never refused, carries the next LSN, and keeps allocator and log in step on all slots. |
| ReplicationLog.WritesKeepSynced | internal/cluster/replication/manager.go:90-123 | So does every run of writes; HistoriesAre says what the histories then are. |
| ReplicationLog.HistoriesAre | internal/cluster/replication/manager.go:90-123 | A run of writes extends each slot's history by the requests on that slot, one operation each, in order, and by nothing else. |
| ReplicationLog.FreshWritesResync | internal/cluster/replication/sync.go:3-11 | From a fresh master after any run of writes: the history logs exactly the slot's requests, allocator and log stand at their number, and incremental resync succeeds iff the replica is not ahead and misses no more than the limit, and then leads it to the master's state. |
| ReplicationLog.AheadStaysAhead | internal/cluster/replication/manager.go:90-123 | Once the allocator is ahead of the log, every further write on the slot is refused, after any run. |
| ReplicationLog.PromotionInStepIff | internal/cluster/slots.go:262-303 | A promotion leaves allocator and log in step iff the promoted replica is not ahead of the log. |
| ReplicationLog.RunStaysInStep | internal/cluster/replication/manager.go:74-123 | Over every run of writes, acknowledgements of logged operations, promotions and other table changes, allocator and log stay in step, so no write on an assigned slot is refused. |
| ReplicationLog.RestartBlocksTheLog | internal/cluster/cluster.go:716-725 | After restoring a table beside an empty log, a slot's first write succeeds iff nothing was ever written on it; otherwise every write on it is refused, after any run of writes. |
| LogStores.LogStore.constructor | internal/cluster/replication/log.go:34-44 | An empty log with the default limit unless a positive one is given. |
| LogStores.LogStore.Append | internal/cluster/replication/log.go:46-66 | Appends and trims in place, or refuses and changes nothing. |
| LogStores.LogStore.ListAfter | internal/cluster/replication/log.go:68-80 | The logged operations after an LSN. |
| LogStores.LogStore.IncrementalOps | internal/cluster/replication/sync.go:3-11 | The missing operations if they can be replayed, nothing otherwise. |
| LogStores.ReplicationManager.ApplyWrite | internal/cluster/replication/manager.go:90-123 | Callback, allocation and append: a failed callback changes nothing, a refused append uses up the LSN. |
| ReplicaApply.AppliedIncrease | internal/cluster/replication/applier.go:22-48 | For every delivery sequence, the committed (epoch, LSN) pairs strictly increase. |
| ReplicaApply.ExactlyOnceIff | internal/cluster/replication/applier.go:22-48 | Within an epoch that may start at any LSN, operations are applied once, in order and without a gap iff first successful arrivals are in order, whatever fails or is repeated. |
| ReplicaApply.GapIsApplied | internal/cluster/replication/applier.go:36-40 | An operation ahead of its predecessor is applied, and the predecessor then never is. |
| ReplicaApply.AppliedIff | internal/cluster/replication/applier.go:22-48 | Over every delivery sequence, a position is applied iff it arrives with success before progress has passed it. |
| ReplicaApply.AppliedIsHistory | internal/protocol/handler.go:565-640 | Then the applied operations are the master's history of the epoch up to where progress stands, however duplicates and failures are interleaved. |
| ReplicaApply.ReplicaConverges | internal/protocol/handler.go:565-640 | Hence the replica's state is the fold of the master's operations, all of them once the last is delivered with success. |
| ReplicaApply.AppliedAcrossTerms | internal/protocol/handler.go:565-640 | Over any number of epochs, each going on with the LSNs of the one before, what is applied is the joined history up to where the replica is. |
| ReplicaApply.ConvergesAcrossFailovers | internal/protocol/handler.go:565-640 | So the replica ends, over any number of failovers, in the master's state at that point. |
| ReplicaApply.FailedApplyIsLost | internal/protocol/handler.go:565-640 | An operation that fails to apply is never applied once any later one is, whatever is delivered afterwards. |
| ReplicaApply.ReplicaApplier.ApplyIncoming | internal/cluster/replication/applier.go:22-48 | Verdict and new progress of the slot; other slots and failed applications change nothing. |
| Decimal.AppendUint | internal/protocol/format.go:37-51 | The digit array filled from its end holds the decimal digits. |
| Decimal.AppendInt | internal/protocol/format.go:23-34 | Appends the decimal text of every 64-bit integer, the minimum included. |
| Decimal.ParseFormat | internal/protocol/format.go:23-51 | Parsing printed text gives the number back for every 64-bit integer. |
| Decimal.FormatShortest | internal/protocol/format.go:23-51 | Printed text carries a sign iff the number is negative, and no leading zero. |
| Resp.FormatIntRESP | internal/protocol/format.go:63-68 | Appends the printed integer value. |
| Resp.FormatArrayLen | internal/protocol/format.go:79-84 | Appends the array header. |
| Resp.FormatBulkString | internal/protocol/format.go:87-92 | Appends the printed bulk string. |
| Resp.ParsePrint | controllers/resp.go:11-90 | Parsing a printed value, nested to any depth, gives it back with the exact rest of the input. |
| Resp.ParseIff | controllers/resp.go:11-90 | The parser accepts an input iff it begins with a text of some value in a grammar of its own, simple strings and Nil forms included, and gives that value and the exact rest. |
| RespReader.Reader.ReadRESPLine | controllers/resp.go:92-101 | Reads one line from the stream, without its line ending. |
| RespReader.Reader.ParseRESP | controllers/resp.go:11-90 | The recursive-descent reader accepts and consumes exactly what the grammar parses. |
| RespReader.Reader.ParseArray | controllers/resp.go:18-41 | So does its loop over array items. |
| ReplicationCodec.EncodeReplicationApplyCommand | internal/cluster/replication/stream.go:103-127 | The loop over the fields writes the command's wire form. |
| ReplicationCodec.ReadEncodedOp | internal/cluster/replication/replica_conn.go:348-414 | Reading an encoded operation, arbitrary bytes in key and payload, gives it back with the exact rest of the input. |
| ReplicationCodec.ReadReplicationOp | internal/cluster/replication/replica_conn.go:348-414 | The field-by-field reader returns and consumes exactly that. |
| ReplicationCodec.OnlyArraysAreRead | internal/cluster/replication/replica_conn.go:348-414 | Only the header of an array of at least eight fields begins an operation. |
| ReplicationCodec.PayloadRoundTripIff | internal/protocol/handler.go:542-563 | A payload decodes to its arguments iff no argument has a NUL byte and they are not one empty argument. |
| ReplicationCodec.NulSplitsArgument | internal/protocol/handler.go:542-563 | An argument with a NUL byte comes back as two, and a single empty one as none. |
| SlotMove.StepKeepsInv | controllers/scaling.go:340-405 | Every command, reply, loss, retry, timeout and client write keeps the move's invariant, with the lost keys exactly accounted for. |
| SlotMove.RunKeepsInv | controllers/scaling.go:340-405 | So does every interleaving of them. |
| SlotMove.MoveLosesExactly | controllers/scaling.go:340-405 | After every run the lost keys are exactly those an overtaken straggling MIGRATE deleted and no client has touched since; after success nothing is lost, the source is empty and both tables name the target, settled. |
| SlotMove.MoveLosesNothing | controllers/scaling.go:340-405 | Nothing is lost in any run, timeouts included, in which a straggler's own key is not written meanwhile. |
| SlotMove.FinishLosesIff | internal/protocol/handler.go:1937-2131 | The deletion that ends a MIGRATE loses nothing iff clients have deleted the key or left it unchanged. |
| SlotMove.MoveIsExact | controllers/scaling.go:340-405 | A target that began empty ends a successful move with exactly the acknowledged keys and values. |
| SlotMove.MoveSucceeds | controllers/scaling.go:340-391 | From every start, for every listing of the keys in batches of at most 100, the run in which every command is acknowledged and every key is migrated is done, with the exact state of both nodes. |
| SlotMove.MoveEndsIff | controllers/scaling.go:340-391 | In every run the move is done iff the source's SETSLOT NODE was acknowledged, abandoned iff SETSLOT IMPORTING or the address failed, and rolled back iff anything else failed. |
| SlotMove.TargetGainsExactly | internal/protocol/handler.go:1937-2131 | In every run, until the handover, the target holds its leftovers and, over them, exactly the keys whose RESTORE took effect. |
| SlotMove.RetriesExactly | internal/protocol/handler.go:1937-2131 | A lost RESTORE is sent three times more before the MIGRATE fails. |
| SlotMove.RollbackReports | controllers/scaling.go:393-405 | A rollback sends both commands whatever becomes of the first, and succeeds iff both are acknowledged. |
| SlotMove.DrainBounded | controllers/scaling.go:365-380 | The key loop moves no more keys than the source holds. |
| SlotMove.DrainShrinks | internal/protocol/handler.go:1937-2131 | Each completed MIGRATE takes one key off the source, and nothing else in the loop changes their number. |
| SlotMove.OwnerFollowsHandover | internal/protocol/commands/cluster.go:331-364 | The target's table changes owner exactly through its SETSLOT NODE. |
| SlotMove.RollbackRestoresIff | controllers/scaling.go:393-405 | An acknowledged rollback settles both tables, gives the slot back to the source iff the handover never took effect, and then the source is current but for what a straggler deleted. |
| SlotMove.BothServeIff | controllers/scaling.go:382-405 | Both nodes serve the slot iff the target was made its owner while the source was told STABLE and never told NODE. |
| SlotMove.RollbackSplitsTheSlot | controllers/scaling.go:382-405 | A lost reply to the handover and an acknowledged rollback leave both nodes serving. |
| SlotMove.RollbackLeavesMovedKeys | controllers/scaling.go:393-405 | A failed move after the first key leaves that key on the target although the source owns the slot again. |
| SlotMove.StragglerLosesWrite | internal/protocol/handler.go:1937-2131 | A MIGRATE that outlives the controller's timeout can delete an acknowledged write from the only node that has it. |
| SlotMove.LateMigrateLosesWrite | internal/protocol/handler.go:1937-2131 | So can one that only begins after the controller has given up and rolled back. |
| PowersOfTwo.NextPowerIsLeast | internal/engine/memory/tinylfu.go:272-284 | Bit smearing gives the least power of two that is large enough. |
| WordValues.MaskIsRemainder | internal/engine/memory/tinylfu.go:88-90 | Masking with a power of two less one is taking the remainder by it, for every 64-bit word. |
| Sketches.BumpExact | internal/engine/memory/tinylfu.go:83-103 | A counter saturates at 15 and never carries into its neighbour. |
| Sketches.HalveExact | internal/engine/memory/tinylfu.go:124-139 | The masked shift halves both counters of a byte independently. |
| Sketches.StreamCovers | internal/engine/memory/tinylfu.go:83-139 | Over every stream, resets included, every row stays at or above the halved and saturated count. |
| Sketches.NeverUndercounts | internal/engine/memory/tinylfu.go:106-121 | Hence the estimate never undercounts it. |
| Sketches.EstimateIsLeast | internal/engine/memory/tinylfu.go:106-121 | The estimate is one of the four counters and at most each of them. |
| Sketches.EstimateExact | internal/engine/memory/tinylfu.go:83-139 | Over every stream, resets included, the estimate is exactly the least, over the rows, of the counts of all increments that fall on the hash's own cell. |
| Sketches.AloneIsExact | internal/engine/memory/tinylfu.go:83-139 | A hash that is alone on its cell in one row is estimated at its true count. |
| Doorkeepers.AllowMarks | internal/engine/memory/tinylfu.go:159-206 | Letting a hash in marks it and unmarks none, short of a reset. |
| Doorkeepers.NoFalseNegatives | internal/engine/memory/tinylfu.go:159-206 | Between resets a hash that was let in is always recognised. |
| Doorkeepers.SetBitExact | internal/engine/memory/tinylfu.go:181-206 | Marking sets one bit and no other. |
| Doorkeepers.AllowedIffMarked | internal/engine/memory/tinylfu.go:159-206 | Over every stream with its resets, a hash is let through iff the hashes since the last reset have marked both of its positions. |
| TinyLfu.FrequencyCovers | internal/engine/memory/tinylfu.go:243-247 | Between resets the frequency is at least the number of accesses after the first, up to 15. |
| TinyLfu.RecordsRepeated | internal/engine/memory/tinylfu.go:159-247 | Over every stream with its resets, the sketch counts exactly the accesses whose two positions were already marked since the doorkeeper's last reset. |
| LfuTables.RoundedPositive | internal/engine/memory/tinylfu.go:42-61 | A positive width is rounded to the least power of two not below it, which PowersOfTwo.NextPowerIsLeast says of nextPowerOf2. |
| LfuTables.RoundedDefault | internal/engine/memory/tinylfu.go:42-46 | A width that is not positive becomes the default. |
| LfuTables.CountMinSketch.constructor | internal/engine/memory/tinylfu.go:42-61 | A sketch whose width is the requested one, or the default, rounded up to a power of two; it is empty and can count unless the width is one. |
| LfuTables.CountMinSketch.Increment | internal/engine/memory/tinylfu.go:83-103 | Counts at the masked position of every row in place, and resets at the threshold. |
| LfuTables.CountMinSketch.ResetAll | internal/engine/memory/tinylfu.go:124-139 | Halves all rows in place. |
| LfuTables.CountMinSketch.Estimate | internal/engine/memory/tinylfu.go:106-121 | The least counter over the masked positions. |
| LfuTables.Doorkeeper.constructor | internal/engine/memory/tinylfu.go:63-80 | An empty filter of the rounded width, in whole words. |
| LfuTables.Doorkeeper.Allow | internal/engine/memory/tinylfu.go:159-206 | Marks the two masked positions of a hash in place and says whether both were set, resetting when due. |
| LfuTables.Doorkeeper.Reset | internal/engine/memory/tinylfu.go:209-222 | Clears every word. |
| Damping.StickyCounts | internal/cluster/rebalance/manager.go:136-204 | The sticky counter is the number of consecutive hot, local, cooled-down windows at the end of the run, none with a migration: no less and no more. |
| Damping.AllowedIffSticky | internal/cluster/rebalance/manager.go:136-204 | A slot may be migrated iff it is hot, cooled down, and was so in the required number of windows before. |
| Damping.MigratedOnlyWhenSticky | internal/cluster/rebalance/manager.go:136-204 | A slot is migrated only after the required number of consecutive hot, local, cooled-down windows. |
| Damping.HotWindowsSpent | internal/cluster/rebalance/manager.go:136-204 | After a migration, hot windows are spent on cooling down one for one before any counts as sticky. |
| Damping.AnyMigrationsSeparated | internal/cluster/rebalance/manager.go:136-204 | Any two migrations of a slot are separated by at least cool-down plus sticky hot windows. |
| Damping.AllowedIsDamped | internal/cluster/rebalance/manager.go:136-204 | Both at once for every run, at each migration and for each pair of migrations. |
| MigrationPlans.Normalize | internal/cluster/rebalance/manager.go:94-114 | Every configuration becomes one with positive options; such a one is kept. |
| MigrationPlans.LightestDecides | internal/cluster/rebalance/manager.go:246-261 | If the lightest peer cannot take a slot, no peer can. |
| MigrationPlans.PlannedIff | internal/cluster/rebalance/manager.go:236-279 | A candidate is planned iff some peer's load with it stays within the ratio of the local load and the move takes enough away; it goes to the lightest peer, and both loads change by its own. |
| MigrationPlans.PlansIff | internal/cluster/rebalance/manager.go:219-281 | Anything is planned iff some peer can take one of the hottest candidates, as many as are considered. |
| MigrationPlans.PlaceAllKeeps | internal/cluster/rebalance/manager.go:236-279 | Over a planning run no peer is planned above the ceiling set by the starting load, and every move takes the required load away. |
| MigrationPlans.PlannedLoadsBounded | internal/cluster/rebalance/manager.go:236-279 | With a ratio of at most one, every move is planned within the starting local load, and every peer that receives a slot ends within it. |
| MigrationPlans.FirstFit | internal/cluster/rebalance/manager.go:246-261 | The search over sorted peers finds the lightest one if any fits. |
| MigrationPlans.PlanMigrations | internal/cluster/rebalance/manager.go:219-281 | The planner with its repeated sorting equals giving each of the hottest candidates to the lightest peer; at most the configured number of moves. |
| RebalanceManagers.RebalanceManager.constructor | internal/cluster/rebalance/manager.go:78-92 | A new manager has a normal configuration and no counts. |
| RebalanceManagers.RebalanceManager.CountHot | internal/cluster/rebalance/manager.go:144-165 | Counts hot local slots, runs down cool-downs, and forgets every other slot's count. |
| RebalanceManagers.RebalanceManager.Candidates | internal/cluster/rebalance/manager.go:168-177 | Exactly the reports with enough windows and enough score, in order. |
| RebalanceManagers.RebalanceManager.Migrate | internal/cluster/rebalance/manager.go:185-203 | Slots whose migration succeeds go into cool-down, all others stay. |
| RebalanceManagers.RebalanceManager.Tick | internal/cluster/rebalance/manager.go:136-204 | One window moves every slot's counters as its own history says, migrates only slots that are allowed, and exactly the planned ones that succeed. |
| RebalanceManagers.RebalanceManager.Loop | internal/cluster/rebalance/manager.go:123-134 | Over every run of windows each slot's history is allowed and therefore damped. |
| Listings.ListingUnique | internal/engine/memory/shard.go:900-907 | A collection of keys has one sorted listing, so positions keep their meaning between calls. |
| Listings.ListKeys | internal/engine/memory/shard.go:900-907 | Collecting in any order and sorting gives that listing. |
| CursorScan.Scan | internal/engine/memory/shard.go:881-932 | A page and what is left behind the returned cursor make up what was left before, in order; a non-zero cursor comes with a full page and less left. |
| CursorScan.ScanAll | internal/engine/memory/store.go:522-568 | Feeding cursors back ends and yields exactly the stored keys that match, each as often as it is stored, for any counts. |
| CacheScans.CollectKeys | internal/engine/memory/shard.go:900-906 | Going through a shard's index in any order collects the key of every word that leads to an entry. |
| CacheScans.ScanCache | internal/engine/memory/shard.go:881-932 | Scanning the whole cache yields the matching keys its index words lead to. |
| CacheScans.ContentsExact | internal/engine/memory/shard.go:881-932 | In a cache that refines a map those are exactly the keys stored in its rings, each once. |
| CacheScans.ScanFindsStoredKeys | internal/engine/memory/shard.go:881-932 | So after every run from an empty cache a scan finds exactly the matching keys held in the rings, each once. |
| CacheScans.LiveKeysInSlot | internal/engine/memory/shard.go:797-840 | Without a limit, KeysInSlot returns exactly the live keys of the slot, each once, and keeps the invariant. |
| PasteReads.BurnReturnsOnce | clipboard/backend/service.go:138-186 | A burn-after-read paste is returned at most once, for any interleaving of any number of readers. |
| PasteReads.BurnDeletes | clipboard/backend/service.go:138-186 | Once returned, a burn-after-read paste is gone from the store. |
| PasteReads.BurnReturnsExactlyOnce | clipboard/backend/service.go:138-186 | Without failing commands it is returned exactly once if any reader finds it. |
| PasteReads.ViewLimitHolds | clipboard/backend/service.go:138-186 | Readers that saw the counter get the paste at most N times and report different remaining numbers from 1 to N. |
| PasteReads.UnmeteredIffEarly | clipboard/backend/service.go:313-344 | In every run, a reader that got the paste went uncounted iff it looked for the counter before the creation was complete. |
| PasteReads.ReturnsBounded | clipboard/backend/service.go:69-186 | In every run, a paste with N views is returned at most N times plus once per such early reader. |
| PasteReads.ReturnsExactly | clipboard/backend/service.go:69-186 | Without failing commands and early readers, a paste with N views is returned to every reader that finds it, up to N. |
| PasteReads.UsedUpStaysUsedUp | clipboard/backend/service.go:138-186 | A reader that comes when the counter is used up is refused and changes nothing. |
| PasteReads.EarlyReaderEscapes | clipboard/backend/service.go:100-110 | A reader between the creator's two commands gets the paste without a view being counted. |
| PasteReads.OneViewReturnedTwice | clipboard/backend/service.go:100-110 | A paste for one view, returned to an early reader and to a later one. |

## Left out

- TTL and expiry, wall clocks and memory-pressure eviction: runs are without expiry.
- Locks and scheduling: a locked section is one step, so races inside one are not modelled; concurrent unserialised writes of one slot are not either.
- Statistics, metrics and logging; the access recording hook of the cache, which is taken as switched off.
- Hash collisions in the cache: the 64-bit hash is taken to be injective on the keys used, and is a parameter.
- `SetNX`, `SetXX` and `Expire`; scans find no inline counters, as in the code.
- Overflow of the 64-bit epoch and LSN counters, which are natural numbers here.
- Floating-point rounding in the rebalance planner, which works over the reals, and the detection of hot slots.
- ReplicationCodec.ReadReplicationOp: white space and other lenient forms that the library's number scanner accepts are not modelled, nor are memory limits on announced sizes.
- FULLRESYNC, the connection registry and the stream workers; `AckTracker`, whose operations are single map updates.
- `MigrateSlot` and `drainSlot` of the node-internal slot migration; the move modelled is the controller's.
- `Store.Scan` over both phases: completeness is per phase.
- Gossip membership, failure detection and message encoding beyond slots and roles.
- Kubernetes reconciliation, the Badger and S3 tiers, snapshots, HTTP handlers, authentication, the other data types and thin command handlers.
- RingBuffers.RingBuffer.UpdateInPlace: an overwrite whose key runs past the end of the buffer, where the code panics, is excluded; it cannot happen in a cache that refines a map (CacheRefinement.RefinesNoPanic).
- ShardedCaches.ZeroGCShard.Set: the same panic is excluded, and ring positions are in bounds.
- ShardedCaches.ShardedCache.Set: the same.
- LfuTables.CountMinSketch.constructor: widths above 2^62, whose rounding overflows, are excluded.
- LfuTables.CountMinSketch.Increment: the width is at least two; with a width of one the code indexes an empty row.
- Gossip.GossipState.ProcessNodeInfo: failure reports, node loads and addresses are not modelled.
- SlotMove.MoveLosesExactly: FLUSHDB is left out, and the target's table names the source at the start.
